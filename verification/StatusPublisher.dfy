/** The coalescing market-data status publisher: writers update a status map and start a
    publisher task when none is running; the task sleeps, snapshots the pending keys, hands
    the payload to the API, acknowledges the generations it has sent, and leaves when nothing
    is pending. Each action below is one lock-protected section or one await. */
module StatusPublisher {
  import opened Common

  type Pending = map<string, nat>
  type Values = map<string, string>

  /** How far a task has come; a leaving task only has its final cleanup before it. */
  datatype Phase =
    | Sleeping
    | Snapshotted(pending: Pending, payload: Values)
    | Handed(pending: Pending)
    | Leaving

  /** `handed` is the last value of each key given to the API; `tasks` are the unfinished tasks. */
  datatype System = System(
    status: Values,
    generation: nat,
    pending: Pending,
    handle: Option<nat>,
    tasks: map<nat, Phase>,
    nextTask: nat,
    handed: Values)

  datatype Action =
    | Update(key: string, value: string)
    | Snapshot(task: nat)
    | Hand(task: nat)
    | Acknowledge(task: nat)
    | Exit(task: nat)
    | Cancel(task: nat)

  predicate NoTask(s: System) {
    s.handle.None? || s.handle.value !in s.tasks
  }

  function AfterUpdate(s: System, key: string, value: string): System {
    var t := s.(status := s.status[key := value],
                generation := s.generation + 1,
                pending := s.pending[key := s.generation + 1]);
    if NoTask(s)
    then t.(handle := Some(s.nextTask), tasks := s.tasks[s.nextTask := Sleeping], nextTask := s.nextTask + 1)
    else t
  }

  function Payload(s: System): Values {
    map k | k in s.pending && k in s.status :: s.status[k]
  }

  /** The generations left after those of `sent` are acknowledged. */
  function Unsent(pending: Pending, sent: Pending): Pending {
    map k | k in pending && !(k in sent && sent[k] == pending[k]) :: pending[k]
  }

  function Released(handle: Option<nat>, task: nat): Option<nat> {
    if handle == Some(task) then None else handle
  }

  function AfterAcknowledge(s: System, task: nat, sent: Pending): System {
    var left := Unsent(s.pending, sent);
    if left == map[]
    then s.(pending := left, handle := Released(s.handle, task), tasks := s.tasks[task := Leaving])
    else s.(pending := left, tasks := s.tasks[task := Sleeping])
  }

  function Next(s: System, a: Action): System {
    match a
    case Update(key, value) => AfterUpdate(s, key, value)
    case Snapshot(t) =>
      if t in s.tasks && s.tasks[t].Sleeping? then s.(tasks := s.tasks[t := Snapshotted(s.pending, Payload(s))]) else s
    case Hand(t) =>
      if t in s.tasks && s.tasks[t].Snapshotted?
      then s.(tasks := s.tasks[t := Handed(s.tasks[t].pending)], handed := s.handed + s.tasks[t].payload) else s
    case Acknowledge(t) =>
      if t in s.tasks && s.tasks[t].Handed? then AfterAcknowledge(s, t, s.tasks[t].pending) else s
    case Exit(t) =>
      if t in s.tasks && s.tasks[t].Leaving? then s.(tasks := s.tasks - {t}, handle := Released(s.handle, t)) else s
    case Cancel(t) =>
      if t in s.tasks then s.(tasks := s.tasks[t := Leaving]) else s
  }

  function Exec(s: System, actions: seq<Action>): System
    decreases |actions|
  {
    if actions == [] then s else Exec(Next(s, actions[0]), actions[1..])
  }

  const EMPTY := System(map[], 0, map[], None, map[], 0, map[])

  // ---------------------------------------------------------------- the invariant

  /** The API was last given the current value of the key. */
  ghost predicate Current(s: System, k: string) {
    k in s.status && k in s.handed && s.handed[k] == s.status[k]
  }

  /** What a task remembers is still true of every key that has not changed since. */
  ghost predicate SoundPhase(s: System, p: Phase) {
    match p
    case Snapshotted(sent, payload) =>
      && payload.Keys == sent.Keys
      && (forall k :: k in sent ==>
            && sent[k] <= s.generation && k in s.pending
            && (s.pending[k] == sent[k] ==> k in s.status && payload[k] == s.status[k]))
    case Handed(sent) =>
      forall k :: k in sent ==>
        && sent[k] <= s.generation
        && (k in s.pending && s.pending[k] == sent[k] ==> Current(s, k))
    case _ => true
  }

  ghost predicate Core(s: System) {
    && (forall k :: k in s.pending ==> k in s.status && s.pending[k] <= s.generation)
    && (forall k :: k in s.status && k !in s.pending ==> Current(s, k))
    && s.handed.Keys <= s.status.Keys
    && (s.handle.Some? ==> s.handle.value in s.tasks)
    && (forall t :: t in s.tasks ==> t < s.nextTask)
    && (forall t :: t in s.tasks && !s.tasks[t].Leaving? ==> s.handle == Some(t))
    && (forall t :: t in s.tasks ==> SoundPhase(s, s.tasks[t]))
  }

  /** A publisher will come round to the pending keys. */
  ghost predicate Live(s: System) {
    s.handle.Some? && s.handle.value in s.tasks && !s.tasks[s.handle.value].Leaving?
  }

  ghost predicate Inv(s: System) {
    Core(s) && (s.handle.Some? || s.pending != map[] ==> Live(s))
  }

  lemma UpdateKeepsCore(s: System, key: string, value: string)
    requires Core(s)
    ensures Core(AfterUpdate(s, key, value))
    ensures NoTask(s) || Live(s) ==> Live(AfterUpdate(s, key, value))
  {
    var t := AfterUpdate(s, key, value);
    PhasesOutliveUpdate(s, key, value);
    forall k | k in t.status && k !in t.pending ensures Current(t, k) {
      assert Current(s, k);
    }
  }

  lemma PhasesOutliveUpdate(s: System, key: string, value: string)
    requires Core(s)
    ensures var t := AfterUpdate(s, key, value); forall i :: i in t.tasks ==> SoundPhase(t, t.tasks[i])
  {
    var t := AfterUpdate(s, key, value);
    forall i | i in t.tasks ensures SoundPhase(t, t.tasks[i]) {
      if i in s.tasks {
        PhaseOutlivesUpdate(s, t, key, s.tasks[i]);
      }
    }
  }

  /** A change of one key under a new generation does not touch what a task knows of the others. */
  lemma PhaseOutlivesUpdate(s: System, t: System, key: string, p: Phase)
    requires SoundPhase(s, p) && t.generation == s.generation + 1 && t.handed == s.handed
    requires t.pending == s.pending[key := t.generation]
    requires key in t.status && t.status == s.status[key := t.status[key]]
    ensures SoundPhase(t, p)
  {
    if p.Handed? {
      forall k | k in p.pending && k in t.pending && t.pending[k] == p.pending[k] ensures Current(t, k) {
        assert k != key && Current(s, k);
      }
    }
  }

  lemma SnapshotKeepsCore(s: System, task: nat)
    requires Core(s)
    ensures Core(Next(s, Snapshot(task)))
  {
  }

  lemma HandKeepsCore(s: System, task: nat)
    requires Core(s)
    ensures Core(Next(s, Hand(task)))
  {
    var t := Next(s, Hand(task));
    if t != s {
      assert SoundPhase(s, s.tasks[task]);
      forall k | k in t.status && k !in t.pending ensures Current(t, k) {
        assert Current(s, k);
      }
      forall i | i in t.tasks ensures SoundPhase(t, t.tasks[i]) {
        if i != task {
          assert s.tasks[i].Leaving?;
        }
      }
    }
  }

  lemma AcknowledgeKeepsCore(s: System, task: nat)
    requires Core(s)
    ensures Core(Next(s, Acknowledge(task)))
    ensures Next(s, Acknowledge(task)).pending != map[] && Live(s) ==> Live(Next(s, Acknowledge(task)))
  {
    var t := Next(s, Acknowledge(task));
    if t != s {
      var sent := s.tasks[task].pending;
      assert SoundPhase(s, s.tasks[task]);
      forall k | k in t.status && k !in t.pending ensures Current(t, k) {
        if k in s.pending {
          assert k in sent && sent[k] == s.pending[k];
        }
        assert Current(s, k);
      }
      forall i | i in t.tasks ensures SoundPhase(t, t.tasks[i]) {
        if i != task {
          assert s.tasks[i].Leaving?;
        }
      }
    }
  }

  /** Exits and even cancellations keep what is known of the values. */
  lemma ExitKeepsCore(s: System, task: nat)
    requires Core(s)
    ensures Core(Next(s, Exit(task)))
  {
  }

  lemma CancelKeepsCore(s: System, task: nat)
    requires Core(s)
    ensures Core(Next(s, Cancel(task)))
  {
  }

  lemma StepKeepsCore(s: System, a: Action)
    requires Core(s)
    ensures Core(Next(s, a))
  {
    match a
    case Update(key, value) => UpdateKeepsCore(s, key, value);
    case Snapshot(t) => SnapshotKeepsCore(s, t);
    case Hand(t) => HandKeepsCore(s, t);
    case Acknowledge(t) => AcknowledgeKeepsCore(s, t);
    case Exit(t) => ExitKeepsCore(s, t);
    case Cancel(t) => CancelKeepsCore(s, t);
  }

  lemma StepKeepsInv(s: System, a: Action)
    requires Inv(s) && !a.Cancel?
    ensures Inv(Next(s, a))
  {
    StepKeepsCore(s, a);
    match a
    case Update(key, value) => UpdateKeepsCore(s, key, value);
    case Acknowledge(t) => AcknowledgeKeepsInv(s, t);
    case _ =>
  }

  lemma AcknowledgeKeepsInv(s: System, task: nat)
    requires Inv(s)
    ensures Inv(Next(s, Acknowledge(task)))
  {
    AcknowledgeKeepsCore(s, task);
    if task in s.tasks && s.tasks[task].Handed? {
      assert s.handle == Some(task);
    }
  }

  // ---------------------------------------------------------------- runs

  lemma {:induction false} RunKeepsInv(s: System, actions: seq<Action>)
    requires Inv(s) && forall i :: 0 <= i < |actions| ==> !actions[i].Cancel?
    ensures Inv(Exec(s, actions))
    decreases |actions|
  {
    if actions != [] {
      StepKeepsInv(s, actions[0]);
      RunKeepsInv(Next(s, actions[0]), actions[1..]);
    }
  }

  lemma {:induction false} RunKeepsCore(s: System, actions: seq<Action>)
    requires Core(s)
    ensures Core(Exec(s, actions))
    decreases |actions|
  {
    if actions != [] {
      StepKeepsCore(s, actions[0]);
      RunKeepsCore(Next(s, actions[0]), actions[1..]);
    }
  }

  /** The value a key was last updated with, told from the actions alone. */
  function LastValue(actions: seq<Action>, key: string): Option<string> {
    if actions == [] then None
    else
      var later, a := LastValue(actions[1..], key), actions[0];
      if later.Some? then later else if a.Update? && a.key == key then Some(a.value) else None
  }

  /** The status map holds the value of every key's last update, whatever the publishers do. */
  lemma {:induction false} StatusIsLastValue(s: System, actions: seq<Action>, key: string)
    ensures var after, last := Exec(s, actions).status, LastValue(actions, key);
            if last.Some? then key in after && after[key] == last.value
            else (key in after <==> key in s.status) && (key in after ==> after[key] == s.status[key])
    decreases |actions|
  {
    if actions != [] {
      StatusIsLastValue(Next(s, actions[0]), actions[1..], key);
    }
  }

  /** The API has every key that is not pending, with the value of its last update, and no key that was
      never updated. */
  ghost predicate HandedLast(s: System, actions: seq<Action>, k: string) {
    match LastValue(actions, k)
    case Some(value) => k in s.pending || (k in s.handed && s.handed[k] == value)
    case None => k !in s.pending && k !in s.handed
  }

  lemma CoreHandsLast(actions: seq<Action>)
    requires Core(Exec(EMPTY, actions))
    ensures forall k :: HandedLast(Exec(EMPTY, actions), actions, k)
  {
    var s := Exec(EMPTY, actions);
    forall k ensures HandedLast(s, actions, k) {
      StatusIsLastValue(EMPTY, actions, k);
      if k in s.status && k !in s.pending {
        assert Current(s, k);
      }
    }
  }

  /** In every interleaving of updates with the publisher's steps: at most one publisher is live, pending keys
      have one, and every other key was last handed over with the value of its last update. */
  lemma NothingIsLost(actions: seq<Action>)
    requires forall i :: 0 <= i < |actions| ==> !actions[i].Cancel?
    ensures var s := Exec(EMPTY, actions);
            && (forall t, u :: t in s.tasks && u in s.tasks && !s.tasks[t].Leaving? && !s.tasks[u].Leaving? ==> t == u)
            && (s.pending != map[] ==> Live(s))
            && forall k :: HandedLast(s, actions, k)
  {
    RunKeepsInv(EMPTY, actions);
    CoreHandsLast(actions);
  }

  /** After any run, cancellations included, one undisturbed round of a sleeping publisher leaves nothing
      pending and the API with the value of every key's last update. */
  lemma RoundSettlesAll(actions: seq<Action>, task: nat)
    requires var s := Exec(EMPTY, actions); task in s.tasks && s.tasks[task].Sleeping?
    ensures var t := Next(Next(Next(Exec(EMPTY, actions), Snapshot(task)), Hand(task)), Acknowledge(task));
            && t.pending == map[] && t.handle.None?
            && forall k :: LastValue(actions, k) == if k in t.handed then Some(t.handed[k]) else None
  {
    var s := Exec(EMPTY, actions);
    RunKeepsCore(EMPTY, actions);
    RoundSettles(s, task);
    var t := Next(Next(Next(s, Snapshot(task)), Hand(task)), Acknowledge(task));
    forall k ensures LastValue(actions, k) == if k in t.handed then Some(t.handed[k]) else None {
      StatusIsLastValue(EMPTY, actions, k);
      assert k in t.status ==> Current(t, k);
    }
  }

  lemma RoundSettles(s: System, task: nat)
    requires Core(s) && task in s.tasks && s.tasks[task].Sleeping?
    ensures var t := Next(Next(Next(s, Snapshot(task)), Hand(task)), Acknowledge(task));
            && Core(t) && t.pending == map[] && t.status == s.status && t.handle.None?
            && forall k :: k in t.status ==> Current(t, k)
  {
    var s1 := Next(s, Snapshot(task));
    var s2 := Next(s1, Hand(task));
    var s3 := Next(s2, Acknowledge(task));
    SnapshotKeepsCore(s, task);
    HandKeepsCore(s1, task);
    AcknowledgeKeepsCore(s2, task);
    assert s3.pending == Unsent(s.pending, s.pending) == map[];
  }

  // ---------------------------------------------------------------- cancellation

  /** Pending keys have a live publisher. */
  ghost predicate Served(s: System) {
    s.pending != map[] ==> Live(s)
  }

  /** The steps that leave keys pending without a publisher: cancelling the publisher while keys are
      pending, or updating while a cancelled publisher has not finished its cleanup. */
  ghost predicate Strands(s: System, a: Action) {
    match a
    case Cancel(t) => s.handle == Some(t) && s.pending != map[]
    case Update(_, _) => !NoTask(s) && !Live(s)
    case _ => false
  }

  /** Every step, cancellations included, keeps pending keys served unless it is one of those. */
  lemma StepServesIff(s: System, a: Action)
    requires Core(s) && Served(s)
    ensures Served(Next(s, a)) <==> !Strands(s, a)
  {
    match a
    case Update(key, value) =>
      UpdateKeepsCore(s, key, value);
      assert key in Next(s, a).pending;
    case Acknowledge(t) => AcknowledgeKeepsCore(s, t);
    case _ =>
  }

  ghost predicate ServedThroughout(s: System, actions: seq<Action>)
    decreases |actions|
  {
    Served(s) && (actions != [] ==> ServedThroughout(Next(s, actions[0]), actions[1..]))
  }

  ghost predicate NeverStrands(s: System, actions: seq<Action>)
    decreases |actions|
  {
    actions != [] ==> !Strands(s, actions[0]) && NeverStrands(Next(s, actions[0]), actions[1..])
  }

  lemma {:induction false} ServedIffNeverStrands(s: System, actions: seq<Action>)
    requires Core(s) && Served(s)
    ensures ServedThroughout(s, actions) <==> NeverStrands(s, actions)
    decreases |actions|
  {
    if actions != [] {
      StepServesIff(s, actions[0]);
      StepKeepsCore(s, actions[0]);
      if !Strands(s, actions[0]) {
        ServedIffNeverStrands(Next(s, actions[0]), actions[1..]);
      }
    }
  }

  /** Over every run, cancellations included: pending keys have a live publisher throughout if and only
      if no step strands them; and at most one publisher is live, and every key that is not pending was
      last handed over with the value of its last update, in any case. */
  lemma RunsWithCancellation(actions: seq<Action>)
    ensures ServedThroughout(EMPTY, actions) <==> NeverStrands(EMPTY, actions)
    ensures var s := Exec(EMPTY, actions);
            && (forall t, u :: t in s.tasks && u in s.tasks && !s.tasks[t].Leaving? && !s.tasks[u].Leaving? ==> t == u)
            && forall k :: HandedLast(s, actions, k)
  {
    ServedIffNeverStrands(EMPTY, actions);
    RunKeepsCore(EMPTY, actions);
    CoreHandsLast(actions);
  }

  /** A cancellation strands keys exactly when it hits the publisher while keys are pending. */
  lemma CancelStrandsIffPending(actions: seq<Action>, task: nat)
    requires Served(Exec(EMPTY, actions))
    ensures var s := Exec(EMPTY, actions);
            Served(Next(s, Cancel(task))) <==> s.pending == map[] || s.handle != Some(task)
  {
    RunKeepsCore(EMPTY, actions);
    StepServesIff(Exec(EMPTY, actions), Cancel(task));
  }

  ghost predicate Uncancelled(actions: seq<Action>) {
    forall i :: 0 <= i < |actions| ==> !actions[i].Cancel?
  }

  /** Pending keys stay served whatever happens next, short of another cancellation. */
  ghost predicate StaysServed(s: System) {
    forall more :: Uncancelled(more) ==> Served(Exec(s, more))
  }

  /** The exact reach, after any run: pending keys stay served from here on if and only if the publisher
      that holds the handle, and one there must be when keys are pending, is live. */
  lemma StaysServedIff(actions: seq<Action>)
    ensures var s := Exec(EMPTY, actions);
            StaysServed(s) <==> (s.handle.Some? || s.pending != map[] ==> Live(s))
  {
    var s := Exec(EMPTY, actions);
    RunKeepsCore(EMPTY, actions);
    if Inv(s) {
      forall more | Uncancelled(more) ensures Served(Exec(s, more)) {
        RunKeepsInv(s, more);
      }
    } else if s.pending != map[] {
      assert Uncancelled([]) && Exec(s, []) == s;
    } else {
      var late := [Update("", "")];
      assert Exec(s, late) == Exec(Next(s, late[0]), []);
      assert "" in Exec(s, late).pending;
      assert Uncancelled(late) && !Served(Exec(s, late));
    }
  }

  /** An update after cancellations restores the full invariant, until the next cancellation, if and only
      if the cancelled task has finished its cleanup or a publisher is live. */
  lemma UpdateRevivesIffTaskGone(actions: seq<Action>, key: string, value: string)
    ensures var s := Exec(EMPTY, actions);
            Inv(Next(s, Update(key, value))) <==> (NoTask(s) || Live(s))
  {
    RunKeepsCore(EMPTY, actions);
    var s := Exec(EMPTY, actions);
    UpdateKeepsCore(s, key, value);
  }

  lemma ExecFour(s: System, a: Action, b: Action, c: Action, d: Action)
    ensures Exec(s, [a, b, c, d]) == Next(Next(Next(Next(s, a), b), c), d)
  {
    var acts := [a, b, c, d];
    assert acts[1..] == [b, c, d] && [b, c, d][1..] == [c, d] && [c, d][1..] == [d] && [d][1..] == [];
    var s1, s2, s3 := Next(s, a), Next(Next(s, a), b), Next(Next(Next(s, a), b), c);
    calc {
      Exec(s, acts);
      Exec(s1, [b, c, d]);
      Exec(s2, [c, d]);
      Exec(s3, [d]);
      Exec(Next(s3, d), []);
    }
  }

  /** A run that strands a key: cancelled, updated during the cleanup, exited. */
  lemma CancelledPublisherStrandsKeys(key: string, v1: string, v2: string)
    ensures var s := Exec(EMPTY, [Update(key, v1), Cancel(0), Update(key, v2), Exit(0)]);
            key in s.pending && !Live(s)
  {
    ExecFour(EMPTY, Update(key, v1), Cancel(0), Update(key, v2), Exit(0));
  }

  // ---------------------------------------------------------------- the publisher object

  lemma StepKeeps(y: System, a: Action)
    requires Core(y) && !a.Cancel?
    ensures Core(Next(y, a)) && (Inv(y) ==> Inv(Next(y, a)))
  {
    StepKeepsCore(y, a);
    if Inv(y) {
      StepKeepsInv(y, a);
    }
  }

  class Publisher {
    var status: Values
    var generation: nat
    var pending: Pending
    var handle: Option<nat>
    var tasks: map<nat, Phase>
    var nextTask: nat
    ghost var handed: Values

    constructor ()
      ensures View() == EMPTY
    {
      status, generation, pending, handle, tasks, nextTask, handed := map[], 0, map[], None, map[], 0, map[];
    }

    ghost function View(): System
      reads this
    {
      System(status, generation, pending, handle, tasks, nextTask, handed)
    }

    /** The whole update under the status lock. */
    method UpdateStatus(key: string, value: string)
      requires Core(View())
      modifies this
      ensures View() == Next(old(View()), Update(key, value)) && Core(View()) && (old(Inv(View())) ==> Inv(View()))
      ensures status == old(status)[key := value]
      ensures generation == old(generation) + 1 && pending == old(pending)[key := generation]
      ensures handed == old(handed) && nextTask >= old(nextTask)
      ensures if old(handle.Some? && handle.value in tasks) then handle == old(handle) && tasks == old(tasks)
              else handle == Some(old(nextTask)) && tasks == old(tasks)[old(nextTask) := Sleeping]
    {
      StepKeeps(View(), Update(key, value));
      PutStatus(key, value);
    }

    method PutStatus(key: string, value: string)
      modifies this
      ensures View() == AfterUpdate(old(View()), key, value)
    {
      status := status[key := value];
      generation := generation + 1;
      pending := pending[key := generation];
      if handle.None? || handle.value !in tasks {
        handle, tasks, nextTask := Some(nextTask), tasks[nextTask := Sleeping], nextTask + 1;
      }
    }

    /** After the sleep: the pending generations and their values, under the lock. */
    method TakeSnapshot(task: nat)
      requires Core(View()) && task in tasks && tasks[task].Sleeping?
      modifies this
      ensures View() == Next(old(View()), Snapshot(task)) && Core(View()) && (old(Inv(View())) ==> Inv(View()))
      ensures status == old(status) && pending == old(pending) && handle == old(handle) && handed == old(handed)
      ensures tasks.Keys == old(tasks.Keys) && forall t :: t in tasks && t != task ==> tasks[t] == old(tasks)[t]
      ensures tasks[task].Snapshotted? && tasks[task].pending == pending && tasks[task].payload.Keys == pending.Keys
      ensures forall k :: k in pending ==> tasks[task].payload[k] == status[k]
    {
      StepKeeps(View(), Snapshot(task));
      var payload := map k | k in pending && k in status :: status[k];
      tasks := tasks[task := Snapshotted(pending, payload)];
    }

    /** The request to the API; its failure is swallowed. */
    method HandOver(task: nat) returns (payload: Values)
      requires Core(View()) && task in tasks && tasks[task].Snapshotted?
      modifies this
      ensures View() == Next(old(View()), Hand(task)) && payload == old(tasks[task].payload)
      ensures forall k :: (k in handed <==> k in old(handed) || k in payload)
                && (k in handed ==> handed[k] == if k in payload then payload[k] else old(handed)[k])
      ensures tasks == old(tasks)[task := Handed(old(tasks[task].pending))]
      ensures status == old(status) && pending == old(pending) && handle == old(handle)
      ensures Core(View()) && (old(Inv(View())) ==> Inv(View()))
    {
      StepKeeps(View(), Hand(task));
      payload := tasks[task].payload;
      handed := handed + payload;
      tasks := tasks[task := Handed(tasks[task].pending)];
    }

    /** Pops every key whose pending generation is the one that was sent. */
    method DropSent(sent: Pending)
      modifies this`pending
      ensures pending == Unsent(old(pending), sent)
    {
      var todo := sent.Keys;
      while todo != {}
        invariant todo <= sent.Keys
        invariant pending == map k | k in old(pending) && !(k in sent && k !in todo && sent[k] == old(pending)[k])
                             :: old(pending)[k]
        decreases |todo|
      {
        var key :| key in todo;
        if key in pending && pending[key] == sent[key] {
          pending := pending - {key};
        }
        todo := todo - {key};
      }
    }

    /** Drops the generations that were sent and not overtaken; leaves when none is left. */
    method AcknowledgeSent(task: nat)
      requires Core(View()) && task in tasks && tasks[task].Handed?
      modifies this
      ensures View() == Next(old(View()), Acknowledge(task)) && Core(View()) && (old(Inv(View())) ==> Inv(View()))
      ensures var sent := old(tasks[task].pending);
              forall k :: (k in pending <==> k in old(pending) && (k !in sent || sent[k] != old(pending)[k]))
                && (k in pending ==> pending[k] == old(pending)[k])
      ensures status == old(status) && handed == old(handed)
      ensures if pending == map[] then handle.None? && tasks == old(tasks)[task := Leaving]
              else handle == old(handle) && tasks == old(tasks)[task := Sleeping]
    {
      StepKeeps(View(), Acknowledge(task));
      DropSent(tasks[task].pending);
      if pending == map[] {
        if handle == Some(task) {
          handle := None;
        }
        tasks := tasks[task := Leaving];
      } else {
        tasks := tasks[task := Sleeping];
      }
    }

    /** The final cleanup of a task, which must not disturb a successor's handle. */
    method Finish(task: nat)
      requires Core(View()) && task in tasks && tasks[task].Leaving?
      modifies this
      ensures View() == Next(old(View()), Exit(task)) && Core(View()) && (old(Inv(View())) ==> Inv(View()))
      ensures tasks == old(tasks) - {task} && handle == if old(handle) == Some(task) then None else old(handle)
      ensures status == old(status) && pending == old(pending) && handed == old(handed)
    {
      StepKeeps(View(), Exit(task));
      if handle == Some(task) {
        handle := None;
      }
      tasks := tasks - {task};
    }
  }
}
