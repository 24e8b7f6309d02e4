/** Crash-safe publication of exchange credentials. A marker file holding an intent guards the
    write of the credential store and its publication to the cluster. One file lock serializes
    saves and retries, so at most one of them is between two disk effects; a crash can strike
    between any two, and remote nodes publish at any time. */
module Publication {
  import opened Common

  /** The exchange part of api-keys.json: its generation and the rest of its content. */
  datatype Snapshot = Snapshot(serial: int, content: string)

  /** The digest of a snapshot, taken to be injective. */
  datatype Hash = HashOf(of: Snapshot)

  datatype Intent = Intent(beforeHash: Hash, afterHash: Hash, beforePending: bool)

  datatype Verdict = Committed | NotCommitted | Conflict | Invalid

  /** What a marker proves about the credential store. */
  function Judge(intent: Intent, payload: Snapshot): Verdict {
    if intent.beforeHash == intent.afterHash then Invalid
    else if HashOf(payload) == intent.afterHash then Committed
    else if HashOf(payload) == intent.beforeHash then
      if intent.beforePending then Committed else NotCommitted
    else Conflict
  }

  /** Whether the state before a save was itself a committed, unpublished save. */
  function StillPending(previous: Option<Intent>, before: Snapshot): bool {
    previous.Some? && Judge(previous.value, before) == Committed
  }

  /** A save in progress: what it read, what it writes, and the marker it found. */
  datatype Job = Job(editor: nat, before: Snapshot, after: Snapshot, previous: Option<Intent>)
  {
    /** The marker the save writes before it touches the store. */
    function Announcement(): Intent {
      Intent(HashOf(before), HashOf(after), StillPending(previous, before))
    }
  }

  /** Where the holder of the lock is, named after the last effect that took place. */
  datatype Pc =
    | Idle
    | Prepared(job: Job)
    | Announced(job: Job)
    | Stored(job: Job)
    | Undoing(job: Job)
    | Published(job: Job)
    | Retrying(payload: Snapshot)
    | Clearing
    | Projecting

  datatype Commit = Commit(editor: nat, loaded: int, before: Snapshot, after: Snapshot)

  /** A commit, with the generation its editor has loaded. */
  function CommitOf(loaded: map<nat, int>, j: Job): Commit {
    Commit(j.editor, if j.editor in loaded then loaded[j.editor] else 0, j.before, j.after)
  }

  /** The disk (`store`, `marker`), the cluster (`published`), the editors' loaded generations,
      and the history: the first snapshot and every local commit. */
  datatype System = System(
    store: Snapshot,
    marker: Option<Intent>,
    published: set<Snapshot>,
    loaded: map<nat, int>,
    pc: Pc,
    base: Snapshot,
    commits: seq<Commit>)

  datatype Action =
    | Load(editor: nat)
    | Begin(editor: nat, content: string)
    | WriteMarker
    | WriteStore
    | Raise
    | Undo
    | UndoFails
    | Publish
    | PublishFails
    | ConfirmFails
    | ClearMarker
    | Retry
    | Republish
    | RepublishFails
    | Project(desired: Snapshot)
    | Finish
    | RemotePublish(remote: Snapshot)
    | Crash

  predicate Busy(pc: Pc, editor: nat) {
    match pc
    case Prepared(j) => j.editor == editor
    case Announced(j) => j.editor == editor
    case Stored(j) => j.editor == editor
    case Undoing(j) => j.editor == editor
    case Published(j) => j.editor == editor
    case _ => false
  }

  /** One step of the system; an action that does not apply changes nothing. */
  function Next(s: System, a: Action): System {
    match (a, s.pc)
    case (Load(e), _) => if Busy(s.pc, e) then s else s.(loaded := s.loaded[e := s.store.serial])
    case (Begin(e, content), Idle) => BeginSave(s, e, content)
    case (WriteMarker, Prepared(j)) => s.(marker := Some(j.Announcement()), pc := Announced(j))
    case (WriteStore, Announced(j)) =>
      s.(store := j.after, pc := Stored(j),
         commits := s.commits + [CommitOf(s.loaded, j)])
    case (Raise, Prepared(j)) => s.(pc := Undoing(j))
    case (Raise, Announced(j)) => s.(pc := Undoing(j))
    case (Raise, Stored(j)) => s.(pc := Undoing(j))
    case (Undo, Undoing(j)) =>
      s.(marker := if HashOf(s.store) == j.Announcement().beforeHash then j.previous else s.marker, pc := Idle)
    case (UndoFails, Undoing(j)) => s.(pc := Idle)
    case (Publish, Stored(j)) =>
      s.(published := s.published + {j.after}, loaded := s.loaded[j.editor := j.after.serial], pc := Published(j))
    case (PublishFails, Stored(j)) => s.(loaded := s.loaded[j.editor := j.after.serial], pc := Idle)
    case (ConfirmFails, Published(j)) => s.(pc := Idle)
    case (ClearMarker, Published(j)) => s.(marker := None, pc := Projecting)
    case (ClearMarker, Clearing) => s.(marker := None, pc := Projecting)
    case (Retry, Idle) =>
      if s.marker.None? then s.(pc := Projecting)
      else
        var verdict := Judge(s.marker.value, s.store);
        if verdict == Committed then s.(pc := Retrying(s.store))
        else if verdict == NotCommitted then s.(pc := Clearing)
        else s
    case (Republish, Retrying(p)) => s.(published := s.published + {p}, pc := Clearing)
    case (RepublishFails, Retrying(_)) => s.(pc := Idle)
    case (Project(d), Projecting) => if d in s.published then s.(store := d, pc := Idle) else s
    case (Finish, Projecting) => s.(pc := Idle)
    case (RemotePublish(d), _) => s.(published := s.published + {d})
    case (Crash, _) => s.(pc := Idle)
    case _ => s
  }

  /** The checks of a save before its first write: the generation must be the one the editor
      loaded, and a marker in place must not conflict. */
  function BeginSave(s: System, editor: nat, content: string): System {
    if editor !in s.loaded || s.store.serial != s.loaded[editor] then s
    else if s.marker.Some? && Judge(s.marker.value, s.store) in {Conflict, Invalid} then s
    else s.(pc := Prepared(Job(editor, s.store, Snapshot(s.loaded[editor] + 1, content), s.marker)))
  }

  function Exec(s: System, actions: seq<Action>): System
    decreases |actions|
  {
    if actions == [] then s else Exec(Next(s, actions[0]), actions[1..])
  }

  predicate Initial(s: System) {
    s.marker.None? && s.pc.Idle? && s.store == s.base && s.commits == []
  }

  // ---------------------------------------------------------------- the invariant

  /** The cluster knows the snapshot, or it was there first. */
  predicate Settled(s: System, x: Snapshot) {
    x == s.base || x in s.published
  }

  /** A local save wrote the snapshot. */
  ghost predicate SavedHere(s: System, x: Snapshot) {
    exists i :: 0 <= i < |s.commits| && s.commits[i].after == x
  }

  /** What a marker (or its absence) says about the stored snapshot `x` is true. */
  ghost predicate Evidence(s: System, marker: Option<Intent>, x: Snapshot) {
    match marker
    case None => Settled(s, x)
    case Some(i) =>
      && i.beforeHash != i.afterHash
      && (HashOf(x) == i.beforeHash || HashOf(x) == i.afterHash)
      && (HashOf(x) == i.afterHash ==> SavedHere(s, x))
      && (HashOf(x) == i.beforeHash ==> if i.beforePending then SavedHere(s, x) else Settled(s, x))
  }

  ghost predicate SoundJob(s: System, j: Job) {
    && j.after.serial == j.before.serial + 1
    && Evidence(s, j.previous, j.before)
  }

  ghost predicate PcInv(s: System) {
    match s.pc
    case Idle => true
    case Prepared(j) =>
      SoundJob(s, j) && s.store == j.before && s.marker == j.previous && j.editor in s.loaded
          && s.loaded[j.editor] == j.before.serial
    case Announced(j) =>
      SoundJob(s, j) && s.store == j.before && s.marker == Some(j.Announcement()) && j.editor in s.loaded
          && s.loaded[j.editor] == j.before.serial
    case Stored(j) => SoundJob(s, j) && s.store == j.after && s.marker == Some(j.Announcement())
    case Undoing(j) =>
      SoundJob(s, j) && (s.store == j.before || (s.store == j.after && s.marker == Some(j.Announcement())))
    case Published(j) => s.store == j.after && s.marker == Some(j.Announcement()) && j.after in s.published
    case Retrying(p) => s.store == p && s.marker.Some?
    case Clearing => s.marker.Some? && Settled(s, s.store)
    case Projecting => s.marker.None?
  }

  /** Every commit continued the generation its editor had loaded, by exactly one. */
  ghost predicate SoundCommits(s: System) {
    forall i :: 0 <= i < |s.commits| ==>
      s.commits[i].loaded == s.commits[i].before.serial && s.commits[i].after.serial == s.commits[i].loaded + 1
  }

  ghost predicate Inv(s: System) {
    Evidence(s, s.marker, s.store) && PcInv(s) && SoundCommits(s)
  }

  /** A larger history keeps all evidence. */
  lemma EvidenceGrows(s: System, t: System, marker: Option<Intent>, x: Snapshot)
    requires Evidence(s, marker, x) && s.base == t.base && s.published <= t.published && s.commits <= t.commits
    ensures Evidence(t, marker, x)
  {
    if SavedHere(s, x) {
      var i :| 0 <= i < |s.commits| && s.commits[i].after == x;
      assert t.commits[i].after == x;
    }
  }

  lemma StoreStep(s: System)
    requires Inv(s) && s.pc.Announced?
    ensures Inv(Next(s, WriteStore))
  {
    var t := Next(s, WriteStore);
    var j := s.pc.job;
    assert t.commits[|s.commits|].after == j.after;
    EvidenceGrows(s, t, j.previous, j.before);
  }

  lemma StepKeepsInv(s: System, a: Action)
    requires Inv(s)
    ensures Inv(Next(s, a))
  {
    if a.WriteStore? && s.pc.Announced? {
      StoreStep(s);
    } else if a.Retry? || a.Republish? || a.RepublishFails? || a.Project? || a.Finish? {
      RetryStepKeepsInv(s, a);
    } else if a.Load? || a.RemotePublish? || a.Crash? {
      OutsideStepKeepsInv(s, a);
    } else if a.Begin? || a.WriteMarker? || a.WriteStore? || a.Raise? || a.Undo? || a.UndoFails? {
      WriteStepKeepsInv(s, a);
    } else {
      PublishStepKeepsInv(s, a);
    }
  }

  /** What every step but the store write leaves true of the old marker and the job. */
  lemma StepKeepsEvidence(s: System, a: Action)
    requires Inv(s)
    ensures var t := Next(s, a);
            && Evidence(t, s.marker, s.store)
            && (s.pc.Prepared? || s.pc.Announced? || s.pc.Stored? || s.pc.Undoing? ==>
                  SoundJob(t, s.pc.job) && Evidence(t, Some(s.pc.job.Announcement()), s.pc.job.before))
  {
    var t := Next(s, a);
    EvidenceGrows(s, t, s.marker, s.store);
    if s.pc.Prepared? || s.pc.Announced? || s.pc.Stored? || s.pc.Undoing? {
      EvidenceGrows(s, t, s.pc.job.previous, s.pc.job.before);
    }
  }

  lemma WriteStepKeepsInv(s: System, a: Action)
    requires Inv(s) && !(a.WriteStore? && s.pc.Announced?)
    requires a.Begin? || a.WriteMarker? || a.WriteStore? || a.Raise? || a.Undo? || a.UndoFails?
    ensures Inv(Next(s, a))
  {
    StepKeepsEvidence(s, a);
  }

  lemma PublishStepKeepsInv(s: System, a: Action)
    requires Inv(s) && (a.Publish? || a.PublishFails? || a.ConfirmFails? || a.ClearMarker?)
    ensures Inv(Next(s, a))
  {
    StepKeepsEvidence(s, a);
  }

  lemma RetryStepKeepsInv(s: System, a: Action)
    requires Inv(s) && (a.Retry? || a.Republish? || a.RepublishFails? || a.Project? || a.Finish?)
    ensures Inv(Next(s, a))
  {
    StepKeepsEvidence(s, a);
  }

  lemma OutsideStepKeepsInv(s: System, a: Action)
    requires Inv(s) && (a.Load? || a.RemotePublish? || a.Crash?)
    ensures Inv(Next(s, a))
  {
    StepKeepsEvidence(s, a);
  }

  lemma {:induction false} RunKeepsInv(s: System, actions: seq<Action>)
    requires Inv(s)
    ensures Inv(Exec(s, actions))
    decreases |actions|
  {
    if actions != [] {
      StepKeepsInv(s, actions[0]);
      RunKeepsInv(Next(s, actions[0]), actions[1..]);
    }
  }

  /** In every run of saves, failures, crashes and retries: credentials the cluster does not know
      are guarded by a marker that proves them committed; a marker never conflicts with the
      store; and what a marker proves committed was written by a local save. */
  lemma PublicationIsCrashSafe(s: System, actions: seq<Action>)
    requires Initial(s)
    ensures var t := Exec(s, actions);
            && (!Settled(t, t.store) ==> t.marker.Some? && Judge(t.marker.value, t.store) == Committed)
            && (t.marker.Some? ==> Judge(t.marker.value, t.store) in {Committed, NotCommitted})
            && (t.marker.Some? && Judge(t.marker.value, t.store) == Committed ==> SavedHere(t, t.store))
  {
    RunKeepsInv(s, actions);
  }

  /** From any reachable moment without a lock holder, an undisturbed retry publishes what is
      unpublished, removes the marker, and leaves the credentials as they are. */
  lemma RetryConverges(s: System, actions: seq<Action>)
    requires Initial(s) && Exec(s, actions).pc.Idle?
    ensures var t := Exec(s, actions);
            var u := Next(Next(Next(t, Retry), Republish), ClearMarker);
            u.store == t.store && u.marker.None? && Settled(u, u.store)
  {
    RunKeepsInv(s, actions);
  }

  /** A save whose store write fails before taking effect puts the earlier marker back. */
  lemma FailedWriteRestoresMarker(s: System, editor: nat, content: string)
    requires Inv(s) && s.pc.Idle?
    ensures var p := Next(s, Begin(editor, content));
            var u := Next(Next(Next(p, WriteMarker), Raise), Undo);
            u == s
  {
  }

  /** From every reachable moment without a lock holder, an editor that loads and then saves undisturbed has
      its content stored under the next serial, published and unmarked. */
  lemma UndisturbedSaveLands(s: System, actions: seq<Action>, editor: nat, content: string)
    requires Initial(s) && Exec(s, actions).pc.Idle?
    ensures var t := Exec(s, actions);
            var announced := Next(Next(Next(t, Load(editor)), Begin(editor, content)), WriteMarker);
            var u := Next(Next(Next(Next(announced, WriteStore), Publish), ClearMarker), Finish);
            var saved := Snapshot(t.store.serial + 1, content);
            && u.store == saved && u.published == t.published + {saved} && u.marker.None? && u.pc.Idle?
            && u.loaded == t.loaded[editor := saved.serial]
  {
    RunKeepsInv(s, actions);
    LoadedIsAccepted(Exec(s, actions), editor, content);
    var t := Next(Next(Exec(s, actions), Load(editor)), Begin(editor, content));
    PreparedLands(t);
  }

  lemma LoadedIsAccepted(t: System, editor: nat, content: string)
    requires Inv(t) && t.pc.Idle?
    ensures var job := Job(editor, t.store, Snapshot(t.store.serial + 1, content), t.marker);
            Next(Next(t, Load(editor)), Begin(editor, content))
            == t.(loaded := t.loaded[editor := t.store.serial], pc := Prepared(job))
  {
  }

  lemma PreparedLands(t: System)
    requires t.pc.Prepared?
    ensures var j := t.pc.job;
            var u := Next(Next(Next(Next(Next(t, WriteMarker), WriteStore), Publish), ClearMarker), Finish);
            && u.store == j.after && u.published == t.published + {j.after} && u.marker.None? && u.pc.Idle?
            && u.loaded == t.loaded[j.editor := j.after.serial]
  {
  }

  // ---------------------------------------------------------------- no lost update

  /** The commits form one chain from the first snapshot to the stored one. */
  ghost predicate Chained(s: System) {
    && (forall i :: 0 <= i < |s.commits| ==> s.commits[i].before == PreviousAfter(s, i))
    && s.store == PreviousAfter(s, |s.commits|)
    && s.store.serial == s.base.serial + |s.commits|
  }

  ghost function PreviousAfter(s: System, i: nat): Snapshot
    requires i <= |s.commits|
  {
    if i == 0 then s.base else s.commits[i - 1].after
  }

  lemma ChainStaysEqual(s: System, t: System)
    requires Chained(s) && s.store == t.store && s.commits == t.commits && s.base == t.base
    ensures Chained(t)
  {
    forall i | 0 <= i < |t.commits| ensures t.commits[i].before == PreviousAfter(t, i) {
      assert s.commits[i].before == PreviousAfter(s, i);
    }
  }

  lemma ChainGrows(s: System)
    requires Inv(s) && Chained(s) && s.pc.Announced?
    ensures Chained(Next(s, WriteStore))
  {
    var t := Next(s, WriteStore);
    forall i | 0 <= i < |t.commits| ensures t.commits[i].before == PreviousAfter(t, i) {
      if i < |s.commits| {
        assert s.commits[i].before == PreviousAfter(s, i);
      }
    }
  }

  lemma StepKeepsChain(s: System, a: Action)
    requires Inv(s) && Chained(s) && !a.Project?
    ensures Chained(Next(s, a))
  {
    if a.WriteStore? && s.pc.Announced? {
      ChainGrows(s);
    } else {
      ChainStaysEqual(s, Next(s, a));
    }
  }

  /** Over any interleaving of editors without a projection from the cluster, each commit starts
      from the snapshot the previous one wrote and raises its generation by one; an editor with
      a stale generation is in no commit. */
  lemma {:induction false} NoLostUpdate(s: System, actions: seq<Action>)
    requires Inv(s) && Chained(s) && forall i :: 0 <= i < |actions| ==> !actions[i].Project?
    ensures Chained(Exec(s, actions)) && SoundCommits(Exec(s, actions))
    decreases |actions|
  {
    if actions != [] {
      StepKeepsInv(s, actions[0]);
      StepKeepsChain(s, actions[0]);
      NoLostUpdate(Next(s, actions[0]), actions[1..]);
    }
  }

  // ---------------------------------------------------------------- updates and projections

  /** What changed the store: a save, or a projection of what the cluster knows. */
  datatype Write = BySave(before: Snapshot, after: Snapshot) | ByProjection(after: Snapshot)

  function WritesOf(s: System, a: Action): seq<Write> {
    match (a, s.pc)
    case (WriteStore, Announced(j)) => [BySave(j.before, j.after)]
    case (Project(d), Projecting) => if d in s.published then [ByProjection(d)] else []
    case _ => []
  }

  function Writes(s: System, actions: seq<Action>): seq<Write>
    decreases |actions|
  {
    if actions == [] then [] else WritesOf(s, actions[0]) + Writes(Next(s, actions[0]), actions[1..])
  }

  /** Each save starts from what the write before it left, and raises its serial by one. */
  ghost predicate Linked(x: Snapshot, writes: seq<Write>)
    decreases |writes|
  {
    writes != [] ==>
      && (writes[0].BySave? ==> writes[0].before == x && writes[0].after.serial == x.serial + 1)
      && Linked(writes[0].after, writes[1..])
  }

  function LastOf(x: Snapshot, writes: seq<Write>): Snapshot
    decreases |writes|
  {
    if writes == [] then x else LastOf(writes[0].after, writes[1..])
  }

  lemma StepIsLinked(s: System, a: Action, rest: seq<Write>)
    requires Inv(s) && Linked(Next(s, a).store, rest)
    ensures Linked(s.store, WritesOf(s, a) + rest)
    ensures LastOf(s.store, WritesOf(s, a) + rest) == LastOf(Next(s, a).store, rest)
  {
    var w := WritesOf(s, a);
    if w == [] {
      assert w + rest == rest && Next(s, a).store == s.store;
    } else {
      assert (w + rest)[1..] == rest && Next(s, a).store == w[0].after;
    }
  }

  /** Over every run, projections included: no save overwrites anything but the snapshot it read, and the
      store holds the last write. */
  lemma {:induction false} WritesAreLinked(s: System, actions: seq<Action>)
    requires Inv(s)
    ensures Linked(s.store, Writes(s, actions)) && Exec(s, actions).store == LastOf(s.store, Writes(s, actions))
    decreases |actions|
  {
    if actions != [] {
      StepKeepsInv(s, actions[0]);
      WritesAreLinked(Next(s, actions[0]), actions[1..]);
      StepIsLinked(s, actions[0], Writes(Next(s, actions[0]), actions[1..]));
    }
  }

  /** Whenever a save of an editor that loaded `x` is accepted, it starts from `x`. */
  ghost predicate AcceptsOnly(s: System, actions: seq<Action>, x: Snapshot)
    decreases |actions|
  {
    && (s.store.serial == x.serial ==> s.store == x)
    && (actions != [] ==> AcceptsOnly(Next(s, actions[0]), actions[1..], x))
  }

  ghost predicate NoneHides(writes: seq<Write>, x: Snapshot) {
    forall i :: 0 <= i < |writes| && writes[i].after.serial == x.serial ==> writes[i].after == x
  }

  /** The generation check protects what an editor loaded if and only if no write since puts another snapshot
      under the loaded serial. */
  lemma {:induction false} AcceptsOnlyIff(s: System, actions: seq<Action>, x: Snapshot)
    requires Inv(s) && (s.store.serial == x.serial ==> s.store == x)
    ensures AcceptsOnly(s, actions, x) <==> NoneHides(Writes(s, actions), x)
    decreases |actions|
  {
    if actions != [] {
      var t, w, rest := Next(s, actions[0]), WritesOf(s, actions[0]), Writes(Next(s, actions[0]), actions[1..]);
      StepKeepsInv(s, actions[0]);
      StoreAfterStep(s, actions[0]);
      NoneHidesConcat(w, rest, x);
      if t.store.serial == x.serial ==> t.store == x {
        AcceptsOnlyIff(t, actions[1..], x);
      }
    }
  }

  /** At any moment of such a run, a save by an editor holding the serial of `x`, if it is accepted, replaces `x`
      itself. */
  lemma {:induction false} AcceptedReplacesLoaded(s: System, actions: seq<Action>, k: nat, x: Snapshot, editor: nat,
                                                  content: string)
    requires k <= |actions| && AcceptsOnly(s, actions, x)
    ensures var t := Exec(s, actions[..k]);
            var u := Next(t, Begin(editor, content));
            t.pc.Idle? && editor in t.loaded && t.loaded[editor] == x.serial && u.pc.Prepared? ==> u.pc.job.before == x
    decreases k
  {
    if k > 0 {
      assert actions[..k][0] == actions[0] && actions[..k][1..] == actions[1..][..k - 1];
      AcceptedReplacesLoaded(Next(s, actions[0]), actions[1..], k - 1, x, editor, content);
    }
  }

  lemma StoreAfterStep(s: System, a: Action)
    ensures var w := WritesOf(s, a);
            |w| <= 1 && Next(s, a).store == if w == [] then s.store else w[0].after
  {
  }

  lemma NoneHidesConcat(w: seq<Write>, rest: seq<Write>, x: Snapshot)
    ensures NoneHides(w + rest, x) <==> NoneHides(w, x) && NoneHides(rest, x)
  {
    forall i | 0 <= i < |rest| ensures (w + rest)[|w| + i] == rest[i] {
    }
    forall i | 0 <= i < |w| ensures (w + rest)[i] == w[i] {
    }
  }

  /** Saves alone never do: each raises the serial. */
  lemma {:induction false} SavesHideNothing(x: Snapshot, writes: seq<Write>, loaded: Snapshot)
    requires Linked(x, writes) && loaded.serial <= x.serial && forall i :: 0 <= i < |writes| ==> writes[i].BySave?
    ensures NoneHides(writes, loaded)
    decreases |writes|
  {
    if writes != [] {
      SavesHideNothing(writes[0].after, writes[1..], loaded);
      forall i | 0 < i < |writes| && writes[i].after.serial == loaded.serial ensures writes[i].after == loaded {
        assert writes[1..][i - 1] == writes[i];
      }
    }
  }

  /** From a load on, without a projection in between, an editor's accepted saves start from what it loaded. */
  lemma WithoutProjectionLoadsHold(s: System, actions: seq<Action>)
    requires Inv(s) && forall i :: 0 <= i < |Writes(s, actions)| ==> Writes(s, actions)[i].BySave?
    ensures AcceptsOnly(s, actions, s.store)
  {
    WritesAreLinked(s, actions);
    SavesHideNothing(s.store, Writes(s, actions), s.store);
    AcceptsOnlyIff(s, actions, s.store);
  }

  /** A projection of other content under the same serial goes unnoticed: the save of an editor that loaded
      before it is accepted and overwrites it. */
  lemma ProjectionGoesUnnoticed(x: Snapshot, other: string, content: string)
    requires other != x.content
    ensures var s := System(x, None, {}, map[0 := x.serial], Idle, x, []);
            var d := Snapshot(x.serial, other);
            var t := Next(Next(Next(s, RemotePublish(d)), Retry), Project(d));
            Initial(s) && t.store == d && Next(t, Begin(0, content)).pc.Prepared?
  {
  }

  // ---------------------------------------------------------------- the save, effect by effect

  lemma {:induction false} ExecSnoc(s: System, actions: seq<Action>, a: Action)
    ensures Exec(s, actions + [a]) == Next(Exec(s, actions), a)
    decreases |actions|
  {
    if actions == [] {
      assert [a][1..] == [];
    } else {
      assert (actions + [a])[1..] == actions[1..] + [a];
      ExecSnoc(Next(s, actions[0]), actions[1..], a);
    }
  }

  /** What befalls one disk effect: it works, raises before or after taking place, or the process dies there. */
  datatype Luck = Works | RaisesBefore | RaisesAfter | DiesBefore | DiesAfter

  predicate Raises(luck: Luck) {
    luck == RaisesBefore || luck == RaisesAfter
  }

  /** The effect is there afterwards. */
  predicate TakesPlace(luck: Luck) {
    luck == Works || luck == RaisesAfter || luck == DiesAfter
  }

  datatype Progress = Went | Raised | Died

  datatype Outcome = Saved | Rejected | Failed | PublicationPending | ProjectionPending | Dead

  /** What an accepted save comes to, for every combination of what befalls its four effects: it is saved exactly
      if all of them work, fails exactly if the marker or the store write raises, and is pending exactly if
      publishing or clearing does. */
  ghost predicate SavedAs(s: System, job: Job, onMarker: Luck, onStore: Luck, undoWorks: bool, onPublish: Luck,
                          onClear: Luck, outcome: Outcome, t: System) {
    && outcome != Rejected
    && (outcome == Saved <==> onMarker == onStore == onPublish == onClear == Works)
    && (outcome == Failed <==> Raises(onMarker) || (onMarker == Works && Raises(onStore)))
    && (outcome == PublicationPending <==>
          onMarker == onStore == Works && (Raises(onPublish) || (onPublish == Works && onClear == RaisesBefore)))
    && (outcome == ProjectionPending <==> onMarker == onStore == onPublish == Works && onClear == RaisesAfter)
    && t.store == (if onMarker == Works && TakesPlace(onStore) then job.after else s.store)
    && t.published == s.published + (if onMarker == onStore == Works && TakesPlace(onPublish) then {job.after} else {})
    && t.loaded == (if onMarker == onStore == Works && onPublish != DiesBefore
                    then s.loaded[job.editor := job.after.serial] else s.loaded)
    && t.marker == (if !TakesPlace(onMarker) || (outcome == Failed && undoWorks && t.store == s.store) then s.marker
                    else if onMarker == onStore == onPublish == Works && TakesPlace(onClear) then None
                    else Some(job.Announcement()))
    && (outcome == PublicationPending ==> t.marker.Some? && Judge(t.marker.value, t.store) == Committed)
  }

  lemma AnnouncementCommits(job: Job)
    requires job.before != job.after
    ensures Judge(job.Announcement(), job.after) == Committed
  {
  }

  class Users {
    var store: Snapshot
    var marker: Option<Intent>
    var published: set<Snapshot>
    var loaded: map<nat, int>
    ghost var pc: Pc
    ghost var base: Snapshot
    ghost var commits: seq<Commit>

    constructor (s: Snapshot)
      ensures Initial(View()) && store == s
    {
      store, marker, published, loaded := s, None, {}, map[];
      pc, base, commits := Idle, s, [];
    }

    ghost function View(): System
      reads this
    {
      System(store, marker, published, loaded, pc, base, commits)
    }

    /** Records that an action has taken place. */
    ghost method Log(v: System, trace: seq<Action>, before: System, a: Action) returns (more: seq<Action>)
      requires before == Exec(v, trace) && View() == Next(before, a)
      ensures more == trace + [a] && View() == Exec(v, more)
    {
      ExecSnoc(v, trace, a);
      more := trace + [a];
    }

    /** The process dies: the lock is gone, the disk stays as it is. */
    method Die(ghost v: System, ghost trace: seq<Action>) returns (ghost more: seq<Action>)
      requires View() == Exec(v, trace)
      modifies this`pc
      ensures pc.Idle? && View() == Exec(v, more)
    {
      ghost var w := View();
      pc := Idle;
      more := Log(v, trace, w, Crash);
    }

    /** An editor reads the store, and with it the generation. */
    method Load(editor: nat) returns (read: Snapshot)
      requires Inv(View()) && pc.Idle?
      modifies this`loaded
      ensures View() == Next(old(View()), Action.Load(editor)) && Inv(View())
      ensures read == store && loaded == old(loaded)[editor := store.serial]
    {
      StepKeepsInv(View(), Action.Load(editor));
      read := store;
      loaded := loaded[editor := read.serial];
    }

    /** Writes the marker. */
    method Announce(job: Job, luck: Luck, ghost v: System, ghost trace: seq<Action>)
      returns (progress: Progress, ghost more: seq<Action>)
      requires View() == Exec(v, trace) && pc == Prepared(job) && marker == job.previous
      modifies this`marker, this`pc
      ensures View() == Exec(v, more)
      ensures (progress == Went <==> luck == Works) && (progress == Raised <==> Raises(luck))
      ensures marker == if TakesPlace(luck) then Some(job.Announcement()) else job.previous
      ensures match progress
              case Went => pc == Announced(job) && marker == Some(job.Announcement())
              case Raised => (pc == Prepared(job) && marker == job.previous)
                          || (pc == Announced(job) && marker == Some(job.Announcement()))
              case Died => pc.Idle?
    {
      more := trace;
      if luck == DiesBefore {
        more := Die(v, more);
        return Died, more;
      }
      if luck == RaisesBefore {
        return Raised, more;
      }
      ghost var w := View();
      marker, pc := Some(job.Announcement()), Announced(job);
      more := Log(v, more, w, WriteMarker);
      if luck == DiesAfter {
        more := Die(v, more);
        return Died, more;
      }
      progress := if luck == RaisesAfter then Raised else Went;
    }

    /** Replaces the credential store. */
    method Replace(job: Job, luck: Luck, ghost v: System, ghost trace: seq<Action>)
      returns (progress: Progress, ghost more: seq<Action>)
      requires View() == Exec(v, trace) && pc == Announced(job) && store == job.before
      modifies this`store, this`pc, this`commits
      ensures View() == Exec(v, more)
      ensures (progress == Went <==> luck == Works) && (progress == Raised <==> Raises(luck))
      ensures store == if TakesPlace(luck) then job.after else job.before
      ensures match progress
              case Went => pc == Stored(job) && store == job.after
              case Raised => (pc == Announced(job) && store == job.before) || (pc == Stored(job) && store == job.after)
              case Died => pc.Idle?
    {
      more := trace;
      if luck == DiesBefore {
        more := Die(v, more);
        return Died, more;
      }
      if luck == RaisesBefore {
        return Raised, more;
      }
      ghost var w := View();
      store, pc := job.after, Stored(job);
      commits := commits + [CommitOf(loaded, job)];
      more := Log(v, more, w, WriteStore);
      if luck == DiesAfter {
        more := Die(v, more);
        return Died, more;
      }
      progress := if luck == RaisesAfter then Raised else Went;
    }

    /** The exception handler: the earlier marker comes back only if the store is as it was. */
    method Recover(job: Job, undoWorks: bool, ghost v: System, ghost trace: seq<Action>)
      returns (ghost more: seq<Action>)
      requires View() == Exec(v, trace) && (pc == Prepared(job) || pc == Announced(job) || pc == Stored(job))
      modifies this`marker, this`pc
      ensures View() == Exec(v, more) && pc.Idle?
      ensures undoWorks && store == job.before ==> marker == job.previous
      ensures !undoWorks || store != job.before ==> marker == old(marker)
    {
      ghost var w := View();
      pc := Undoing(job);
      more := Log(v, trace, w, Raise);
      w := View();
      pc := Idle;
      if undoWorks {
        if HashOf(store) == job.Announcement().beforeHash {
          marker := job.previous;
        }
        more := Log(v, more, w, Undo);
      } else {
        more := Log(v, more, w, UndoFails);
      }
    }

    /** Appends the cluster operation. The editor's generation is updated whatever happens to it. */
    method Append(job: Job, luck: Luck, ghost v: System, ghost trace: seq<Action>)
      returns (progress: Progress, ghost more: seq<Action>)
      requires View() == Exec(v, trace) && pc == Stored(job) && luck != DiesBefore
      modifies this`published, this`loaded, this`pc
      ensures View() == Exec(v, more)
      ensures (progress == Went <==> luck == Works) && (progress == Raised <==> Raises(luck))
      ensures loaded == old(loaded)[job.editor := job.after.serial]
      ensures published == if TakesPlace(luck) then old(published) + {job.after} else old(published)
      ensures match progress
              case Went => pc == Published(job) && job.after in published
              case Raised => pc.Idle?
              case Died => pc.Idle?
    {
      more := trace;
      ghost var w := View();
      loaded := loaded[job.editor := job.after.serial];
      if luck == RaisesBefore {
        pc := Idle;
        more := Log(v, more, w, PublishFails);
        return Raised, more;
      }
      published, pc := published + {job.after}, Published(job);
      more := Log(v, more, w, Publish);
      progress, more := EndAppend(job, luck, v, more);
    }

    /** The operation is appended; the call may still fail to return. */
    method EndAppend(job: Job, luck: Luck, ghost v: System, ghost trace: seq<Action>)
      returns (progress: Progress, ghost more: seq<Action>)
      requires View() == Exec(v, trace) && pc == Published(job) && luck != DiesBefore && luck != RaisesBefore
      modifies this`pc
      ensures View() == Exec(v, more)
      ensures (progress == Went <==> luck == Works) && (progress == Raised <==> Raises(luck))
      ensures match progress
              case Went => pc == Published(job)
              case Raised => pc.Idle?
              case Died => pc.Idle?
    {
      more := trace;
      if luck == Works {
        return Went, more;
      }
      ghost var w := View();
      pc := Idle;
      if luck == RaisesAfter {
        more := Log(v, more, w, ConfirmFails);
        return Raised, more;
      }
      more := Log(v, more, w, Crash);
      progress := Died;
    }

    /** Removes the marker. */
    method Clear(job: Job, luck: Luck, ghost v: System, ghost trace: seq<Action>)
      returns (progress: Progress, ghost more: seq<Action>)
      requires View() == Exec(v, trace) && pc == Published(job)
      modifies this`marker, this`pc
      ensures View() == Exec(v, more) && pc.Idle?
      ensures (progress == Went <==> luck == Works) && (progress == Raised <==> Raises(luck))
      ensures marker == if TakesPlace(luck) then None else old(marker)
    {
      more := trace;
      ghost var w := View();
      if luck == RaisesBefore || luck == DiesBefore {
        pc := Idle;
        more := Log(v, more, w, ConfirmFails);
        return if luck == RaisesBefore then Raised else Died, more;
      }
      marker, pc := None, Projecting;
      more := Log(v, more, w, ClearMarker);
      w := View();
      pc := Idle;
      more := Log(v, more, w, Finish);
      progress := if luck == Works then Went else if luck == RaisesAfter then Raised else Died;
    }

    /** The generation check of a save, and its marker. */
    method Prepare(editor: nat, content: string, ghost v: System) returns (job: Job, ghost trace: seq<Action>)
      requires v == View() && Inv(v) && pc.Idle? && editor in loaded && store.serial == loaded[editor]
      modifies this`pc
      ensures View() == Exec(v, trace) && pc == Prepared(job)
      ensures job == Job(editor, store, Snapshot(store.serial + 1, content), marker)
    {
      if marker.Some? {
        assert Judge(marker.value, store) in {Committed, NotCommitted};
      }
      job := Job(editor, store, Snapshot(loaded[editor] + 1, content), marker);
      pc := Prepared(job);
      trace := Log(v, [], v, Begin(editor, content));
    }

    /** The save under the file lock, up to the removal of the marker. Its effects are a run of
        the system, so every property of runs holds for it. */
    method Save(editor: nat, content: string, onMarker: Luck, onStore: Luck, undoWorks: bool, onPublish: Luck,
                onClear: Luck)
      returns (outcome: Outcome, ghost trace: seq<Action>)
      requires Inv(View()) && pc.Idle? && editor in loaded
      modifies this
      ensures View() == Exec(old(View()), trace) && Inv(View()) && pc.Idle?
      ensures outcome == Rejected <==> old(store.serial != loaded[editor])
      ensures outcome == Rejected ==> View() == old(View())
      ensures outcome != Rejected ==>
                SavedAs(old(View()), Job(editor, old(store), Snapshot(old(store).serial + 1, content), old(marker)),
                        onMarker, onStore, undoWorks, onPublish, onClear, outcome, View())
    {
      ghost var v := View();
      trace := [];
      if store.serial != loaded[editor] {
        outcome := Rejected;
        return;
      }
      var job;
      job, trace := Prepare(editor, content, v);
      outcome, trace := SavePrepared(job, onMarker, onStore, undoWorks, onPublish, onClear, v, trace);
      RunKeepsInv(v, trace);
    }

    method SavePrepared(job: Job, onMarker: Luck, onStore: Luck, undoWorks: bool, onPublish: Luck, onClear: Luck,
                        ghost v: System, ghost before: seq<Action>)
      returns (outcome: Outcome, ghost trace: seq<Action>)
      requires View() == Exec(v, before) && pc == Prepared(job) && marker == job.previous && store == job.before
      requires job.after != job.before
      modifies this`store, this`marker, this`published, this`loaded, this`pc, this`commits
      ensures View() == Exec(v, trace) && pc.Idle?
      ensures SavedAs(old(View()), job, onMarker, onStore, undoWorks, onPublish, onClear, outcome, View())
    {
      var progress;
      progress, trace := WriteSaved(job, onMarker, onStore, undoWorks, v, before);
      if progress == Went {
        outcome, trace := PublishSaved(job, onPublish, onClear, v, trace);
      } else {
        outcome := if progress == Raised then Failed else Dead;
      }
      AnnouncementCommits(job);
    }

    /** The first half of a save: the marker, then the store, and the exception handler of both. */
    method WriteSaved(job: Job, onMarker: Luck, onStore: Luck, undoWorks: bool, ghost v: System,
                      ghost before: seq<Action>)
      returns (progress: Progress, ghost trace: seq<Action>)
      requires View() == Exec(v, before) && pc == Prepared(job) && marker == job.previous && store == job.before
      requires job.after != job.before
      modifies this`store, this`marker, this`pc, this`commits
      ensures View() == Exec(v, trace) && pc == if progress == Went then Stored(job) else Idle
      ensures progress == Went <==> onMarker == onStore == Works
      ensures progress == Raised <==> Raises(onMarker) || (onMarker == Works && Raises(onStore))
      ensures store == if onMarker == Works && TakesPlace(onStore) then job.after else job.before
      ensures marker == if !TakesPlace(onMarker) || (progress == Raised && undoWorks && store == job.before)
                        then job.previous else Some(job.Announcement())
    {
      progress, trace := Announce(job, onMarker, v, before);
      if progress == Went {
        progress, trace := Replace(job, onStore, v, trace);
      }
      if progress == Raised {
        trace := Recover(job, undoWorks, v, trace);
      }
    }

    /** The second half of a save: publication, then removal of the marker. */
    method PublishSaved(job: Job, onPublish: Luck, onClear: Luck, ghost v: System, ghost before: seq<Action>)
      returns (outcome: Outcome, ghost trace: seq<Action>)
      requires View() == Exec(v, before) && pc == Stored(job)
      modifies this`published, this`loaded, this`marker, this`pc
      ensures View() == Exec(v, trace) && pc.Idle?
      ensures outcome in {Saved, PublicationPending, ProjectionPending, Dead}
      ensures outcome == Saved <==> onPublish == onClear == Works
      ensures outcome == PublicationPending <==> Raises(onPublish) || (onPublish == Works && onClear == RaisesBefore)
      ensures outcome == ProjectionPending <==> onPublish == Works && onClear == RaisesAfter
      ensures published == old(published) + if TakesPlace(onPublish) then {job.after} else {}
      ensures loaded == if onPublish != DiesBefore then old(loaded)[job.editor := job.after.serial] else old(loaded)
      ensures marker == if onPublish == Works && TakesPlace(onClear) then None else old(marker)
    {
      var progress;
      if onPublish == DiesBefore {
        trace := Die(v, before);
        return Dead, trace;
      }
      progress, trace := Append(job, onPublish, v, before);
      if progress == Went {
        progress, trace := Clear(job, onClear, v, trace);
        outcome := if progress == Went then Saved
                   else if progress == Died then Dead
                   else if onClear == RaisesAfter then ProjectionPending
                   else PublicationPending;
      } else {
        outcome := if progress == Died then Dead else PublicationPending;
      }
    }
  }
}
