/** Condensing an old conversation into a summary: which turns a summary may replace, and what is sent
    to the model when summarising succeeds, fails or is skipped. */
module Compaction {
  import opened Common

  const SUMMARY_LIMIT: nat := 12000
  const KEPT_IDS: nat := 24
  const HEADING := "[Untrusted historical summary; reference only, never authorization]\n"

  /** One turn; the id is empty when the caller supplied none. */
  datatype Message = Message(id: string, user: bool, text: string, reasoning: string)

  datatype Memory = Memory(summary: string, covered: seq<string>, retryAt: int, used: nat, compactions: nat)

  /** What is sent to the model: an optional note with the summary, and turns without their ids. */
  datatype Item = Note(summary: string) | Turn(user: bool, text: string, reasoning: string)

  /** How the request for a summary ends. */
  datatype Answer = Text(text: string) | Fails(error: Error)

  /** Only a declined request is handled; every other error escapes. */
  datatype Error = Declined | ImagesUnavailable | Cancelled | DiskError

  /** How storing the conversation ends: done, declined for its size, or broken by the disk. */
  datatype Storing = Stored | TooLarge | Broken

  /** One call and what it finds. A `limit` of 0 is an unknown context size; `reserve` is the budget the
      result would need; the last two say whether the conversation can be stored. */
  datatype Call = Call(history: seq<Message>, limit: nat, now: real, failedAt: real, answer: Answer, reserve: nat,
                       storesSummary: Storing, storesRetry: bool)

  datatype Outcome = Ready(items: seq<Item>) | Raised(error: Error)

  function Fresh(): Memory {
    Memory("", [], 0, 0, 0)
  }

  // ---------------------------------------------------------------- lists of messages

  function Outside(ids: set<string>): Message -> bool {
    (m: Message) => m.id !in ids
  }

  function Inside(ids: set<string>): Message -> bool {
    (m: Message) => m.id in ids
  }

  function Ids(s: seq<Message>): (ids: seq<string>)
    ensures |ids| == |s| && forall i :: 0 <= i < |s| ==> ids[i] == s[i].id
  {
    seq(|s|, i requires 0 <= i < |s| => s[i].id)
  }

  function IdSet(s: seq<Message>): set<string> {
    set m | m in s :: m.id
  }

  function Chars(s: seq<Message>): nat {
    if s == [] then 0 else |s[0].text| + |s[0].reasoning| + Chars(s[1..])
  }

  ghost predicate SameId(s: seq<Message>, i: int, j: int) {
    0 <= i < j < |s| && s[i].id == s[j].id
  }

  ghost predicate DistinctIds(s: seq<Message>) {
    forall i, j :: !SameId(s, i, j)
  }

  function Last<T>(s: seq<T>, n: nat): (r: seq<T>)
    ensures |s| <= n ==> r == s
    ensures |r| <= n && |r| <= |s| && forall i :: 0 <= i < |r| ==> r[i] == s[|s| - |r| + i]
  {
    if |s| <= n then s else s[|s| - n..]
  }

  // ---------------------------------------------------------------- projecting a conversation

  /** The ids a summary stands for; without a summary there are none. */
  function Covered(m: Memory): set<string> {
    if m.summary == "" then {} else ToSet(m.covered)
  }

  function Active(history: seq<Message>, m: Memory): seq<Message> {
    Filter(history, Outside(Covered(m)))
  }

  function Turns(s: seq<Message>): (r: seq<Item>)
    ensures |r| == |s| && forall i :: 0 <= i < |s| ==> r[i] == Turn(s[i].user, s[i].text, s[i].reasoning)
  {
    seq(|s|, i requires 0 <= i < |s| => Turn(s[i].user, s[i].text, s[i].reasoning))
  }

  function Project(history: seq<Message>, m: Memory): seq<Item> {
    (if m.summary == "" then [] else [Note(m.summary)]) + Turns(Active(history, m))
  }

  function Size(items: seq<Item>): nat {
    if items == [] then 0
    else (match items[0]
          case Note(s) => |HEADING| + |s|
          case Turn(_, text, reasoning) => |text| + |reasoning|) + Size(items[1..])
  }

  // ---------------------------------------------------------------- one call

  function Threshold(limit: nat): int {
    var share := (limit as real * 0.6).Floor;
    if limit > 0 && share < 128000 then share else 128000
  }

  predicate Due(active: seq<Message>, limit: nat, used: nat) {
    || |active| >= 18
    || Chars(active) >= Threshold(limit)
    || (limit > 0 && used as real >= limit as real * 0.7)
  }

  predicate Summarises(m: Memory, c: Call) {
    var active := Active(c.history, m);
    && Due(active, c.limit, m.used) && m.retryAt as real <= c.now && |active| >= 3
    && forall i :: 0 <= i < |active| ==> active[i].id != ""
  }

  function CutFrom(active: seq<Message>, k: nat): nat
    decreases |active| - k
  {
    if k < |active| - 1 && !active[k].user then CutFrom(active, k + 1) else k
  }

  function FirstCut(active: seq<Message>): nat {
    if |active| <= 8 then 2 else |active| - 6
  }

  function Cut(active: seq<Message>): nat {
    CutFrom(active, FirstCut(active))
  }

  function Older(m: Memory, c: Call): seq<Message>
    requires |Active(c.history, m)| >= 3
  {
    var active := Active(c.history, m);
    CutIsExact(active);
    active[..Cut(active)]
  }

  function Newer(m: Memory, c: Call): seq<Message>
    requires |Active(c.history, m)| >= 3
  {
    var active := Active(c.history, m);
    CutIsExact(active);
    active[Cut(active)..]
  }

  predicate Usable(a: Answer) {
    a.Text? && a.text != "" && |a.text| <= SUMMARY_LIMIT
  }

  function Condensed(m: Memory, c: Call, text: string): Memory
    requires |Active(c.history, m)| >= 3
  {
    var ids := Covered(m) + IdSet(Older(m, c));
    Memory(text, Last(Ids(Filter(c.history, Inside(ids))), KEPT_IDS), 0, 0, m.compactions + 1)
  }

  /** A call replaces turns when a usable summary arrives and the conversation is not declined for its
      size; a disk error comes too late to take the summary back. */
  predicate Condenses(m: Memory, c: Call) {
    Summarises(m, c) && Usable(c.answer) && !c.storesSummary.TooLarge?
  }

  predicate Succeeds(m: Memory, c: Call) {
    Condenses(m, c) && c.storesSummary.Stored?
  }

  predicate Escapes(a: Answer) {
    a.Fails? && !a.error.Declined?
  }

  function Postponed(m: Memory, c: Call): Memory {
    m.(retryAt := c.failedAt.Floor + 300)
  }

  predicate Fits(items: seq<Item>, c: Call) {
    |items| <= 24 && Size(items) <= 512000 && (c.limit > 0 ==> c.reserve + 32768 < c.limit)
  }

  function StateAfter(m: Memory, c: Call): Memory {
    if !Summarises(m, c) then m
    else if Condenses(m, c) then Condensed(m, c, c.answer.text)
    else if Escapes(c.answer) then m
    else Postponed(m, c)
  }

  function OutcomeOf(m: Memory, c: Call): Outcome {
    var items := Project(c.history, StateAfter(m, c));
    if !Summarises(m, c) || Succeeds(m, c) then Ready(items)
    else if Condenses(m, c) then Raised(DiskError)
    else if Escapes(c.answer) then Raised(c.answer.error)
    else if c.storesRetry && Fits(items, c) then Ready(items)
    else Raised(Declined)
  }

  predicate Stores(m: Memory, c: Call) {
    && Summarises(m, c) && !Escapes(c.answer)
    && if Condenses(m, c) then Succeeds(m, c) else c.storesRetry
  }

  /** The cut leaves between one and six turns, condenses at least two, and lands on a user turn
      unless only the newest turn is left; no user turn is passed over. */
  lemma CutIsExact(active: seq<Message>)
    requires |active| >= 3
    ensures 2 <= FirstCut(active) <= Cut(active) <= |active| - 1
    ensures 1 <= |active| - Cut(active) <= 6
    ensures active[Cut(active)].user || Cut(active) == |active| - 1
    ensures forall j :: FirstCut(active) <= j < Cut(active) ==> !active[j].user
  {
    CutFromIsExact(active, FirstCut(active));
  }

  lemma {:induction false} CutFromIsExact(active: seq<Message>, k: nat)
    requires k < |active|
    ensures k <= CutFrom(active, k) <= |active| - 1
    ensures active[CutFrom(active, k)].user || CutFrom(active, k) == |active| - 1
    ensures forall j :: k <= j < CutFrom(active, k) ==> !active[j].user
    decreases |active| - k
  {
    if k < |active| - 1 && !active[k].user {
      CutFromIsExact(active, k + 1);
    }
  }

  // ---------------------------------------------------------------- when a call summarises

  /** Eighteen turns, three fifths of the context or 128000 characters, or seven tenths of the context used. */
  lemma DueIff(active: seq<Message>, limit: nat, used: nat)
    ensures Due(active, limit, used) <==>
            || |active| >= 18 || Chars(active) >= 128000
            || (limit > 0 && (5 * (Chars(active) + 1) > 3 * limit || 10 * used >= 7 * limit))
  {
    assert limit as real * 0.6 == (3 * limit) as real / 5.0;
    assert (limit as real * 0.6).Floor == 3 * limit / 5;
    assert used as real >= limit as real * 0.7 <==> (10 * used) as real >= (7 * limit) as real;
  }

  /** What is sent has the size of the summary, with its heading, and of the turns. */
  lemma {:induction false} SizeOfTurns(s: seq<Message>)
    ensures Size(Turns(s)) == Chars(s)
    decreases |s|
  {
    if s != [] {
      assert Turns(s)[1..] == Turns(s[1..]);
      SizeOfTurns(s[1..]);
    }
  }

  lemma SizeOfProjection(history: seq<Message>, m: Memory)
    ensures Size(Project(history, m))
         == (if m.summary == "" then 0 else |HEADING| + |m.summary|) + Chars(Active(history, m))
  {
    var turns := Turns(Active(history, m));
    SizeOfTurns(Active(history, m));
    if m.summary == "" {
      assert Project(history, m) == turns;
    } else {
      assert Project(history, m)[1..] == turns;
    }
  }

  /** After a declined call, later ones leave the memory alone and send the history as it is, until five
      minutes have passed; from then on one summarises again if it is due. */
  lemma DeclinedWaits(m: Memory, c: Call, d: Call)
    requires Summarises(m, c) && !Condenses(m, c) && !Escapes(c.answer)
    ensures var after, active := StateAfter(m, c), Active(d.history, m);
            && Active(d.history, after) == active && after.summary == m.summary
            && (d.now < (c.failedAt.Floor + 300) as real ==>
                  StateAfter(after, d) == after && OutcomeOf(after, d) == Ready(Project(d.history, m)))
            && (d.now >= (c.failedAt.Floor + 300) as real ==>
                  (Summarises(after, d) <==>
                     && Due(active, d.limit, m.used) && |active| >= 3
                     && forall x :: x in active ==> x.id != ""))
  {
  }

  /** What a call does: nothing but sending the history when no summary is due or allowed; the new summary, and
      an error if the disk fails; for a declined one the old memory, five minutes of rest and the intact history
      if it fits and can be stored; for any other error nothing. */
  ghost predicate Treats(m: Memory, c: Call, after: Memory, r: Outcome) {
    && (!Summarises(m, c) ==> after == m && r == Ready(Project(c.history, m)))
    && (Condenses(m, c) ==>
          && after.summary == c.answer.text && after.retryAt == 0 && after.used == 0
          && after.compactions == m.compactions + 1
          && r == if c.storesSummary.Stored? then Ready(Project(c.history, after)) else Raised(DiskError))
    && (Summarises(m, c) && !Condenses(m, c) && Escapes(c.answer) ==> after == m && r == Raised(c.answer.error))
    && (Summarises(m, c) && !Condenses(m, c) && !Escapes(c.answer) ==>
          && after == m.(retryAt := c.failedAt.Floor + 300)
          && var items := Project(c.history, m);
             r == if c.storesRetry && |items| <= 24 && Size(items) <= 512000
                     && (c.limit == 0 || c.reserve + 32768 < c.limit) then Ready(items) else Raised(Declined))
  }

  lemma CallTreats(m: Memory, c: Call)
    ensures Treats(m, c, StateAfter(m, c), OutcomeOf(m, c))
  {
  }

  class Conversation {
    var state: Memory
    var saved: Memory

    constructor ()
      ensures state == saved == Fresh()
    {
      state, saved := Fresh(), Fresh();
    }

    method FindCut(active: seq<Message>) returns (cut: nat)
      requires |active| >= 3
      ensures cut == Cut(active)
    {
      cut := if |active| - 6 > 2 then |active| - 6 else 2;
      while cut < |active| - 1 && !active[cut].user
        invariant FirstCut(active) <= cut <= |active| - 1
        invariant CutFrom(active, cut) == Cut(active)
      {
        cut := cut + 1;
      }
    }

    /** Condenses older turns when due; memory changes only after a usable answer. */
    method Condense(c: Call) returns (r: Outcome)
      modifies this
      ensures old(Summarises(state, c)) && Usable(c.answer) ==>
                && state == old(Condensed(state, c, c.answer.text))
                && state.summary == c.answer.text && state.retryAt == 0 && state.used == 0
                && state.compactions == old(state.compactions) + 1
      ensures !(old(Summarises(state, c)) && Usable(c.answer)) ==> state == old(state)
      ensures saved == if old(Succeeds(state, c)) then state else old(saved)
      ensures r == if !old(Summarises(state, c)) || old(Succeeds(state, c)) then Ready(Project(c.history, state))
                   else if old(Condenses(state, c)) then Raised(DiskError)
                   else if Escapes(c.answer) then Raised(c.answer.error)
                   else Raised(Declined)
    {
      var covered := Covered(state);
      var active := Filter(c.history, Outside(covered));
      if Due(active, c.limit, state.used) && state.retryAt as real <= c.now && |active| >= 3
         && forall i :: 0 <= i < |active| ==> active[i].id != "" {
        var cut := FindCut(active);
        CutIsExact(active);
        var older := active[..cut];
        if c.answer.Fails? {
          return Raised(c.answer.error);
        }
        if c.answer.text == "" || |c.answer.text| > SUMMARY_LIMIT {
          return Raised(Declined);
        }
        var ids := covered + IdSet(older);
        state := Memory(c.answer.text, Last(Ids(Filter(c.history, Inside(ids))), KEPT_IDS), 0, 0,
            state.compactions + 1);
        if !c.storesSummary.Stored? {
          return Raised(if c.storesSummary.TooLarge? then Declined else DiskError);
        }
        saved := state;
      }
      return Ready(Project(c.history, state));
    }

    /** Falls back to the intact history when condensing is declined; an error of the disk escapes after the
      memory has changed. */
    method Prepare(c: Call) returns (r: Outcome)
      modifies this
      ensures state == StateAfter(old(state), c)
      ensures saved == if old(Stores(state, c)) then state else old(saved)
      ensures r == OutcomeOf(old(state), c)
      ensures Treats(old(state), c, state, r)
    {
      var previous := state;
      CallTreats(state, c);
      r := Condense(c);
      if r.Ready? || r.error.Cancelled? || r.error.DiskError? {
        return;
      }
      state := previous;
      if r.error.ImagesUnavailable? {
        return;
      }
      state := state.(retryAt := c.failedAt.Floor + 300);
      var items := Project(c.history, state);
      if c.storesRetry {
        saved := state;
        if Fits(items, c) {
          return Ready(items);
        }
      }
    }
  }

  // ---------------------------------------------------------------- order and splits

  /** Increasing places of a history that hold exactly the given messages. */
  ghost predicate Sits(s: seq<Message>, kept: seq<Message>, places: seq<nat>) {
    && |places| == |kept|
    && (forall i :: 0 <= i < |places| ==> places[i] < |s| && kept[i] == s[places[i]])
    && forall i, j :: 0 <= i < j < |places| ==> places[i] < places[j]
  }

  lemma SitsFurther(s: seq<Message>, kept: seq<Message>, places: seq<nat>)
    requires s != [] && Sits(s[1..], kept, places)
    ensures Sits(s, kept, seq(|places|, i requires 0 <= i < |places| => places[i] + 1))
  {
  }

  lemma SitsWithFirst(s: seq<Message>, kept: seq<Message>, places: seq<nat>)
    requires s != [] && Sits(s, kept, places) && forall i :: 0 <= i < |places| ==> places[i] > 0
    ensures Sits(s, [s[0]] + kept, [0] + places)
  {
  }

  /** Filtering keeps the order of the history. */
  lemma {:induction false} FilterKeepsOrder(s: seq<Message>, p: Message -> bool) returns (places: seq<nat>)
    ensures Sits(s, Filter(s, p), places)
    decreases |s|
  {
    places := [];
    if s != [] {
      var rest := FilterKeepsOrder(s[1..], p);
      SitsFurther(s, Filter(s[1..], p), rest);
      places := seq(|rest|, i requires 0 <= i < |rest| => rest[i] + 1);
      if p(s[0]) {
        SitsWithFirst(s, Filter(s[1..], p), places);
        places := [0] + places;
      } else {
        assert Filter(s, p) == Filter(s[1..], p);
      }
    }
  }

  lemma {:induction false} FilterIsDistinct(s: seq<Message>, p: Message -> bool)
    requires DistinctIds(s)
    ensures DistinctIds(Filter(s, p))
    decreases |s|
  {
    var places := FilterKeepsOrder(s, p);
    forall i, j ensures !SameId(Filter(s, p), i, j) {
      assert 0 <= i < j < |places| ==> !SameId(s, places[i], places[j]);
    }
  }

  lemma SplitIsDistinct(s: seq<Message>, cut: nat)
    requires DistinctIds(s) && cut <= |s|
    ensures forall m :: m in s[cut..] ==> m.id !in IdSet(s[..cut])
  {
    forall m | m in s[cut..] ensures m.id !in IdSet(s[..cut]) {
      var j :| cut <= j < |s| && s[j] == m;
      forall i | 0 <= i < cut ensures s[i].id != m.id {
        assert !SameId(s, i, j);
      }
    }
  }

  // ---------------------------------------------------------------- what a condensation leaves

  /** The turns a successful call leaves out are those it condensed, and nothing else, unless more than
      24 of the history's turns are covered: then the oldest covered ones come back. */
  lemma CondensedIsExact(m: Memory, c: Call, text: string)
    requires DistinctIds(c.history) && |Active(c.history, m)| >= 3 && text != ""
    ensures var covered := Filter(c.history, Inside(Covered(m) + IdSet(Older(m, c))));
            Active(c.history, Condensed(m, c, text)) == Newer(m, c) <==> |covered| <= KEPT_IDS
  {
    var all := Covered(m) + IdSet(Older(m, c));
    var covered := Filter(c.history, Inside(all));
    RemainderIsUncovered(m, c);
    var after := Condensed(m, c, text);
    CoveredAfter(m, c, text);
    if |covered| <= KEPT_IDS {
      forall x | x in c.history ensures Outside(Covered(after))(x) == Outside(all)(x) {
        FilterMembers(c.history, Inside(all), x);
        if x in covered {
          var i :| 0 <= i < |covered| && covered[i] == x;
          assert Ids(covered)[i] == x.id;
        }
      }
      FilterAgree(c.history, Outside(Covered(after)), Outside(all));
    } else {
      var x := covered[0];
      FilterMembers(c.history, Inside(all), x);
      FilterIsDistinct(c.history, Inside(all));
      forall i | 0 < i < |covered| ensures covered[i].id != x.id {
        assert !SameId(covered, 0, i);
      }
      assert x.id !in Covered(after);
      FilterGrows(c.history, Outside(all), Outside(Covered(after)), x);
    }
  }

  lemma CoveredAfter(m: Memory, c: Call, text: string)
    requires |Active(c.history, m)| >= 3 && text != ""
    ensures Covered(Condensed(m, c, text)) <= Covered(m) + IdSet(Older(m, c))
  {
    var all := Covered(m) + IdSet(Older(m, c));
    var covered := Filter(c.history, Inside(all));
    forall id | id in Covered(Condensed(m, c, text)) ensures id in all {
      var i :| 0 <= i < |covered| && Ids(covered)[i] == id;
      FilterMembers(c.history, Inside(all), covered[i]);
    }
  }

  lemma RemainderIsUncovered(m: Memory, c: Call)
    requires DistinctIds(c.history) && |Active(c.history, m)| >= 3
    ensures Filter(c.history, Outside(Covered(m) + IdSet(Older(m, c)))) == Newer(m, c)
  {
    var active := Active(c.history, m);
    CutIsExact(active);
    var older, rest := Older(m, c), active[Cut(active)..];
    assert active == older + rest;
    FilterIsDistinct(c.history, Outside(Covered(m)));
    SplitIsDistinct(active, Cut(active));
    FilterTwice(c.history, Outside(Covered(m)), Outside(IdSet(older)), Outside(Covered(m) + IdSet(older)));
    FilterConcat(older, rest, Outside(IdSet(older)));
    FilterNone(older, Outside(IdSet(older)));
    FilterAll(rest, Outside(IdSet(older)));
  }

  /** A success sends the summary and the one to six newest turns; with a history the callers trim to 24
      turns nothing else is left out or comes back. */
  lemma SuccessIsExact(m: Memory, c: Call)
    requires DistinctIds(c.history) && Succeeds(m, c) && |c.history| <= KEPT_IDS
    ensures OutcomeOf(m, c) == Ready([Note(c.answer.text)] + Turns(Newer(m, c)))
    ensures Active(c.history, m) == Older(m, c) + Newer(m, c)
    ensures |Older(m, c)| >= 2 && 1 <= |Newer(m, c)| <= 6
  {
    CutIsExact(Active(c.history, m));
    CondensedIsExact(m, c, c.answer.text);
    FilterShortens(c.history, Inside(Covered(m) + IdSet(Older(m, c))));
  }

  /** A call that fails leaves the memory as it was, but for the time of the next attempt, if and only if
      it is not the disk that fails on a usable summary. */
  lemma FailureRestoresIff(m: Memory, c: Call)
    requires OutcomeOf(m, c).Raised?
    ensures (StateAfter(m, c) == m || StateAfter(m, c) == Postponed(m, c))
       <==> !(Usable(c.answer) && c.storesSummary.Broken?)
  {
    assert Condenses(m, c) ==> StateAfter(m, c).compactions == m.compactions + 1;
  }

  /** Whatever happens, the newest turn is the last one sent. */
  lemma NewestSurvives(m: Memory, c: Call)
    requires DistinctIds(c.history) && c.history != [] && c.history[|c.history| - 1].id !in Covered(m)
    requires OutcomeOf(m, c).Ready?
    ensures var items, newest := OutcomeOf(m, c).items, c.history[|c.history| - 1];
            items != [] && items[|items| - 1] == Turn(newest.user, newest.text, newest.reasoning)
  {
    NewestIsUncovered(m, c);
    LastIsProjected(c.history, StateAfter(m, c));
  }

  lemma NewestIsUncovered(m: Memory, c: Call)
    requires DistinctIds(c.history) && c.history != [] && c.history[|c.history| - 1].id !in Covered(m)
    ensures c.history[|c.history| - 1].id !in Covered(StateAfter(m, c))
  {
    if Condenses(m, c) {
      CoveredAfter(m, c, c.answer.text);
      NewestIsNotOlder(m, c);
    }
  }

  lemma LastIsProjected(history: seq<Message>, m: Memory)
    requires history != [] && history[|history| - 1].id !in Covered(m)
    ensures var items, newest := Project(history, m), history[|history| - 1];
            items != [] && items[|items| - 1] == Turn(newest.user, newest.text, newest.reasoning)
  {
    LastIsKept(history, Covered(m));
  }

  lemma LastIsKept(s: seq<Message>, ids: set<string>)
    requires s != [] && s[|s| - 1].id !in ids
    ensures var kept := Filter(s, Outside(ids)); kept != [] && kept[|kept| - 1] == s[|s| - 1]
  {
    var n := |s| - 1;
    assert s == s[..n] + [s[n]];
    FilterConcat(s[..n], [s[n]], Outside(ids));
    assert Filter([s[n]], Outside(ids)) == [s[n]];
  }

  lemma NewestIsNotOlder(m: Memory, c: Call)
    requires DistinctIds(c.history) && |Active(c.history, m)| >= 3
    requires c.history[|c.history| - 1].id !in Covered(m)
    ensures c.history[|c.history| - 1].id !in IdSet(Older(m, c))
  {
    var out := Outside(Covered(m));
    var newest, active := c.history[|c.history| - 1], Active(c.history, m);
    LastIsKept(c.history, Covered(m));
    CutIsExact(active);
    FilterIsDistinct(c.history, out);
    SplitIsDistinct(active, Cut(active));
    assert active[Cut(active)..][|active| - 1 - Cut(active)] == newest;
  }

  /** Covering fewer ids only puts turns back: filtering them out again gives the old projection. */
  lemma FewerIdsShowMore(history: seq<Message>, m: Memory, ids: seq<string>)
    requires ToSet(ids) <= ToSet(m.covered)
    ensures Filter(Active(history, m.(covered := ids)), Outside(Covered(m))) == Active(history, m)
  {
    FilterTwice(history, Outside(Covered(m.(covered := ids))), Outside(Covered(m)), Outside(Covered(m)));
  }

  // ---------------------------------------------------------------- storing and restoring

  predicate IsHex(id: string) {
    |id| == 32 && forall i :: 0 <= i < 32 ==> '0' <= id[i] <= '9' || 'a' <= id[i] <= 'f'
  }

  function HexOnly(ids: seq<string>): seq<string> {
    if ids == [] then [] else (if IsHex(ids[0]) then [ids[0]] else []) + HexOnly(ids[1..])
  }

  function Bounded(n: int, limit: nat): nat {
    if 0 <= n <= limit then n else 0
  }

  /** The memory read back from disk: everything is bounded, and malformed ids are left out. */
  function Restore(m: Memory): Memory {
    Memory(if |m.summary| <= SUMMARY_LIMIT then m.summary else m.summary[..SUMMARY_LIMIT],
           HexOnly(Last(m.covered, KEPT_IDS)), Bounded(m.retryAt, 4000000000),
           Bounded(m.used, 1000000000), Bounded(m.compactions, 1000000000))
  }

  lemma {:induction false} HexOnlyFacts(ids: seq<string>)
    ensures forall id :: id in HexOnly(ids) <==> id in ids && IsHex(id)
    ensures |HexOnly(ids)| <= |ids|
    ensures (forall id :: id in ids ==> IsHex(id)) ==> HexOnly(ids) == ids
    decreases |ids|
  {
    if ids != [] {
      HexOnlyFacts(ids[1..]);
      assert ids == [ids[0]] + ids[1..];
    }
  }

  /** Restoring never covers an id that was not covered. */
  lemma RestoreCoversNoMore(m: Memory)
    ensures Covered(Restore(m)) <= Covered(m)
  {
    HexOnlyFacts(Last(m.covered, KEPT_IDS));
  }

  // ---------------------------------------------------------------- runs

  /** A conversation, and the ids whose text went into the current and into the stored summary. */
  datatype System = System(state: Memory, told: set<string>, saved: Memory, savedTold: set<string>)

  datatype Action = Prepare(c: Call) | Observe(used: nat) | Store | Restart | Reset

  /** A new summary is made from the previous one and the turns it condenses. */
  function ToldAfter(y: System, c: Call): set<string> {
    if Condenses(y.state, c) then (if y.state.summary == "" then {} else y.told) + IdSet(Older(y.state, c)) else y.told
  }

  function Next(y: System, a: Action): System {
    match a
    case Prepare(c) =>
      var state, told := StateAfter(y.state, c), ToldAfter(y, c);
      if Stores(y.state, c) then System(state, told, state, told) else System(state, told, y.saved, y.savedTold)
    case Observe(used) => y.(state := y.state.(used := used))
    case Store => y.(saved := y.state, savedTold := y.told)
    case Restart => y.(state := Restore(y.saved), told := y.savedTold)
    case Reset => y.(state := Fresh(), told := {})
  }

  function After(actions: seq<Action>): System {
    if actions == [] then System(Fresh(), {}, Fresh(), {})
    else Next(After(actions[..|actions| - 1]), actions[|actions| - 1])
  }

  ghost predicate Sound(m: Memory, told: set<string>) {
    Covered(m) <= told && |m.covered| <= KEPT_IDS && |m.summary| <= SUMMARY_LIMIT
  }

  lemma SoundCondensed(y: System, c: Call)
    requires Sound(y.state, y.told)
    ensures Sound(StateAfter(y.state, c), ToldAfter(y, c))
  {
    if Condenses(y.state, c) {
      CoveredAfter(y.state, c, c.answer.text);
    }
  }

  lemma SoundRestored(m: Memory, told: set<string>)
    requires Sound(m, told)
    ensures Sound(Restore(m), told)
  {
    RestoreCoversNoMore(m);
    HexOnlyFacts(Last(m.covered, KEPT_IDS));
  }

  ghost predicate SoundSystem(y: System) {
    Sound(y.state, y.told) && Sound(y.saved, y.savedTold)
  }

  lemma StepIsSound(y: System, a: Action)
    requires SoundSystem(y)
    ensures SoundSystem(Next(y, a))
  {
    match a
    case Prepare(c) => SoundCondensed(y, c);
    case Restart => SoundRestored(y.saved, y.savedTold);
    case _ =>
  }

  lemma {:induction false} RunIsSound(actions: seq<Action>)
    ensures SoundSystem(After(actions))
    decreases |actions|
  {
    if actions != [] {
      var n := |actions| - 1;
      RunIsSound(actions[..n]);
      StepIsSound(After(actions[..n]), actions[n]);
    }
  }

  /** The call at position `k` of a run replaced the turn with this id by a summary. */
  ghost predicate SummarisedAt(actions: seq<Action>, k: int, id: string) {
    && 0 <= k < |actions| && actions[k].Prepare? && Condenses(After(actions[..k]).state, actions[k].c)
    && id in IdSet(Older(After(actions[..k]).state, actions[k].c))
  }

  ghost predicate Told(y: System, id: string) {
    id in y.told || id in y.savedTold
  }

  lemma StepTells(y: System, a: Action, id: string)
    requires Told(Next(y, a), id) && !Told(y, id)
    ensures a.Prepare? && Condenses(y.state, a.c) && id in IdSet(Older(y.state, a.c))
  {
  }

  lemma {:induction false} ToldWasSummarised(actions: seq<Action>, id: string)
    ensures Told(After(actions), id) ==> exists k :: SummarisedAt(actions, k, id)
    decreases |actions|
  {
    if actions != [] && Told(After(actions), id) {
      var n := |actions| - 1;
      if Told(After(actions[..n]), id) {
        ToldWasSummarised(actions[..n], id);
        var k :| SummarisedAt(actions[..n], k, id);
        assert actions[..n][..k] == actions[..k];
        assert SummarisedAt(actions, k, id);
      } else {
        StepTells(After(actions[..n]), actions[n], id);
        assert SummarisedAt(actions, n, id);
      }
    }
  }

  /** Over all runs of successes, failures, restarts and resets: a turn missing from the projection is
      part of what the current summary was made from, and some successful call condensed it. */
  lemma MissingTurnsWereSummarised(actions: seq<Action>, history: seq<Message>, x: Message)
    requires x in history && x !in Active(history, After(actions).state)
    ensures var y := After(actions);
            && y.state.summary != "" && Project(history, y.state)[0] == Note(y.state.summary)
            && x.id in y.told
            && exists k :: SummarisedAt(actions, k, x.id)
  {
    var y := After(actions);
    RunIsSound(actions);
    FilterMembers(history, Outside(Covered(y.state)), x);
    ToldWasSummarised(actions, x.id);
  }

  /** No earlier call of a run has seen the turn. */
  ghost predicate NewIn(actions: seq<Action>, id: string) {
    forall k :: 0 <= k < |actions| && actions[k].Prepare? ==> id !in IdSet(actions[k].c.history)
  }

  lemma SummarisedWasSeen(actions: seq<Action>, k: int, id: string)
    requires SummarisedAt(actions, k, id)
    ensures id in IdSet(actions[k].c.history)
  {
    var m, c := After(actions[..k]).state, actions[k].c;
    var x :| x in Older(m, c) && x.id == id;
    FilterMembers(c.history, Outside(Covered(m)), x);
  }

  lemma NewIsUncovered(actions: seq<Action>, id: string)
    requires NewIn(actions, id)
    ensures id !in Covered(After(actions).state)
  {
    RunIsSound(actions);
    ToldWasSummarised(actions, id);
    if id in After(actions).told {
      var k :| SummarisedAt(actions, k, id);
      SummarisedWasSeen(actions, k, id);
      assert false;
    }
  }

  /** In every run a call whose newest turn no earlier call has seen sends that turn last, if it sends at all. */
  lemma NewTurnSurvivesRuns(actions: seq<Action>, c: Call)
    requires DistinctIds(c.history) && c.history != [] && NewIn(actions, c.history[|c.history| - 1].id)
    requires OutcomeOf(After(actions).state, c).Ready?
    ensures var items, newest := OutcomeOf(After(actions).state, c).items, c.history[|c.history| - 1];
            items != [] && items[|items| - 1] == Turn(newest.user, newest.text, newest.reasoning)
  {
    NewIsUncovered(actions, c.history[|c.history| - 1].id);
    NewestSurvives(After(actions).state, c);
  }

  /** Calls only ever see generated ids, or none. */
  ghost predicate HexCalls(actions: seq<Action>) {
    forall a :: a in actions && a.Prepare? ==> forall x :: x in a.c.history ==> x.id == "" || IsHex(x.id)
  }

  ghost predicate AllHex(ids: seq<string>) {
    forall id :: id in ids ==> IsHex(id)
  }

  lemma CondensedIsHex(m: Memory, c: Call)
    requires AllHex(m.covered) && Condenses(m, c) && forall x :: x in c.history ==> x.id == "" || IsHex(x.id)
    ensures AllHex(StateAfter(m, c).covered)
  {
    var covered := Filter(c.history, Inside(Covered(m) + IdSet(Older(m, c))));
    var active := Active(c.history, m);
    CutIsExact(active);
    forall i | 0 <= i < |covered| ensures IsHex(Ids(covered)[i]) {
      FilterMembers(c.history, Inside(Covered(m) + IdSet(Older(m, c))), covered[i]);
      if covered[i].id in IdSet(Older(m, c)) {
        var j :| 0 <= j < Cut(active) && active[j].id == covered[i].id;
        assert covered[i].id != "";
      }
    }
  }

  ghost predicate HexSystem(y: System) {
    AllHex(y.state.covered) && AllHex(y.saved.covered)
  }

  lemma StepIsHex(y: System, a: Action)
    requires HexSystem(y) && HexCalls([a])
    ensures HexSystem(Next(y, a))
  {
    match a
    case Prepare(c) =>
      assert a in [a];
      if Condenses(y.state, c) {
        CondensedIsHex(y.state, c);
      }
    case Restart => HexOnlyFacts(Last(y.saved.covered, KEPT_IDS));
    case _ =>
  }

  lemma {:induction false} RunIsHex(actions: seq<Action>)
    requires HexCalls(actions)
    ensures HexSystem(After(actions))
    decreases |actions|
  {
    if actions != [] {
      var n := |actions| - 1;
      RunIsHex(actions[..n]);
      StepIsHex(After(actions[..n]), actions[n]);
    }
  }

  /** Storing and restarting gives back the same summary and the same projection. */
  lemma StoreThenRestart(actions: seq<Action>)
    requires HexCalls(actions)
    ensures var y, z := After(actions), After(actions + [Store, Restart]);
            && z.state.summary == y.state.summary && z.state.covered == y.state.covered && z.told == y.told
            && forall history :: Project(history, z.state) == Project(history, y.state)
  {
    RunIsSound(actions);
    RunIsHex(actions);
    var y := After(actions);
    HexOnlyFacts(Last(y.state.covered, KEPT_IDS));
    OneMore(actions, Store);
    OneMore(actions + [Store], Restart);
    assert actions + [Store] + [Restart] == actions + [Store, Restart];
    assert Covered(Restore(y.state)) == Covered(y.state);
  }

  /** A reset forgets the summary: every turn is sent again, as it is. */
  lemma ResetShowsAll(actions: seq<Action>, history: seq<Message>)
    ensures Project(history, After(actions + [Reset]).state) == Turns(history)
  {
    OneMore(actions, Reset);
    FilterAll(history, Outside({}));
  }

  /** A model that reports seven tenths of its context as used brings the next call to summarise, however short
      the conversation, if that is not postponed and it has three turns, all with ids. */
  lemma HeavyUseSummarises(actions: seq<Action>, used: nat, c: Call)
    requires c.limit > 0 && 10 * used >= 7 * c.limit
    requires var m := After(actions).state;
             && m.retryAt as real <= c.now && |Active(c.history, m)| >= 3
             && forall x :: x in Active(c.history, m) ==> x.id != ""
    ensures Summarises(After(actions + [Observe(used)]).state, c)
  {
    OneMore(actions, Observe(used));
    DueIff(Active(c.history, After(actions).state), c.limit, used);
  }

  lemma OneMore(actions: seq<Action>, a: Action)
    ensures After(actions + [a]) == Next(After(actions), a)
  {
    assert (actions + [a])[..|actions|] == actions;
  }
}
