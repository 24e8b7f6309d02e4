/** When the coin mapping of each exchange is rebuilt: a self-heal pass with exponential backoff, a
    regular cycle of all exchanges, and a catch-up for exchanges that joined between two cycles. */
module MappingSchedule {
  import opened Common

  datatype Failure = Failure(fails: nat, retryAt: real)

  datatype State = State(failures: map<string, Failure>, refreshed: map<string, real>, updatedAt: real)

  /** One call and everything it finds: the clock, the exchanges supported, the ones asked for, those
      whose sources are newer than their mapping, the age of the mapping files and which refreshes
      would succeed. */
  datatype Call = Call(now: real, supported: seq<string>, requested: Option<set<string>>,
                       stale: set<string>, mappingTime: map<string, real>, good: set<string>)

  function Get<T>(m: map<string, T>, e: string): Option<T> {
    if e in m then Some(m[e]) else None
  }

  function Lookup<T>(m: map<string, T>, e: string, other: T): T {
    if e in m then m[e] else other
  }

  function Power(n: nat): nat {
    if n == 0 then 1 else 2 * Power(n - 1)
  }

  /** Hours to wait after `n` earlier failures and one more. */
  function Backoff(n: nat): (hours: nat)
    ensures 1 <= hours <= 24
  {
    PowerIsPositive(n);
    if Power(n) < 24 then Power(n) else 24
  }

  lemma PowerIsPositive(n: nat)
    ensures Power(n) >= 1
  {
  }

  ghost predicate ValidState(s: State) {
    forall e :: e in s.failures ==> s.failures[e].fails > 0
  }

  // ---------------------------------------------------------------- what a call must do

  function Member(wanted: set<string>): string -> bool {
    e => e in wanted
  }

  /** The requested exchanges, or all when one of them is not supported. */
  function Selected(c: Call): seq<string> {
    if c.requested.Some? && c.requested.value <= ToSet(c.supported)
    then Filter(c.supported, Member(c.requested.value))
    else c.supported
  }

  function Cutoff(c: Call, interval: real): real {
    c.now - 3600.0 * interval
  }

  predicate Regular(s: State, c: Call, interval: real) {
    s.updatedAt < Cutoff(c, interval)
  }

  /** Stale or failed before, and not waiting for a retry. */
  predicate DueHeal(s: State, c: Call, e: string) {
    && (e in c.stale || e in s.failures)
    && c.now >= (if e in s.failures then s.failures[e].retryAt else 0.0)
  }

  /** In a regular or catch-up cycle only exchanges without any failure record are due. */
  predicate DueCycle(s: State, c: Call, interval: real, e: string) {
    && e !in s.failures && e !in c.stale && c.now >= 0.0
    && (Regular(s, c, interval)
        || (c.requested.Some? && Lookup(s.refreshed, e, Lookup(c.mappingTime, e, 0.0)) < Cutoff(c, interval)))
  }

  predicate Attempted(s: State, c: Call, interval: real, e: string) {
    e in Selected(c) && (DueHeal(s, c, e) || DueCycle(s, c, interval, e))
  }

  /** A failed attempt leaves a record, except in a regular cycle. */
  predicate Recorded(s: State, c: Call, interval: real, e: string) {
    && e in Selected(c) && e !in c.good
    && (DueHeal(s, c, e) || (DueCycle(s, c, interval, e) && !Regular(s, c, interval)))
  }

  function NextFailure(s: State, c: Call, e: string): Failure {
    var fails := if e in s.failures then s.failures[e].fails else 0;
    Failure(fails + 1, c.now + 3600.0 * Backoff(fails) as real)
  }

  function FailureAfter(s: State, c: Call, interval: real, e: string): Option<Failure> {
    if e !in c.supported then None
    else if Recorded(s, c, interval, e) then Some(NextFailure(s, c, e))
    else if Attempted(s, c, interval, e) then None
    else Get(s.failures, e)
  }

  function RefreshedAfter(s: State, c: Call, interval: real, e: string): Option<real> {
    if e !in c.supported then None
    else if Attempted(s, c, interval, e) && e in c.good then Some(c.now)
    else Get(s.refreshed, e)
  }

  /** The state after a call, exchange by exchange. */
  ghost predicate Step(s: State, c: Call, interval: real, t: State) {
    && (forall e :: Get(t.failures, e) == FailureAfter(s, c, interval, e))
    && (forall e :: Get(t.refreshed, e) == RefreshedAfter(s, c, interval, e))
    && t.updatedAt == if Regular(s, c, interval) then c.now else s.updatedAt
  }

  function Heals(s: State, c: Call): string -> bool {
    e => DueHeal(s, c, e)
  }

  function Cycles(s: State, c: Call, interval: real): string -> bool {
    e => DueCycle(s, c, interval, e)
  }

  function HealList(s: State, c: Call): seq<string> {
    Filter(Selected(c), Heals(s, c))
  }

  function CycleList(s: State, c: Call, interval: real): seq<string> {
    Filter(Selected(c), Cycles(s, c, interval))
  }

  // ---------------------------------------------------------------- lists of exchanges

  lemma {:induction false} FilterFacts(s: seq<string>, p: string -> bool)
    requires Distinct(s)
    ensures Distinct(Filter(s, p))
    ensures forall e :: e in Filter(s, p) <==> e in s && p(e)
    decreases |s|
  {
    if s != [] {
      var n := |s| - 1;
      TakeOne(s, n);
      assert s[..n + 1] == s;
      FilterFacts(s[..n], p);
      AppendIsDistinct(Filter(s[..n], p), s[n]);
      FilterOneMore(s, n, p);
    }
  }

  /** What a loop sees when it takes the next exchange of a list without repeats. */
  lemma TakeOne(s: seq<string>, i: nat)
    requires Distinct(s) && i < |s|
    ensures Distinct(s[..i]) && s[i] !in s[..i]
    ensures s[..i + 1][..i] == s[..i] && forall e :: e in s[..i + 1] <==> e in s[..i] || e == s[i]
  {
    forall j, k ensures !Same(s[..i], j, k) {
      assert !Same(s, j, k);
    }
    forall j | 0 <= j < i ensures s[..i][j] != s[i] {
      assert !Same(s, j, i);
    }
    assert s[..i + 1] == s[..i] + [s[i]];
  }

  lemma SelectedFacts(c: Call)
    requires Distinct(c.supported)
    ensures Distinct(Selected(c))
    ensures forall e :: e in Selected(c) ==> e in c.supported
  {
    if c.requested.Some? {
      FilterFacts(c.supported, Member(c.requested.value));
    }
  }

  /** All supported exchanges, or those asked for when each of them is supported. */
  lemma SelectedIff(c: Call, e: string)
    requires Distinct(c.supported)
    ensures e in Selected(c) <==>
            && e in c.supported
            && (c.requested.None? || e in c.requested.value || exists x :: x in c.requested.value && x !in c.supported)
  {
    if c.requested.Some? {
      FilterFacts(c.supported, Member(c.requested.value));
      assert !(c.requested.value <= ToSet(c.supported)) <==>
             exists x :: x in c.requested.value && x !in c.supported;
    }
  }

  lemma AppendIsDistinct(s: seq<string>, e: string)
    ensures Distinct(s) && e !in s ==> Distinct(s + [e])
  {
    if Distinct(s) && e !in s {
      forall i, j ensures !Same(s + [e], i, j) {
        assert !Same(s, i, j);
      }
    }
  }

  // ---------------------------------------------------------------- one call

  /** No call attempts an exchange twice, and none before its retry time. */
  lemma AttemptedOnce(s: State, c: Call, interval: real)
    requires Distinct(c.supported)
    ensures var attempts := HealList(s, c) + CycleList(s, c, interval);
            && Distinct(attempts)
            && (forall e :: e in attempts <==> Attempted(s, c, interval, e))
            && forall e :: e in attempts && e in s.failures ==> c.now >= s.failures[e].retryAt
  {
    SelectedFacts(c);
    var a, b := HealList(s, c), CycleList(s, c, interval);
    FilterFacts(Selected(c), Heals(s, c));
    FilterFacts(Selected(c), Cycles(s, c, interval));
    forall i, j ensures !Same(a + b, i, j) {
      assert !Same(a, i, j) && !Same(b, i - |a|, j - |a|);
      if 0 <= i < |a| <= j < |a + b| {
        assert a[i] in a && b[j - |a|] in b;
      }
    }
  }

  /** What a call does for one exchange. It heals a selected one that is stale or failed before, once its retry
      time has come; it tries one with neither in a cycle, when an interval has passed since the last regular
      cycle, or, if asked for by name, since its own refresh. A success clears the record and stamps the
      refresh. A failure is counted and doubles the wait, but leaves no record in a regular cycle. Nothing else
      changes, and nothing is kept of an exchange that is not supported. */
  ghost predicate Accounts(s: State, c: Call, interval: real, t: State, healing: seq<string>, cycling: seq<string>,
                           e: string) {
    var regular := c.now - s.updatedAt > 3600.0 * interval;
    var fails := if e in s.failures then s.failures[e].fails else 0;
    var last := if e in s.refreshed then s.refreshed[e] else if e in c.mappingTime then c.mappingTime[e] else 0.0;
    && (e in healing <==>
          && e in Selected(c) && (e in c.stale || e in s.failures)
          && c.now >= if e in s.failures then s.failures[e].retryAt else 0.0)
    && (e in cycling <==>
          && e in Selected(c) && e !in c.stale && e !in s.failures && c.now >= 0.0
          && (regular || (c.requested.Some? && c.now - last > 3600.0 * interval)))
    && ((e in healing || e in cycling) && e in c.good ==>
          e !in t.failures && e in t.refreshed && t.refreshed[e] == c.now)
    && ((e in healing || (e in cycling && !regular)) && e !in c.good ==>
          && e in t.failures && t.failures[e] == Failure(fails + 1, c.now + 3600.0 * Backoff(fails) as real)
          && Get(t.refreshed, e) == Get(s.refreshed, e))
    && (e in cycling && regular && e !in c.good ==>
          e !in t.failures && Get(t.refreshed, e) == Get(s.refreshed, e))
    && (e in c.supported && e !in healing && e !in cycling ==>
          Get(t.failures, e) == Get(s.failures, e) && Get(t.refreshed, e) == Get(s.refreshed, e))
    && (e !in c.supported ==> e !in t.failures && e !in t.refreshed)
  }

  lemma StepAccounts(s: State, c: Call, interval: real, t: State, e: string)
    requires Distinct(c.supported) && Step(s, c, interval, t)
    ensures Accounts(s, c, interval, t, HealList(s, c), CycleList(s, c, interval), e)
  {
    SelectedFacts(c);
    FilterFacts(Selected(c), Heals(s, c));
    FilterFacts(Selected(c), Cycles(s, c, interval));
    assert Get(t.failures, e) == FailureAfter(s, c, interval, e);
    assert Get(t.refreshed, e) == RefreshedAfter(s, c, interval, e);
  }

  lemma StepKeepsValid(s: State, c: Call, interval: real, t: State)
    requires ValidState(s) && Step(s, c, interval, t)
    ensures ValidState(t)
  {
    forall e | e in t.failures ensures t.failures[e].fails > 0 {
      assert Get(t.failures, e) == FailureAfter(s, c, interval, e);
    }
  }

  function RetryAt(failures: map<string, Failure>, e: string): real {
    if e in failures then failures[e].retryAt else 0.0
  }

  /** An exchange's record after the self-heal pass went over it, or did not. */
  function HealedFailure(s: State, c: Call, seen: bool, e: string): Option<Failure> {
    if !(seen && DueHeal(s, c, e)) then Get(s.failures, e)
    else if e in c.good then None else Some(NextFailure(s, c, e))
  }

  function HealedRefresh(s: State, c: Call, seen: bool, e: string): Option<real> {
    if seen && DueHeal(s, c, e) && e in c.good then Some(c.now) else Get(s.refreshed, e)
  }

  /** The cycle skips what the self-heal pass refreshed and what waits for a retry. */
  predicate HasTurn(t: State, c: Call, healed: set<string>, e: string) {
    e !in healed && c.now >= RetryAt(t.failures, e)
  }

  function Turn(t: State, c: Call, healed: set<string>): string -> bool {
    e => HasTurn(t, c, healed, e)
  }

  predicate IsOverdue(t: State, c: Call, interval: real, healed: set<string>, e: string) {
    HasTurn(t, c, healed, e) && Lookup(t.refreshed, e, Lookup(c.mappingTime, e, 0.0)) < Cutoff(c, interval)
  }

  function Overdue(t: State, c: Call, interval: real, healed: set<string>): string -> bool {
    e => IsOverdue(t, c, interval, healed, e)
  }

  function TriedFailure(t: State, c: Call, regular: bool, tried: bool, e: string): Option<Failure> {
    if !tried then Get(t.failures, e)
    else if e in c.good then None
    else if regular then Get(t.failures, e)
    else Some(NextFailure(t, c, e))
  }

  /** What the self-heal pass leaves behind. */
  ghost predicate Healed(s: State, c: Call, selected: seq<string>, healed: set<string>, t: State) {
    && (forall e :: e in healed <==> e in selected && DueHeal(s, c, e) && e in c.good)
    && (forall e :: Get(t.failures, e) == HealedFailure(s, c, e in selected, e))
    && (forall e :: Get(t.refreshed, e) == HealedRefresh(s, c, e in selected, e))
    && t.updatedAt == s.updatedAt
  }

  /** After the self-heal pass, only exchanges that had no record and nothing to heal get a turn. */
  lemma TurnIff(s: State, c: Call, selected: seq<string>, healed: set<string>, t: State, e: string)
    requires Healed(s, c, selected, healed, t) && e in selected
    ensures HasTurn(t, c, healed, e) <==> e !in s.failures && e !in c.stale && c.now >= 0.0
    ensures HasTurn(t, c, healed, e) ==> Get(t.refreshed, e) == Get(s.refreshed, e) && e !in t.failures
  {
    assert Get(t.failures, e) == HealedFailure(s, c, true, e);
    assert Get(t.refreshed, e) == HealedRefresh(s, c, true, e);
  }

  /** The two loops after the self-heal pass attempt exactly the exchanges due in the cycle. */
  lemma CycleIsExact(s: State, c: Call, interval: real, selected: seq<string>, healed: set<string>, t: State)
    requires Healed(s, c, selected, healed, t)
    ensures var cycle := if Regular(s, c, interval) then selected else if c.requested.None? then []
                         else Filter(selected, Overdue(t, c, interval, healed));
            Filter(cycle, Turn(t, c, healed)) == Filter(selected, Cycles(s, c, interval))
  {
    forall e | e in selected
      ensures HasTurn(t, c, healed, e) <==> e !in s.failures && e !in c.stale && c.now >= 0.0
      ensures HasTurn(t, c, healed, e) ==> Get(t.refreshed, e) == Get(s.refreshed, e)
    {
      TurnIff(s, c, selected, healed, t, e);
    }
    if Regular(s, c, interval) {
      FilterAgree(selected, Turn(t, c, healed), Cycles(s, c, interval));
    } else if c.requested.None? {
      FilterNone(selected, Cycles(s, c, interval));
    } else {
      FilterTwice(selected, Overdue(t, c, interval, healed), Turn(t, c, healed), Overdue(t, c, interval, healed));
      FilterAgree(selected, Overdue(t, c, interval, healed), Cycles(s, c, interval));
    }
  }

  /** What the cycle leaves behind. */
  ghost predicate Cycled(t: State, c: Call, regular: bool, attempts: seq<string>, u: State) {
    && (forall e :: Get(u.failures, e) == TriedFailure(t, c, regular, e in attempts, e))
    && (forall e :: Get(u.refreshed, e) == if e in attempts && e in c.good then Some(c.now) else Get(t.refreshed, e))
    && u.updatedAt == t.updatedAt
  }

  /** The state after one more attempt, successful or not. */
  function AfterAttempt(t: State, c: Call, recorded: bool, e: string): State {
    if e in c.good then State(t.failures - {e}, t.refreshed[e := c.now], t.updatedAt)
    else if recorded then t.(failures := t.failures[e := NextFailure(t, c, e)])
    else t
  }

  lemma HealStep(s: State, c: Call, seen: seq<string>, more: seq<string>, e: string, healed: set<string>, t: State)
    requires Healed(s, c, seen, healed, t) && e !in seen
    requires forall x :: x in more <==> x in seen || x == e
    ensures DueHeal(t, c, e) == DueHeal(s, c, e)
    ensures if DueHeal(s, c, e) then
              Healed(s, c, more, if e in c.good then healed + {e} else healed, AfterAttempt(t, c, true, e))
            else Healed(s, c, more, healed, t)
  {
    assert Get(t.failures, e) == HealedFailure(s, c, false, e);
    assert Get(t.refreshed, e) == HealedRefresh(s, c, false, e);
    if DueHeal(s, c, e) {
      var u := AfterAttempt(t, c, true, e);
      forall x
        ensures Get(u.failures, x) == HealedFailure(s, c, x in more, x)
        ensures Get(u.refreshed, x) == HealedRefresh(s, c, x in more, x)
      {
        assert Get(t.failures, x) == HealedFailure(s, c, x in seen, x);
        assert Get(t.refreshed, x) == HealedRefresh(s, c, x in seen, x);
      }
    }
  }

  lemma CycleStep(t: State, c: Call, regular: bool, attempts: seq<string>, e: string, u: State)
    requires Cycled(t, c, regular, attempts, u) && e !in attempts
    ensures Get(u.failures, e) == Get(t.failures, e)
    ensures Cycled(t, c, regular, attempts + [e], AfterCycleAttempt(u, c, regular, e))
  {
    var more, v := attempts + [e], AfterCycleAttempt(u, c, regular, e);
    assert Get(u.failures, e) == TriedFailure(t, c, regular, false, e);
    forall x
      ensures Get(v.failures, x) == TriedFailure(t, c, regular, x in more, x)
      ensures Get(v.refreshed, x) == if x in more && x in c.good then Some(c.now) else Get(t.refreshed, x)
    {
      assert Get(u.failures, x) == TriedFailure(t, c, regular, x in attempts, x);
    }
  }

  function AfterCycleAttempt(t: State, c: Call, regular: bool, e: string): State {
    AfterAttempt(t, c, !regular, e)
  }

  /** Records of exchanges no longer supported are dropped first; the others do not notice. */
  ghost predicate Dropped(s: State, c: Call, k: State) {
    && (forall e :: Get(k.failures, e) == if e in c.supported then Get(s.failures, e) else None)
    && (forall e :: Get(k.refreshed, e) == if e in c.supported then Get(s.refreshed, e) else None)
    && k.updatedAt == s.updatedAt
  }

  lemma DroppedDecidesAlike(s: State, c: Call, interval: real, k: State, e: string)
    requires Dropped(s, c, k) && e in c.supported
    ensures DueHeal(k, c, e) == DueHeal(s, c, e) && DueCycle(k, c, interval, e) == DueCycle(s, c, interval, e)
    ensures NextFailure(k, c, e) == NextFailure(s, c, e)
  {
    assert Get(k.failures, e) == Get(s.failures, e) && Get(k.refreshed, e) == Get(s.refreshed, e);
  }

  /** The three passes together make one step. */
  lemma PassesMakeAStep(s: State, c: Call, interval: real, k: State, healed: set<string>, t: State,
                        cycling: seq<string>, u: State)
    requires Distinct(c.supported) && Dropped(s, c, k) && Healed(k, c, Selected(c), healed, t)
    requires cycling == CycleList(k, c, interval)
    requires Cycled(t, c, Regular(s, c, interval), cycling, u)
    ensures var now := if Regular(s, c, interval) then c.now else s.updatedAt;
            Step(s, c, interval, u.(updatedAt := now))
  {
    SelectedFacts(c);
    FilterFacts(Selected(c), Cycles(k, c, interval));
    forall e
      ensures Get(u.failures, e) == FailureAfter(s, c, interval, e)
      ensures Get(u.refreshed, e) == RefreshedAfter(s, c, interval, e)
    {
      PassesAgree(s, c, interval, k, healed, t, cycling, u, e);
    }
  }

  lemma PassesAgree(s: State, c: Call, interval: real, k: State, healed: set<string>, t: State,
                    cycling: seq<string>, u: State, e: string)
    requires Dropped(s, c, k) && Healed(k, c, Selected(c), healed, t)
    requires e in Selected(c) ==> e in c.supported
    requires e in cycling <==> e in Selected(c) && DueCycle(k, c, interval, e)
    requires Cycled(t, c, Regular(s, c, interval), cycling, u)
    ensures Get(u.failures, e) == FailureAfter(s, c, interval, e)
    ensures Get(u.refreshed, e) == RefreshedAfter(s, c, interval, e)
  {
    assert Get(k.failures, e) == if e in c.supported then Get(s.failures, e) else None;
    assert Get(k.refreshed, e) == if e in c.supported then Get(s.refreshed, e) else None;
    assert Get(t.failures, e) == HealedFailure(k, c, e in Selected(c), e);
    assert Get(t.refreshed, e) == HealedRefresh(k, c, e in Selected(c), e);
    assert Get(u.failures, e) == TriedFailure(t, c, Regular(s, c, interval), e in cycling, e);
    if e in c.supported {
      DroppedDecidesAlike(s, c, interval, k, e);
    }
  }

  lemma DroppedListsAlike(s: State, c: Call, interval: real, k: State)
    requires Distinct(c.supported) && Dropped(s, c, k)
    ensures HealList(k, c) == HealList(s, c) && CycleList(k, c, interval) == CycleList(s, c, interval)
  {
    SelectedFacts(c);
    forall e | e in Selected(c)
      ensures Heals(k, c)(e) == Heals(s, c)(e) && Cycles(k, c, interval)(e) == Cycles(s, c, interval)(e)
    {
      DroppedDecidesAlike(s, c, interval, k, e);
    }
    FilterAgree(Selected(c), Heals(k, c), Heals(s, c));
    FilterAgree(Selected(c), Cycles(k, c, interval), Cycles(s, c, interval));
  }

  lemma AllPasses(s: State, c: Call, interval: real, k: State, healed: set<string>, t: State,
                  cycle: seq<string>, cycling: seq<string>, u: State)
    requires Distinct(c.supported) && Dropped(s, c, k) && Healed(k, c, Selected(c), healed, t)
    requires cycle == if Regular(s, c, interval) then Selected(c) else if c.requested.None? then []
                      else Filter(Selected(c), Overdue(t, c, interval, healed))
    requires cycling == Filter(cycle, Turn(t, c, healed)) && Cycled(t, c, Regular(s, c, interval), cycling, u)
    ensures HealList(k, c) == HealList(s, c) && cycling == CycleList(s, c, interval)
    ensures Step(s, c, interval, u.(updatedAt := if Regular(s, c, interval) then c.now else s.updatedAt))
  {
    CycleIsExact(k, c, interval, Selected(c), healed, t);
    DroppedListsAlike(s, c, interval, k);
    PassesMakeAStep(s, c, interval, k, healed, t, cycling, u);
  }

  class MappingScheduler {
    const interval: real
    var failures: map<string, Failure>
    var refreshed: map<string, real>
    var updatedAt: real

    constructor (interval: real)
      ensures this.interval == interval
      ensures failures == map[] && refreshed == map[] && updatedAt == 0.0
    {
      this.interval := interval;
      failures, refreshed, updatedAt := map[], map[], 0.0;
    }

    function Now(): State
      reads this
    {
      State(failures, refreshed, updatedAt)
    }

    method RecordFailure(e: string, c: Call)
      modifies this`failures
      ensures failures == old(failures)[e := NextFailure(old(Now()), c, e)]
    {
      var fails := if e in failures then failures[e].fails else 0;
      failures := failures[e := Failure(fails + 1, c.now + 3600.0 * Backoff(fails) as real)];
    }

    /** The self-heal pass. */
    method SelfHeal(c: Call, selected: seq<string>) returns (attempts: seq<string>, healed: set<string>)
      requires Distinct(selected) && ValidState(Now())
      modifies this`failures, this`refreshed
      ensures attempts == Filter(selected, Heals(old(Now()), c))
      ensures Healed(old(Now()), c, selected, healed, Now())
    {
      attempts, healed := [], {};
      ghost var s := Now();
      for i := 0 to |selected|
        invariant attempts == Filter(selected[..i], Heals(s, c))
        invariant Healed(s, c, selected[..i], healed, Now())
        invariant ValidState(Now())
      {
        var e := selected[i];
        TakeOne(selected, i);
        FilterOneMore(selected, i, Heals(s, c));
        HealStep(s, c, selected[..i], selected[..i + 1], e, healed, Now());
        ghost var before := Now();
        var needsHeal := e in c.stale;
        if !needsHeal && e in failures && failures[e].fails != 0 {
          needsHeal := true;
        }
        if needsHeal && c.now >= RetryAt(failures, e) {
          attempts := attempts + [e];
          if e in c.good {
            healed := healed + {e};
            refreshed := refreshed[e := c.now];
            failures := failures - {e};
          } else {
            RecordFailure(e, c);
          }
          assert Now() == AfterAttempt(before, c, true, e);
        }
      }
      assert selected[..|selected|] == selected;
    }

    /** The exchanges of the cycle that follows: all in a regular one, else the overdue ones. */
    method ChooseCycle(c: Call, selected: seq<string>, healed: set<string>, regular: bool) returns (cycle: seq<string>)
      ensures cycle == if regular then selected else if c.requested.None? then []
                       else Filter(selected, Overdue(Now(), c, interval, healed))
    {
      if regular {
        return selected;
      }
      cycle := [];
      if c.requested.Some? {
        ghost var t := Now();
        ghost var due := Overdue(t, c, interval, healed);
        for i := 0 to |selected|
          invariant cycle == Filter(selected[..i], due)
        {
          var e := selected[i];
          assert selected[..i + 1][..i] == selected[..i];
          FilterOneMore(selected, i, due);
          if e !in healed {
            var last := Lookup(refreshed, e, Lookup(c.mappingTime, e, 0.0));
            if last < Cutoff(c, interval) && c.now >= RetryAt(failures, e) {
              cycle := cycle + [e];
            }
          }
        }
        assert selected[..|selected|] == selected;
      }
    }

    /** The cycle itself. */
    method RunCycle(c: Call, cycle: seq<string>, healed: set<string>, regular: bool) returns (attempts: seq<string>)
      requires Distinct(cycle)
      modifies this`failures, this`refreshed
      ensures attempts == Filter(cycle, Turn(old(Now()), c, healed))
      ensures Cycled(old(Now()), c, regular, attempts, Now())
    {
      attempts := [];
      ghost var s := Now();
      for i := 0 to |cycle|
        invariant attempts == Filter(cycle[..i], Turn(s, c, healed))
        invariant Cycled(s, c, regular, attempts, Now())
      {
        var e := cycle[i];
        TakeOne(cycle, i);
        FilterOneMore(cycle, i, Turn(s, c, healed));
        FilterFacts(cycle[..i], Turn(s, c, healed));
        CycleStep(s, c, regular, attempts, e, Now());
        ghost var before := Now();
        if e !in healed && c.now >= RetryAt(failures, e) {
          attempts := attempts + [e];
          if e in c.good {
            refreshed := refreshed[e := c.now];
            failures := failures - {e};
          } else if !regular {
            RecordFailure(e, c);
          }
          assert Now() == AfterCycleAttempt(before, c, regular, e);
        }
      }
      assert cycle[..|cycle|] == cycle;
    }

    method DropUnsupported(c: Call)
      modifies this`failures, this`refreshed
      ensures Dropped(old(Now()), c, Now())
      ensures old(ValidState(Now())) ==> ValidState(Now())
    {
      failures := map e | e in failures && e in c.supported :: failures[e];
      refreshed := map e | e in refreshed && e in c.supported :: refreshed[e];
    }

    method UpdateMappings(c: Call) returns (healing: seq<string>, cycling: seq<string>)
      requires Distinct(c.supported) && ValidState(Now())
      modifies this
      ensures healing == HealList(old(Now()), c)
      ensures cycling == CycleList(old(Now()), c, interval)
      ensures Step(old(Now()), c, interval, Now()) && ValidState(Now())
      ensures forall e :: Accounts(old(Now()), c, interval, Now(), healing, cycling, e)
      ensures updatedAt == if c.now - old(updatedAt) > 3600.0 * interval then c.now else old(updatedAt)
    {
      var selected := Selected(c);
      SelectedFacts(c);
      DropUnsupported(c);
      ghost var kept := Now();
      var regular := updatedAt < Cutoff(c, interval);
      var healed;
      healing, healed := SelfHeal(c, selected);
      ghost var mid := Now();
      var cycle := ChooseCycle(c, selected, healed, regular);
      FilterFacts(selected, Overdue(mid, c, interval, healed));
      cycling := RunCycle(c, cycle, healed, regular);
      AllPasses(old(Now()), c, interval, kept, healed, mid, cycle, cycling, Now());
      StepKeepsValid(old(Now()), c, interval, Now().(updatedAt := if regular then c.now else updatedAt));
      if regular {
        updatedAt := c.now;
      }
      forall e ensures Accounts(old(Now()), c, interval, Now(), healing, cycling, e) {
        StepAccounts(old(Now()), c, interval, Now(), e);
      }
    }
  }

  // ---------------------------------------------------------------- runs of calls

  /** States before and after each call of a run from a fresh start. */
  ghost predicate Run(states: seq<State>, calls: seq<Call>, interval: real) {
    && |states| == |calls| + 1 && states[0].failures == map[]
    && forall i :: 0 <= i < |calls| ==> Stepped(states, calls, interval, i)
  }

  ghost predicate Stepped(states: seq<State>, calls: seq<Call>, interval: real, i: int) {
    0 <= i < |calls| && i + 1 < |states| && Step(states[i], calls[i], interval, states[i + 1])
  }

  /** The times of the failures recorded since the exchange last had no record. */
  ghost function FailureTimes(states: seq<State>, calls: seq<Call>, interval: real, e: string, n: nat): seq<real>
    requires n <= |calls| < |states|
  {
    if n == 0 || e !in states[n].failures then []
    else
      FailureTimes(states, calls, interval, e, n - 1)
      + if Recorded(states[n - 1], calls[n - 1], interval, e) then [calls[n - 1].now] else []
  }

  ghost predicate Spaced(times: seq<real>) {
    forall i :: 0 < i < |times| ==> times[i] - times[i - 1] >= Hours(i - 1)
  }

  /** The wait after the failure at position `i`. */
  function Hours(i: nat): real {
    3600.0 * Backoff(i) as real
  }

  ghost predicate Recollects(f: Option<Failure>, times: seq<real>) {
    match f
    case None => times == []
    case Some(f) =>
      f.fails == |times| > 0 && f.retryAt == times[|times| - 1] + Hours(|times| - 1)
  }

  lemma {:induction false} RecordTellsHistory(states: seq<State>, calls: seq<Call>, interval: real, e: string, n: nat)
    requires Run(states, calls, interval) && n <= |calls|
    ensures Recollects(Get(states[n].failures, e), FailureTimes(states, calls, interval, e, n))
    ensures Spaced(FailureTimes(states, calls, interval, e, n))
    decreases n
  {
    if n > 0 {
      RecordTellsHistory(states, calls, interval, e, n - 1);
      assert Stepped(states, calls, interval, n - 1);
      StepRecollects(states[n - 1], calls[n - 1], interval, states[n], e,
                     FailureTimes(states, calls, interval, e, n - 1));
    }
  }

  /** A failure is recorded only once the wait after the previous one is over. */
  lemma StepRecollects(s: State, c: Call, interval: real, t: State, e: string, times: seq<real>)
    requires Step(s, c, interval, t) && Recollects(Get(s.failures, e), times) && Spaced(times)
    ensures var more := if e !in t.failures then []
                        else times + if Recorded(s, c, interval, e) then [c.now] else [];
            Recollects(Get(t.failures, e), more) && Spaced(more)
  {
    assert Get(t.failures, e) == FailureAfter(s, c, interval, e);
    if e in t.failures && Recorded(s, c, interval, e) {
      assert t.failures[e] == NextFailure(s, c, e);
      var more := times + [c.now];
      forall i | 0 < i < |more| ensures more[i] - more[i - 1] >= Hours(i - 1) {
        if i < |times| {
          assert times[i] - times[i - 1] >= Hours(i - 1);
        }
      }
    } else {
      assert times + [] == times;
    }
  }

  /** The least time that `n` failures in a row take. */
  function Wait(n: nat): real {
    if n <= 1 then 0.0 else Wait(n - 1) + Hours(n - 2)
  }

  lemma {:induction false} SpacedSpan(times: seq<real>)
    requires Spaced(times) && times != []
    ensures times[|times| - 1] - times[0] >= Wait(|times|)
    decreases |times|
  {
    var n := |times| - 1;
    if n > 0 {
      assert forall i :: 0 < i < n ==> times[..n][i] - times[..n][i - 1] >= Hours(i - 1);
      SpacedSpan(times[..n]);
    }
  }

  /** In every run, failures recorded in a row are at least the whole backoff apart. */
  lemma FailuresBackOff(states: seq<State>, calls: seq<Call>, interval: real, e: string, n: nat)
    requires Run(states, calls, interval) && n <= |calls| && e in states[n].failures
    ensures var times := FailureTimes(states, calls, interval, e, n);
            && |times| == states[n].failures[e].fails > 0
            && times[|times| - 1] - times[0] >= Wait(|times|)
  {
    RecordTellsHistory(states, calls, interval, e, n);
    SpacedSpan(FailureTimes(states, calls, interval, e, n));
  }

  /** From the sixth failure on a day passes each time. */
  lemma {:induction false} WaitInClosedForm(n: nat)
    requires n >= 6
    ensures Wait(n) == 3600.0 * (31 + 24 * (n - 6)) as real
    decreases n
  {
    BackoffSaturates(n - 2);
    if n > 6 {
      WaitInClosedForm(n - 1);
    } else {
      assert Wait(6) == 3600.0 * 31.0;
    }
  }

  /** The first wait is an hour, and each further one twice the wait before it, up to a day. */
  lemma BackoffDoubles(n: nat)
    ensures Backoff(0) == 1 && Backoff(n + 1) == if 2 * Backoff(n) < 24 then 2 * Backoff(n) else 24
  {
    PowerIsPositive(n);
  }

  lemma {:induction false} BackoffSaturates(i: nat)
    ensures i >= 5 ==> Power(i) >= 32 && Backoff(i) == 24
    decreases i
  {
    if i > 5 {
      BackoffSaturates(i - 1);
    } else if i == 5 {
      assert Power(5) == 32;
    }
  }

  /** A failure in a regular cycle leaves no record, and until another interval has passed the exchange
      is tried again only when its mapping is stale or it is asked for by name. */
  lemma RegularFailureWaits(s: State, c: Call, t: State, d: Call, interval: real, e: string)
    requires Step(s, c, interval, t) && Regular(s, c, interval)
    requires Distinct(c.supported) && e in Selected(c) && DueCycle(s, c, interval, e) && e !in c.good
    requires d.now >= 0.0 && d.now - 3600.0 * interval <= c.now && e in Selected(d)
    ensures e !in t.failures
    ensures Attempted(t, d, interval, e) <==>
            e in d.stale || (d.requested.Some?
                && Lookup(s.refreshed, e, Lookup(d.mappingTime, e, 0.0)) < Cutoff(d, interval))
  {
    SelectedFacts(c);
    assert Get(t.failures, e) == FailureAfter(s, c, interval, e);
    assert Get(t.refreshed, e) == RefreshedAfter(s, c, interval, e);
  }
}
