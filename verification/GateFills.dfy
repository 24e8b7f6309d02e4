/** The Gate.io fill reader: windows in whole seconds, paged backwards from now, retried with
    half the span while a page is full. Fill timestamps are seconds here. */
module GateFills {
  import opened Feed

  const HOUR := 60 * 60
  const WEEK := 7 * 24 * HOUR

  const GATE := Plan(HOUR, WEEK, 4 * WEEK, 100)

  ghost predicate InRange(plan: Plan, span: int) {
    plan.Valid() && plan.minSpan <= span <= plan.maxSpan
  }

  /** All fills collected from `end` down to `since`. A retry keeps the end and lowers the span;
      an accepted page lowers the end. */
  ghost function Scan(feed: seq<Fill>, plan: Plan, since: int, end: int, span: int, out: seq<Fill>): seq<Fill>
    requires InRange(plan, span)
    decreases end - since, span
  {
    if end <= since then out
    else
      var start := Max(since, end - span);
      var page := Query(feed, start, end, plan.limit);
      if |page| >= plan.limit && span > plan.minSpan
      then Scan(feed, plan, since, end, Max(plan.minSpan, span / 2), out)
      else Scan(feed, plan, since, start - 1, NextSpan(plan, span, page), Absorb(out, page))
  }

  method ScanPages(feed: seq<Fill>, plan: Plan, since: int, now: int) returns (executions: seq<Fill>)
    requires plan.Valid()
    ensures executions == Scan(feed, plan, since, now, plan.initialSpan, [])
    ensures DistinctIds(executions)
  {
    executions := [];
    var seen: set<string> := {};
    var span: int := plan.initialSpan;
    var end := now;
    while end > since
      invariant InRange(plan, span)
      invariant seen == Ids(executions) && DistinctIds(executions)
      invariant Scan(feed, plan, since, end, span, executions) == Scan(feed, plan, since, now, plan.initialSpan, [])
      decreases end - since, span
    {
      var start := Max(since, end - span);
      var page := Query(feed, start, end, plan.limit);
      if |page| >= plan.limit && span > plan.minSpan {
        span := Max(plan.minSpan, span / 2);
        continue;
      }
      if page != [] {
        span := plan.initialSpan;
        AbsorbKeepsDistinct(executions, page);
        var maxTs, nNew;
        seen, executions, maxTs, nNew := AbsorbPage(end, seen, executions, page);
      } else {
        span := Min(span * 2, plan.maxSpan);
      }
      end := start - 1;
    }
  }

  /** The reader as configured: no fill twice, and every fill strictly after `since` up to `now`
      exactly once when no minimum window is crowded. */
  method FetchFills(feed: seq<Fill>, since: int, now: int) returns (executions: seq<Fill>)
    ensures DistinctIds(executions)
    ensures WellFormed(feed) && Uncrowded(feed, GATE) ==> ExactlyAfter(feed, since, now, executions)
  {
    executions := ScanPages(feed, GATE, since, now);
    if WellFormed(feed) && Uncrowded(feed, GATE) {
      UncrowdedIsExact(feed, GATE, since, now);
    }
  }

  // ---------------------------------------------------------------- completeness

  /** The fills of the minimum window that ends at second `e`; both ends are included. */
  ghost function MinWindow(feed: seq<Fill>, plan: Plan, e: int): seq<Fill> {
    Window(feed, e - plan.minSpan, e)
  }

  ghost predicate Uncrowded(feed: seq<Fill>, plan: Plan) {
    forall e :: |MinWindow(feed, plan, e)| <= plan.limit
  }

  /** `out` is the stretch feed[lo..top] up to order. */
  ghost predicate IsStretch(feed: seq<Fill>, lo: int, top: int, out: seq<Fill>) {
    0 <= lo <= top <= |feed| && multiset(out) == multiset(feed[lo..top])
  }

  /** The collected fills are, up to order, the feed from second `since` or `since` + 1 to `now`. */
  ghost predicate ExactlyAfter(feed: seq<Fill>, since: int, now: int, out: seq<Fill>) {
    now > since ==> exists lo :: StartsAt(feed, since, lo) && IsStretch(feed, lo, Rank(feed, now + 1), out)
  }

  ghost predicate StartsAt(feed: seq<Fill>, since: int, lo: int) {
    Rank(feed, since) <= lo <= Rank(feed, since + 1)
  }

  /** In an uncrowded feed an accepted page is its whole window. */
  lemma AcceptedPage(feed: seq<Fill>, plan: Plan, start: int, end: int, span: int)
    requires Chronological(feed) && InRange(plan, span) && Uncrowded(feed, plan)
    requires end - span <= start <= end
    requires |Query(feed, start, end, plan.limit)| < plan.limit || span == plan.minSpan
    ensures Rank(feed, start) <= Rank(feed, end + 1)
    ensures Query(feed, start, end, plan.limit) == feed[Rank(feed, start)..Rank(feed, end + 1)]
  {
    QueryIsSlice(feed, start, end, plan.limit);
    if span == plan.minSpan {
      assert |MinWindow(feed, plan, end)| <= plan.limit;
      WindowIsSlice(feed, end - plan.minSpan, end);
      RankMonotone(feed, end - plan.minSpan, start);
    }
  }

  /** Absorbing the next earlier slice appends it whole. */
  lemma AbsorbEarlier(feed: seq<Fill>, out: seq<Fill>, a: nat, b: nat, top: nat)
    requires WellFormed(feed) && a <= b && IsStretch(feed, b, top, out)
    ensures IsStretch(feed, a, top, Absorb(out, feed[a..b]))
  {
    forall i | 0 <= i < b - a ensures feed[a..b][i].id !in Ids(out) {
      EarlierIdIsFresh(feed, out, a + i, b, top);
    }
    SliceWellFormed(feed, a, b);
    AbsorbFresh(out, feed[a..b]);
    LongerStretch(feed, out, a, b, top);
  }

  lemma LongerStretch(feed: seq<Fill>, out: seq<Fill>, a: nat, b: nat, top: nat)
    requires a <= b && IsStretch(feed, b, top, out)
    ensures IsStretch(feed, a, top, out + feed[a..b])
  {
    assert feed[a..top] == feed[a..b] + feed[b..top];
  }

  lemma EarlierIdIsFresh(feed: seq<Fill>, out: seq<Fill>, i: nat, b: nat, top: nat)
    requires DistinctIds(feed) && i < b && IsStretch(feed, b, top, out)
    ensures feed[i].id !in Ids(out)
  {
    forall j | 0 <= j < |out| ensures out[j].id != feed[i].id {
      assert out[j] in multiset(out);
      assert out[j] in feed[b..top];
      var n :| 0 <= n < top - b && feed[b..top][n] == out[j];
      assert Apart(feed, i, b + n);
    }
  }

  ghost predicate YieldsExact(feed: seq<Fill>, plan: Plan, since: int, now: int, end: int, span: int, out: seq<Fill>)
    requires InRange(plan, span)
  {
    ExactlyAfter(feed, since, now, Scan(feed, plan, since, end, span, out))
  }

  /** One accepted page of an uncrowded feed. */
  lemma AcceptedRound(feed: seq<Fill>, plan: Plan, since: int, end: int, span: int, top: nat, out: seq<Fill>)
    returns (start: int, page: seq<Fill>, out': seq<Fill>)
    requires WellFormed(feed) && InRange(plan, span) && Uncrowded(feed, plan) && end > since
    requires |Query(feed, Max(since, end - span), end, plan.limit)| < plan.limit || span <= plan.minSpan
    requires IsStretch(feed, Rank(feed, end + 1), top, out)
    ensures start == Max(since, end - span) && page == Query(feed, start, end, plan.limit) && out' == Absorb(out, page)
    ensures IsStretch(feed, Rank(feed, start), top, out') && since <= start <= end
  {
    start := Max(since, end - span);
    page := Query(feed, start, end, plan.limit);
    out' := Absorb(out, page);
    AcceptedPage(feed, plan, start, end, span);
    AbsorbEarlier(feed, out, Rank(feed, start), Rank(feed, end + 1), top);
  }

  /** Both kinds of round hand the claim on to the next one. */
  lemma RetryYields(feed: seq<Fill>, plan: Plan, since: int, now: int, end: int, span: int, out: seq<Fill>)
    requires InRange(plan, span) && end > since && span > plan.minSpan
    requires |Query(feed, Max(since, end - span), end, plan.limit)| >= plan.limit
    requires YieldsExact(feed, plan, since, now, end, Max(plan.minSpan, span / 2), out)
    ensures YieldsExact(feed, plan, since, now, end, span, out)
  {
  }

  lemma AcceptYields(feed: seq<Fill>, plan: Plan, since: int, now: int, end: int, span: int, out: seq<Fill>,
                     start: int, page: seq<Fill>)
    requires InRange(plan, span) && end > since
    requires start == Max(since, end - span) && page == Query(feed, start, end, plan.limit)
    requires |page| < plan.limit || span == plan.minSpan
    requires YieldsExact(feed, plan, since, now, start - 1, NextSpan(plan, span, page), Absorb(out, page))
    ensures YieldsExact(feed, plan, since, now, end, span, out)
  {
  }

  lemma ReachedSince(feed: seq<Fill>, since: int, now: int, end: int, out: seq<Fill>)
    requires Chronological(feed) && since - 1 <= end <= since
    requires IsStretch(feed, Rank(feed, end + 1), Rank(feed, now + 1), out)
    ensures ExactlyAfter(feed, since, now, out)
  {
    RankMonotone(feed, since, end + 1);
    RankMonotone(feed, end + 1, since + 1);
    assert StartsAt(feed, since, Rank(feed, end + 1));
  }

  lemma {:induction false} UncrowdedScan(feed: seq<Fill>, plan: Plan, since: int, now: int, end: int, span: int,
                                         out: seq<Fill>)
    requires WellFormed(feed) && InRange(plan, span) && Uncrowded(feed, plan) && since - 1 <= end <= now
    requires IsStretch(feed, Rank(feed, end + 1), Rank(feed, now + 1), out)
    ensures YieldsExact(feed, plan, since, now, end, span, out)
    decreases end - since, span
  {
    if end <= since {
      ReachedSince(feed, since, now, end, out);
    } else if |Query(feed, Max(since, end - span), end, plan.limit)| >= plan.limit && span > plan.minSpan {
      UncrowdedScan(feed, plan, since, now, end, Max(plan.minSpan, span / 2), out);
      RetryYields(feed, plan, since, now, end, span, out);
    } else {
      var start, page, out' := AcceptedRound(feed, plan, since, end, span, Rank(feed, now + 1), out);
      UncrowdedScan(feed, plan, since, now, start - 1, NextSpan(plan, span, page), out');
      AcceptYields(feed, plan, since, now, end, span, out, start, page);
    }
  }

  lemma UncrowdedIsExact(feed: seq<Fill>, plan: Plan, since: int, now: int)
    requires WellFormed(feed) && plan.Valid() && Uncrowded(feed, plan)
    ensures YieldsExact(feed, plan, since, now, now, plan.initialSpan, [])
  {
    if now > since {
      UncrowdedScan(feed, plan, since, now, now, plan.initialSpan, []);
    }
  }

  /** Every fill strictly after `since`, up to `now`, is returned. */
  ghost predicate CompleteFrom(feed: seq<Fill>, plan: Plan, since: int, now: int)
    requires plan.Valid()
  {
    Complete(feed, since + 1, now + 1, Scan(feed, plan, since, now, plan.initialSpan, []))
  }

  lemma ExactIsComplete(feed: seq<Fill>, since: int, now: int, out: seq<Fill>)
    requires WellFormed(feed) && ExactlyAfter(feed, since, now, out)
    ensures Complete(feed, since + 1, now + 1, out)
  {
    if now > since {
      var lo :| StartsAt(feed, since, lo) && IsStretch(feed, lo, Rank(feed, now + 1), out);
      forall f | f in feed && since + 1 <= f.ts < now + 1 ensures f in out {
        StretchHolds(feed, since, now, lo, out, f);
      }
    }
  }

  lemma StretchHolds(feed: seq<Fill>, since: int, now: int, lo: nat, out: seq<Fill>, f: Fill)
    requires Chronological(feed) && lo <= Rank(feed, since + 1) && IsStretch(feed, lo, Rank(feed, now + 1), out)
    requires f in feed && since < f.ts <= now
    ensures f in out
  {
    var i :| 0 <= i < |feed| && feed[i] == f;
    RankSplits(feed, since + 1);
    RankSplits(feed, now + 1);
    assert feed[lo..Rank(feed, now + 1)][i - lo] == f;
    assert f in multiset(out);
  }

  // ---------------------------------------------------------------- the other direction

  lemma {:induction false} ScanNeverReturns(feed: seq<Fill>, plan: Plan, since: int, end: int, span: int,
                                            out: seq<Fill>, f: Fill)
    requires InRange(plan, span) && f !in out && end < f.ts
    ensures Misses(feed, plan, since, end, span, out, f)
    decreases end - since, span
  {
    if end > since {
      var start := Max(since, end - span);
      var page := Query(feed, start, end, plan.limit);
      if |page| >= plan.limit && span > plan.minSpan {
        ScanNeverReturns(feed, plan, since, end, Max(plan.minSpan, span / 2), out, f);
      } else {
        OutsideStaysOut(feed, start, end, plan.limit, out, f);
        ScanNeverReturns(feed, plan, since, start - 1, NextSpan(plan, span, page), Absorb(out, page), f);
      }
    }
  }

  ghost predicate Misses(feed: seq<Fill>, plan: Plan, since: int, end: int, span: int, out: seq<Fill>, f: Fill)
    requires InRange(plan, span)
  {
    f !in Scan(feed, plan, since, end, span, out)
  }

  ghost predicate FallsToMinimum(feed: seq<Fill>, plan: Plan, since: int, end: int, span: int)
    requires InRange(plan, span)
  {
    Scan(feed, plan, since, end, span, []) == Scan(feed, plan, since, end, plan.minSpan, [])
  }

  lemma WiderIsFull(feed: seq<Fill>, plan: Plan, e: int, start: int)
    requires Chronological(feed) && |MinWindow(feed, plan, e)| >= plan.limit && start <= e - plan.minSpan <= e
    ensures |Query(feed, start, e, plan.limit)| >= plan.limit
  {
    WindowIsSlice(feed, e - plan.minSpan, e);
    QueryIsSlice(feed, start, e, plan.limit);
    RankMonotone(feed, start, e - plan.minSpan);
  }

  /** On a crowded minimum window every wider page is full, so the span falls to the minimum. */
  lemma {:induction false} CrowdedFallsToMinimum(feed: seq<Fill>, plan: Plan, e: int, span: int)
    requires Chronological(feed) && InRange(plan, span) && |MinWindow(feed, plan, e)| >= plan.limit
    ensures FallsToMinimum(feed, plan, e - plan.minSpan - 1, e, span)
    decreases span
  {
    if span > plan.minSpan {
      var since := e - plan.minSpan - 1;
      WiderIsFull(feed, plan, e, Max(since, e - span));
      CrowdedFallsToMinimum(feed, plan, e, Max(plan.minSpan, span / 2));
    }
  }

  lemma CrowdedFirstRound(feed: seq<Fill>, plan: Plan, e: int) returns (span: int, out: seq<Fill>, lost: Fill)
    requires WellFormed(feed) && plan.Valid() && |MinWindow(feed, plan, e)| > plan.limit
    ensures InRange(plan, span) && lost in feed && e - plan.minSpan <= lost.ts <= e && lost !in out
    ensures var since := e - plan.minSpan - 1;
            Scan(feed, plan, since, e, plan.initialSpan, []) == Scan(feed, plan, since, since, span, out)
  {
    CrowdedFallsToMinimum(feed, plan, e, plan.initialSpan);
    var page;
    page, lost := CrowdedPage(feed, e - plan.minSpan, e, e, plan.limit);
    NotAbsorbed([], page, lost);
    span, out := NextSpan(plan, plan.minSpan, page), Absorb([], page);
    MinimumRound(feed, plan, e, page);
  }

  lemma MinimumRound(feed: seq<Fill>, plan: Plan, e: int, page: seq<Fill>)
    requires plan.Valid() && page == Query(feed, e - plan.minSpan, e, plan.limit)
    ensures var since := e - plan.minSpan - 1;
            Scan(feed, plan, since, e, plan.minSpan, [])
            == Scan(feed, plan, since, since, NextSpan(plan, plan.minSpan, page), Absorb([], page))
  {
  }

  /** Started one second before a crowded minimum window, the reader loses one of its fills. */
  lemma CrowdedLoses(feed: seq<Fill>, plan: Plan, e: int)
    requires WellFormed(feed) && plan.Valid() && |MinWindow(feed, plan, e)| > plan.limit
    ensures !CompleteFrom(feed, plan, e - plan.minSpan - 1, e)
  {
    var since := e - plan.minSpan - 1;
    var span, out, lost := CrowdedFirstRound(feed, plan, e);
    ScanNeverReturns(feed, plan, since, since, span, out, lost);
  }

  /** The exact reach: complete for every range if and only if no minimum window is crowded. */
  lemma CompleteIffUncrowded(feed: seq<Fill>, plan: Plan)
    requires WellFormed(feed) && plan.Valid()
    ensures (forall since, now :: CompleteFrom(feed, plan, since, now)) <==> Uncrowded(feed, plan)
  {
    if Uncrowded(feed, plan) {
      forall since, now ensures CompleteFrom(feed, plan, since, now) {
        UncrowdedIsExact(feed, plan, since, now);
        ExactIsComplete(feed, since, now, Scan(feed, plan, since, now, plan.initialSpan, []));
      }
    } else {
      var e :| |MinWindow(feed, plan, e)| > plan.limit;
      CrowdedLoses(feed, plan, e);
    }
  }
}
