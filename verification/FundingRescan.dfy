/** The reach of the rescanning loop when answers may be longer than the compared length, as with Hyperliquid:
    which windows it can open, where it loses events and where it never ends. */
module FundingRescan {
  import opened Feed
  import opened IncomeRescan

  // ---------------------------------------------------------------- the windows the loop can open

  /** The span after `k` empty windows in a row. */
  function SpanAt(plan: RescanPlan, k: nat): int {
    if k == 0 then plan.initialSpan else Min(SpanAt(plan, k - 1) * 2, plan.maxSpan)
  }

  /** The length of those `k` windows together. */
  function Before(plan: RescanPlan, k: nat): int {
    if k == 0 then 0 else Before(plan, k - 1) + SpanAt(plan, k - 1)
  }

  function OpenedAt(plan: RescanPlan, e: int, k: nat): Cursor {
    Cursor(e, e + SpanAt(plan, k), SpanAt(plan, k), [])
  }

  /** A window doubled `k` times opens at `e` only behind an empty stretch. */
  ghost predicate Openable(feed: seq<Fill>, plan: RescanPlan, e: int, k: nat) {
    k > 0 ==> Window(feed, e - Before(plan, k), e) == []
  }

  /** More events of the range than fit an answer lie before the end of the window. */
  ghost predicate Crowded(feed: seq<Fill>, plan: RescanPlan, now: int, e: int, k: nat) {
    |Window(feed, e, Min(e + SpanAt(plan, k), now + 1) - 1)| > plan.cap
  }

  /** The window holds exactly as many events as the loop compares with, all of one timestamp of the range. */
  ghost predicate Bursts(feed: seq<Fill>, plan: RescanPlan, now: int, e: int, k: nat) {
    var w := Window(feed, e, e + SpanAt(plan, k));
    |w| == plan.limit > 0 && plan.limit < plan.cap && w[0].ts == w[|w| - 1].ts <= now
  }

  lemma {:induction false} SpansArePositive(plan: RescanPlan, k: nat)
    requires plan.Valid()
    ensures plan.initialSpan <= SpanAt(plan, k) <= plan.maxSpan && 0 <= Before(plan, k)
    decreases k
  {
    if k > 0 {
      SpansArePositive(plan, k - 1);
    }
  }

  lemma QuietIff(feed: seq<Fill>, from: int, until: int)
    requires Chronological(feed) && from <= until + 1
    ensures Window(feed, from, until) == [] <==> Rank(feed, from) == Rank(feed, until + 1)
  {
    WindowIsSlice(feed, from, until);
  }

  lemma CrowdedIff(feed: seq<Fill>, plan: RescanPlan, now: int, e: int, k: nat)
    requires Chronological(feed) && plan.Valid() && plan.cap != plan.limit
    ensures Skips(feed, plan, now, OpenedAt(plan, e, k)) <==> Crowded(feed, plan, now, e, k)
  {
    var stop := Min(e + SpanAt(plan, k), now + 1);
    SpansArePositive(plan, k);
    QueryIsSlice(feed, e, e + SpanAt(plan, k), plan.cap);
    if e <= stop {
      WindowIsSlice(feed, e, stop - 1);
      RankMonotone(feed, stop, e + SpanAt(plan, k) + 1);
    } else {
      RankMonotone(feed, stop, e);
      WindowOutside(feed, e, stop - 1);
    }
  }

  lemma BurstsIff(feed: seq<Fill>, plan: RescanPlan, now: int, e: int, k: nat)
    requires Chronological(feed) && plan.Valid() && plan.cap != plan.limit
    ensures Stalls(feed, plan, now, OpenedAt(plan, e, k)) <==> Bursts(feed, plan, now, e, k)
  {
  }

  // ---------------------------------------------------------------- every reached window is openable

  ghost predicate IsFresh(feed: seq<Fill>, plan: RescanPlan, c: Cursor, e: int, k: nat) {
    Openable(feed, plan, e, k) && c.since == e && c.end == e + SpanAt(plan, k) && c.span == SpanAt(plan, k)
  }

  /** The window is read again from its last timestamp, after an answer of the compared length, which was
      all of it. */
  ghost predicate IsRescan(feed: seq<Fill>, plan: RescanPlan, c: Cursor, e: int, k: nat) {
    var b := Rank(feed, c.end + 1);
    && Openable(feed, plan, e, k) && c.end == e + SpanAt(plan, k) && plan.initialSpan <= c.span <= plan.maxSpan
    && 0 < plan.limit < plan.cap && b == Rank(feed, e) + plan.limit && c.since == feed[b - 1].ts
  }

  ghost predicate Opened(feed: seq<Fill>, plan: RescanPlan, c: Cursor) {
    exists e, k: nat :: IsFresh(feed, plan, c, e, k) || IsRescan(feed, plan, c, e, k)
  }

  /** Only events of its last timestamp are left in a window that is read again. */
  lemma RescanReads(feed: seq<Fill>, plan: RescanPlan, c: Cursor, e: int, k: nat)
    requires Chronological(feed) && plan.Valid() && IsRescan(feed, plan, c, e, k)
    ensures e <= c.since <= c.end
    ensures Rank(feed, e) <= Rank(feed, c.since) < Rank(feed, c.end + 1) <= |feed|
    ensures AnswerEnd(feed, plan, c) == Rank(feed, c.end + 1)
  {
    var b := Rank(feed, c.end + 1);
    BetweenRanks(feed, e, c.end, b - 1);
    RankAround(feed, b - 1);
    RankMonotone(feed, e, c.since);
  }

  lemma FreshOpens(feed: seq<Fill>, plan: RescanPlan, c: Cursor, e: int, k: nat)
    requires Chronological(feed) && plan.Valid() && plan.cap != plan.limit && IsFresh(feed, plan, c, e, k)
    ensures Opened(feed, plan, Step(feed, plan, c))
  {
    var n := Step(feed, plan, c);
    SpansArePositive(plan, k);
    var b := StepFromPage(feed, plan, c);
    if b == Rank(feed, e) + plan.limit {
      assert IsRescan(feed, plan, n, e, k);
    } else if b == Rank(feed, e) {
      EmptyOpensWider(feed, plan, e, k);
      assert IsFresh(feed, plan, n, c.end, k + 1);
    } else {
      assert IsFresh(feed, plan, n, c.end, 0);
    }
  }

  lemma EmptyOpensWider(feed: seq<Fill>, plan: RescanPlan, e: int, k: nat)
    requires Chronological(feed) && plan.Valid() && Openable(feed, plan, e, k)
    requires Query(feed, e, e + SpanAt(plan, k), plan.cap) == []
    ensures Openable(feed, plan, e + SpanAt(plan, k), k + 1)
  {
    var end, first := e + SpanAt(plan, k), e - Before(plan, k);
    SpansArePositive(plan, k);
    QuietIff(feed, e, end);
    QuietIff(feed, first, end);
    RankMonotone(feed, first, e);
    if k > 0 {
      QuietIff(feed, first, e);
      RankMonotone(feed, e, e + 1);
    }
  }

  lemma RescanOpens(feed: seq<Fill>, plan: RescanPlan, c: Cursor, e: int, k: nat)
    requires Chronological(feed) && plan.Valid() && plan.cap != plan.limit && IsRescan(feed, plan, c, e, k)
    ensures Opened(feed, plan, Step(feed, plan, c))
  {
    RescanReads(feed, plan, c, e, k);
    var n := Step(feed, plan, c);
    var b := StepFromPage(feed, plan, c);
    if b == Rank(feed, c.since) + plan.limit {
      assert IsRescan(feed, plan, n, e, k);
    } else {
      assert IsFresh(feed, plan, n, c.end, 0);
    }
  }

  lemma StepOpens(feed: seq<Fill>, plan: RescanPlan, c: Cursor)
    requires Chronological(feed) && plan.Valid() && plan.cap != plan.limit && Opened(feed, plan, c)
    ensures Opened(feed, plan, Step(feed, plan, c))
  {
    var e, k: nat :| IsFresh(feed, plan, c, e, k) || IsRescan(feed, plan, c, e, k);
    if IsFresh(feed, plan, c, e, k) {
      FreshOpens(feed, plan, c, e, k);
    } else {
      RescanOpens(feed, plan, c, e, k);
    }
  }

  lemma {:induction false} StaysOpened(feed: seq<Fill>, plan: RescanPlan, c: Cursor, n: nat)
    requires Chronological(feed) && plan.Valid() && plan.cap != plan.limit && Opened(feed, plan, c)
    ensures Opened(feed, plan, Iterate(feed, plan, c, n))
    decreases n
  {
    if n > 0 {
      StepOpens(feed, plan, c);
      StaysOpened(feed, plan, Step(feed, plan, c), n - 1);
    }
  }

  lemma ReachedIsOpened(feed: seq<Fill>, plan: RescanPlan, since: int, n: nat)
    requires Chronological(feed) && plan.Valid() && plan.cap != plan.limit
    ensures Opened(feed, plan, Iterate(feed, plan, Start(plan, since), n))
  {
    assert IsFresh(feed, plan, Start(plan, since), since, 0);
    StaysOpened(feed, plan, Start(plan, since), n);
  }

  /** A rescan skips nothing, and stalls only if its window does already. */
  lemma RescanSkipsNothing(feed: seq<Fill>, plan: RescanPlan, now: int, c: Cursor, e: int, k: nat)
    requires Chronological(feed) && plan.Valid() && IsRescan(feed, plan, c, e, k)
    ensures !Skips(feed, plan, now, c)
  {
    RescanReads(feed, plan, c, e, k);
    RankMonotone(feed, Min(c.end, now + 1), c.end + 1);
    SkipsByRank(feed, plan, now, c);
  }

  lemma RescanStallsWithWindow(feed: seq<Fill>, plan: RescanPlan, now: int, c: Cursor, e: int, k: nat)
    requires Chronological(feed) && plan.Valid() && IsRescan(feed, plan, c, e, k) && Stalls(feed, plan, now, c)
    ensures Stalls(feed, plan, now, OpenedAt(plan, e, k))
  {
    RescanReads(feed, plan, c, e, k);
    StallsIff(feed, plan, now, c);
    RescanStalls(feed, plan, now, c, e, k);
    StallsIff(feed, plan, now, OpenedAt(plan, e, k));
  }

  lemma RescanStalls(feed: seq<Fill>, plan: RescanPlan, now: int, c: Cursor, e: int, k: nat)
    requires IsRescan(feed, plan, c, e, k) && AnswerEnd(feed, plan, c) == Rank(feed, c.end + 1)
    requires StallsAt(feed, plan, now, c.since, c.end)
    ensures StallsAt(feed, plan, now, e, c.end)
  {
  }

  // ---------------------------------------------------------------- every openable window is reached

  lemma QuietWithin(feed: seq<Fill>, from: int, until: int, a: int, b: int)
    requires Chronological(feed) && Window(feed, from, until) == [] && from <= a <= b <= until
    ensures Window(feed, a, b) == []
  {
    QuietIff(feed, from, until);
    QuietIff(feed, a, b);
    RankMonotone(feed, from, a);
    RankMonotone(feed, a, b + 1);
    RankMonotone(feed, b + 1, until + 1);
  }

  lemma {:induction false} BeforeGrows(plan: RescanPlan, i: nat, k: nat)
    requires plan.Valid() && i <= k
    ensures Before(plan, i) <= Before(plan, k)
    decreases k
  {
    if i < k {
      SpansArePositive(plan, k - 1);
      BeforeGrows(plan, i, k - 1);
    }
  }

  lemma {:induction false} Doubles(feed: seq<Fill>, plan: RescanPlan, s: int, k: nat, i: nat)
    requires Chronological(feed) && plan.Valid() && i <= k && (k > 0 ==> Window(feed, s, s + Before(plan, k)) == [])
    ensures Iterate(feed, plan, Start(plan, s), i) == OpenedAt(plan, s + Before(plan, i), i)
    decreases i
  {
    if i > 0 {
      Doubles(feed, plan, s, k, i - 1);
      IterateOneMore(feed, plan, Start(plan, s), i - 1);
      QuietBefore(feed, plan, s, k, i - 1);
      DoublesOnce(feed, plan, s + Before(plan, i - 1), i - 1);
    }
  }

  lemma QuietBefore(feed: seq<Fill>, plan: RescanPlan, s: int, k: nat, i: nat)
    requires Chronological(feed) && plan.Valid() && i < k && Window(feed, s, s + Before(plan, k)) == []
    ensures Before(plan, i + 1) == Before(plan, i) + SpanAt(plan, i)
    ensures Window(feed, s + Before(plan, i), s + Before(plan, i + 1)) == []
  {
    BeforeGrows(plan, i + 1, k);
    SpansArePositive(plan, i);
    QuietWithin(feed, s, s + Before(plan, k), s + Before(plan, i), s + Before(plan, i + 1));
  }

  lemma DoublesOnce(feed: seq<Fill>, plan: RescanPlan, e: int, k: nat)
    requires plan.Valid() && Window(feed, e, e + SpanAt(plan, k)) == []
    ensures Step(feed, plan, OpenedAt(plan, e, k)) == OpenedAt(plan, e + SpanAt(plan, k), k + 1)
  {
  }

  lemma OpenableIsReached(feed: seq<Fill>, plan: RescanPlan, e: int, k: nat)
    requires Chronological(feed) && plan.Valid() && Openable(feed, plan, e, k)
    ensures Iterate(feed, plan, Start(plan, e - Before(plan, k)), k) == OpenedAt(plan, e, k)
  {
    Doubles(feed, plan, e - Before(plan, k), k, k);
  }

  // ---------------------------------------------------------------- the exact reach

  ghost predicate BurstFree(feed: seq<Fill>, plan: RescanPlan, now: int, e: int, k: nat) {
    Openable(feed, plan, e, k) ==> !Bursts(feed, plan, now, e, k)
  }

  ghost predicate Roomy(feed: seq<Fill>, plan: RescanPlan, now: int, e: int, k: nat) {
    Openable(feed, plan, e, k) ==> !Crowded(feed, plan, now, e, k)
  }

  lemma ReachedIsFine(feed: seq<Fill>, plan: RescanPlan, now: int, since: int, n: nat)
    requires Chronological(feed) && plan.Valid() && plan.cap != plan.limit
    ensures var c := Iterate(feed, plan, Start(plan, since), n);
            && (Stalls(feed, plan, now, c) ==> exists e, k: nat :: !BurstFree(feed, plan, now, e, k))
            && (Skips(feed, plan, now, c) ==> exists e, k: nat :: !Roomy(feed, plan, now, e, k))
  {
    ReachedIsOpened(feed, plan, since, n);
    var c := Iterate(feed, plan, Start(plan, since), n);
    var e, k: nat :| IsFresh(feed, plan, c, e, k) || IsRescan(feed, plan, c, e, k);
    OpenedDecides(feed, plan, now, c, e, k);
  }

  lemma OpenedDecides(feed: seq<Fill>, plan: RescanPlan, now: int, c: Cursor, e: int, k: nat)
    requires Chronological(feed) && plan.Valid() && plan.cap != plan.limit
    requires IsFresh(feed, plan, c, e, k) || IsRescan(feed, plan, c, e, k)
    ensures Stalls(feed, plan, now, c) ==> !BurstFree(feed, plan, now, e, k)
    ensures Skips(feed, plan, now, c) ==> !Roomy(feed, plan, now, e, k)
  {
    BurstsIff(feed, plan, now, e, k);
    CrowdedIff(feed, plan, now, e, k);
    if IsRescan(feed, plan, c, e, k) {
      RescanSkipsNothing(feed, plan, now, c, e, k);
      if Stalls(feed, plan, now, c) {
        RescanStallsWithWindow(feed, plan, now, c, e, k);
      }
    }
  }

  lemma NeverStallsIff(feed: seq<Fill>, plan: RescanPlan, now: int)
    requires Chronological(feed) && plan.Valid() && plan.cap != plan.limit
    ensures (forall since :: NeverStalls(feed, plan, now, Start(plan, since)))
       <==> (forall e, k: nat :: BurstFree(feed, plan, now, e, k))
  {
    forall since, n: nat
      ensures Stalls(feed, plan, now, Iterate(feed, plan, Start(plan, since), n))
          ==> exists e, k: nat :: !BurstFree(feed, plan, now, e, k)
    {
      ReachedIsFine(feed, plan, now, since, n);
    }
    if e, k: nat :| !BurstFree(feed, plan, now, e, k) {
      OpenableIsReached(feed, plan, e, k);
      BurstsIff(feed, plan, now, e, k);
      assert Stalls(feed, plan, now, Iterate(feed, plan, Start(plan, e - Before(plan, k)), k));
    }
  }

  lemma NeverSkipsIff(feed: seq<Fill>, plan: RescanPlan, now: int)
    requires Chronological(feed) && plan.Valid() && plan.cap != plan.limit
    ensures (forall since :: NeverSkips(feed, plan, now, Start(plan, since)))
       <==> (forall e, k: nat :: Roomy(feed, plan, now, e, k))
  {
    forall since, n: nat
      ensures Skips(feed, plan, now, Iterate(feed, plan, Start(plan, since), n))
          ==> exists e, k: nat :: !Roomy(feed, plan, now, e, k)
    {
      ReachedIsFine(feed, plan, now, since, n);
    }
    if e, k: nat :| !Roomy(feed, plan, now, e, k) {
      OpenableIsReached(feed, plan, e, k);
      CrowdedIff(feed, plan, now, e, k);
      assert Skips(feed, plan, now, Iterate(feed, plan, Start(plan, e - Before(plan, k)), k));
    }
  }

  /** The loop ends from every start if and only if no window it can open holds exactly the compared number of
      events, all of one timestamp. */
  lemma HaltsIffBurstFree(feed: seq<Fill>, plan: RescanPlan, now: int)
    requires Chronological(feed) && plan.Valid() && plan.cap != plan.limit
    ensures (forall since :: Halts(feed, plan, now, Start(plan, since)))
       <==> (forall e, k: nat :: BurstFree(feed, plan, now, e, k))
  {
    NeverStallsIff(feed, plan, now);
    forall since
      ensures Halts(feed, plan, now, Start(plan, since)) <==> NeverStalls(feed, plan, now, Start(plan, since))
    {
      HaltsIffNeverStalls(feed, plan, since, now);
    }
  }

  /** The loop is complete from every start if and only if it ends from every start and no window it can open
      holds more events before its end than fit an answer. */
  lemma CompleteIffRoomy(feed: seq<Fill>, plan: RescanPlan, now: int)
    requires Chronological(feed) && DistinctIds(feed) && plan.Valid() && plan.cap != plan.limit
    ensures (forall since :: CompleteFrom(feed, plan, since, now))
       <==> (forall e, k: nat :: BurstFree(feed, plan, now, e, k) && Roomy(feed, plan, now, e, k))
  {
    NeverStallsIff(feed, plan, now);
    NeverSkipsIff(feed, plan, now);
    forall since
      ensures CompleteFrom(feed, plan, since, now)
         <==> NeverStalls(feed, plan, now, Start(plan, since)) && NeverSkips(feed, plan, now, Start(plan, since))
    {
      CompleteIff(feed, plan, since, now);
    }
  }

  // ---------------------------------------------------------------- witnesses

  function EventId(i: nat): string {
    seq(i + 1, _ => 'x')
  }

  /** `n` events, `gap` apart. */
  function Regular(n: nat, first: int, gap: nat): (feed: seq<Fill>)
    ensures |feed| == n && forall i :: 0 <= i < n ==> feed[i] == Fill(EventId(i), first + i * gap)
  {
    seq(n, i requires 0 <= i < n => Fill(EventId(i), first + i * gap))
  }

  lemma RegularIsWellFormed(n: nat, first: int, gap: nat)
    requires first > 0
    ensures WellFormed(Regular(n, first, gap))
  {
    var feed := Regular(n, first, gap);
    forall i, j ensures InOrder(feed, i, j) && Apart(feed, i, j) {
      if 0 <= i < j < n {
        assert |feed[i].id| == i + 1 && |feed[j].id| == j + 1;
        assert i * gap <= j * gap;
      }
    }
    forall i ensures Named(feed, i) {
      if 0 <= i < n {
        assert |feed[i].id| == i + 1 && i * gap >= 0;
      }
    }
  }

  /** A feed of exactly the compared number of events, all of one timestamp of the first window. */
  lemma OneTimestampNeverEnds(feed: seq<Fill>, plan: RescanPlan, t: int, since: int, now: int)
    requires Chronological(feed) && plan.Valid() && |feed| == plan.limit <= plan.cap
    requires (forall i :: 0 <= i < |feed| ==> feed[i].ts == t) && since <= t <= now && t <= since + plan.initialSpan
    ensures !Halts(feed, plan, now, Start(plan, since))
  {
    var c := Start(plan, since);
    RankIs(feed, since, 0);
    RankIs(feed, c.end + 1, |feed|);
    StallsIff(feed, plan, now, c);
    assert Stalls(feed, plan, now, Iterate(feed, plan, c, 0));
    HaltsIffNeverStalls(feed, plan, since, now);
  }

  /** Both configured readers can run forever: on 1000 and on 200 events of one millisecond. */
  lemma ConfiguredReadersCanRunForever() returns (income: seq<Fill>, funding: seq<Fill>)
    ensures WellFormed(income) && |income| == 1000 && WellFormed(funding) && |funding| == 200
    ensures !Halts(income, BINANCE, 2000, Start(BINANCE, 0))
    ensures !Halts(funding, HYPERLIQUID, 2000, Start(HYPERLIQUID, 0))
  {
    income, funding := Regular(1000, 1000, 0), Regular(200, 1000, 0);
    RegularIsWellFormed(1000, 1000, 0);
    RegularIsWellFormed(200, 1000, 0);
    OneTimestampNeverEnds(income, BINANCE, 1000, 0, 2000);
    OneTimestampNeverEnds(funding, HYPERLIQUID, 1000, 0, 2000);
  }

  /** When more events than fit an answer lie before the end of the first window, one is never collected,
      however often the loop iterates. */
  lemma CrowdedStartLoses(feed: seq<Fill>, plan: RescanPlan, since: int, now: int) returns (lost: Fill)
    requires Chronological(feed) && DistinctIds(feed) && plan.Valid() && plan.cap != plan.limit
    requires Crowded(feed, plan, now, since, 0)
    ensures lost in feed && since <= lost.ts <= now
    ensures forall n: nat :: lost !in Iterate(feed, plan, Start(plan, since), n).all
  {
    CrowdedIff(feed, plan, now, since, 0);
    assert Skips(feed, plan, now, Iterate(feed, plan, Start(plan, since), 0));
    lost := SkippedIsLost(feed, plan, now, Start(plan, since), 0);
  }

  /** 501 funding payments a millisecond apart: no two share a timestamp, the configured reader ends, and still
      never collects one of them. */
  lemma SteadyFundingIsLost() returns (feed: seq<Fill>, lost: Fill)
    ensures WellFormed(feed) && |feed| == 501 && forall i :: 0 <= i < 501 ==> feed[i].ts == 1000 + i
    ensures Halts(feed, HYPERLIQUID, 2000, Start(HYPERLIQUID, 0))
    ensures lost in feed && forall n: nat :: lost !in Iterate(feed, HYPERLIQUID, Start(HYPERLIQUID, 0), n).all
  {
    feed := Regular(501, 1000, 1);
    RegularIsWellFormed(501, 1000, 1);
    ApartIsSparse(feed, 200, 0, 2000);
    SparseNeverStalls(feed, HYPERLIQUID, 0, 2000);
    HaltsIffNeverStalls(feed, HYPERLIQUID, 0, 2000);
    FirstWindowIsCrowded(feed, HYPERLIQUID, 2000);
    lost := CrowdedStartLoses(feed, HYPERLIQUID, 0, 2000);
  }

  lemma FirstWindowIsCrowded(feed: seq<Fill>, plan: RescanPlan, now: int)
    requires Chronological(feed) && |feed| > plan.cap && now + 1 <= plan.initialSpan && now >= 0
    requires forall i :: 0 <= i < |feed| ==> 0 <= feed[i].ts <= now
    ensures Crowded(feed, plan, now, 0, 0)
  {
    RankIs(feed, 0, 0);
    RankIs(feed, now + 1, |feed|);
    WindowIsSlice(feed, 0, now);
  }

  lemma ApartIsSparse(feed: seq<Fill>, limit: nat, from: int, now: int)
    requires Chronological(feed) && limit > 1 && forall i, j :: 0 <= i < j < |feed| ==> feed[i].ts < feed[j].ts
    ensures Sparse(feed, limit, from, now)
  {
    forall t | from <= t <= now ensures CountAt(feed, t) < limit {
      var a, b := Rank(feed, t), Rank(feed, t + 1);
      CountAtIsRankStep(feed, t);
      if b - a > 1 {
        BetweenRanks(feed, t, t, a);
        BetweenRanks(feed, t, t, a + 1);
        assert false;
      }
    }
  }
}
