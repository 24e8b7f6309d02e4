/** The Binance income and Hyperliquid funding readers: windows rescanned from the timestamp of the last
    event of an answer of one particular length. */
module IncomeRescan {
  import opened Feed

  const DAY := 24 * 60 * 60 * 1000
  const WEEK := 7 * DAY

  /** `cap` is what the exchange puts into one answer at most, `limit` the length the loop compares with. */
  datatype RescanPlan = RescanPlan(initialSpan: nat, maxSpan: nat, cap: nat, limit: nat) {
    ghost predicate Valid() {
      1 <= initialSpan <= maxSpan && 1 <= cap && 1 <= limit
    }
  }

  /** Binance is asked for at most 1000 events and keeps one-week windows. */
  const BINANCE := RescanPlan(WEEK, WEEK, 1000, 1000)

  /** Hyperliquid is sent no limit and answers up to 500 events, which the loop compares with 200; its empty
      windows double up to four weeks. */
  const HYPERLIQUID := RescanPlan(WEEK, 4 * WEEK, 500, 200)

  lemma ConfiguredPlansAreValid()
    ensures BINANCE.Valid() && BINANCE.cap == BINANCE.limit && HYPERLIQUID.Valid()
  {
  }

  /** The loop variables; `all` collects the pages, the newest page first. */
  datatype Cursor = Cursor(since: int, end: int, span: int, all: seq<Fill>)

  function Start(plan: RescanPlan, since: int): Cursor {
    Cursor(since, since + plan.initialSpan, plan.initialSpan, [])
  }

  /** One iteration of the loop. */
  function Step(feed: seq<Fill>, plan: RescanPlan, c: Cursor): Cursor
    requires 1 <= plan.limit
  {
    var page := Query(feed, c.since, c.end, plan.cap);
    var all := page + c.all;
    if |page| == plan.limit then Cursor(page[|page| - 1].ts, c.end, c.span, all)
    else
      var span := if page == [] then Min(c.span * 2, plan.maxSpan) else plan.initialSpan;
      Cursor(c.end, c.end + span, span, all)
  }

  ghost predicate Sane(plan: RescanPlan, c: Cursor) {
    plan.Valid() && c.since <= c.end && plan.initialSpan <= c.span <= plan.maxSpan
  }

  function Iterate(feed: seq<Fill>, plan: RescanPlan, c: Cursor, n: nat): Cursor
    requires 1 <= plan.limit
    decreases n
  {
    if n == 0 then c else Iterate(feed, plan, Step(feed, plan, c), n - 1)
  }

  /** The loop leaves after the first iteration, of at least one, that puts `since` past `now`. */
  ghost predicate Stops(feed: seq<Fill>, plan: RescanPlan, now: int, c: Cursor, n: nat)
    requires 1 <= plan.limit
  {
    && n >= 1 && Iterate(feed, plan, c, n).since > now
    && forall m :: 1 <= m < n ==> Iterate(feed, plan, c, m).since <= now
  }

  ghost predicate Halts(feed: seq<Fill>, plan: RescanPlan, now: int, c: Cursor)
    requires 1 <= plan.limit
  {
    exists n: nat :: n >= 1 && Iterate(feed, plan, c, n).since > now
  }

  /** What the loop returns, if it does. */
  ghost predicate Returns(feed: seq<Fill>, plan: RescanPlan, since: int, now: int, all: seq<Fill>)
    requires 1 <= plan.limit
  {
    exists n: nat :: Stops(feed, plan, now, Start(plan, since), n)
                     && Iterate(feed, plan, Start(plan, since), n).all == all
  }

  /** The loop, on every feed on which it ends. */
  method FetchEvents(feed: seq<Fill>, plan: RescanPlan, since: int, now: int) returns (all: seq<Fill>)
    requires plan.Valid() && Halts(feed, plan, now, Start(plan, since))
    ensures Returns(feed, plan, since, now, all)
  {
    var c := Start(plan, since);
    ghost var n: nat :| n >= 1 && Iterate(feed, plan, c, n).since > now;
    ghost var i: nat := 0;
    while true
      invariant i < n && c == Iterate(feed, plan, Start(plan, since), i)
      invariant forall m :: 1 <= m <= i ==> Iterate(feed, plan, Start(plan, since), m).since <= now
      decreases n - i
    {
      IterateOneMore(feed, plan, Start(plan, since), i);
      var page := Query(feed, c.since, c.end, plan.cap);
      var span := c.span;
      if |page| == plan.limit {
        c := Cursor(page[|page| - 1].ts, c.end, span, page + c.all);
      } else {
        if page == [] {
          span := Min(span * 2, plan.maxSpan);
        } else {
          span := plan.initialSpan;
        }
        c := Cursor(c.end, c.end + span, span, page + c.all);
      }
      i := i + 1;
      if c.since > now {
        break;
      }
    }
    all := c.all;
    assert Stops(feed, plan, now, Start(plan, since), i);
  }

  lemma {:induction false} IterateOneMore(feed: seq<Fill>, plan: RescanPlan, c: Cursor, n: nat)
    requires 1 <= plan.limit
    ensures Iterate(feed, plan, c, n + 1) == Step(feed, plan, Iterate(feed, plan, c, n))
    decreases n
  {
    if n > 0 {
      IterateOneMore(feed, plan, Step(feed, plan, c), n - 1);
    }
  }

  // ---------------------------------------------------------------- one iteration

  /** Where the answer to a cursor ends in the feed. */
  ghost function AnswerEnd(feed: seq<Fill>, plan: RescanPlan, c: Cursor): int {
    Min(Rank(feed, c.since) + plan.cap, Rank(feed, c.end + 1))
  }

  lemma StepFromPage(feed: seq<Fill>, plan: RescanPlan, c: Cursor) returns (b: nat)
    requires Chronological(feed) && Sane(plan, c)
    ensures b == AnswerEnd(feed, plan, c) && Rank(feed, c.since) <= b <= |feed|
    ensures Query(feed, c.since, c.end, plan.cap) == feed[Rank(feed, c.since)..b]
    ensures var n := Step(feed, plan, c);
            && n.all == feed[Rank(feed, c.since)..b] + c.all
            && plan.initialSpan <= n.span <= plan.maxSpan
            && if b == Rank(feed, c.since) + plan.limit then n.since == feed[b - 1].ts && n.end == c.end
               else n.since == c.end && n.end == c.end + n.span
  {
    QueryIsSlice(feed, c.since, c.end, plan.cap);
    b := AnswerEnd(feed, plan, c);
  }

  /** The loop moves forward, and a comparison that succeeds moves it to the end of what was read. */
  lemma StepMoves(feed: seq<Fill>, plan: RescanPlan, c: Cursor) returns (b: nat)
    requires Chronological(feed) && Sane(plan, c)
    ensures b == AnswerEnd(feed, plan, c) && Rank(feed, c.since) <= b <= |feed|
    ensures Step(feed, plan, c).all == feed[Rank(feed, c.since)..b] + c.all
    ensures Sane(plan, Step(feed, plan, c)) && c.since <= Step(feed, plan, c).since <= c.end
    ensures if b == Rank(feed, c.since) + plan.limit
            then Step(feed, plan, c).since == feed[b - 1].ts && Step(feed, plan, c).end == c.end
                 && Rank(feed, feed[b - 1].ts) <= b <= Rank(feed, feed[b - 1].ts + 1)
            else Step(feed, plan, c).since == c.end < Step(feed, plan, c).end
  {
    b := StepFromPage(feed, plan, c);
    if b == Rank(feed, c.since) + plan.limit {
      RankAround(feed, b - 1);
      BetweenRanks(feed, c.since, c.end, b - 1);
    }
  }

  /** The answer has exactly the compared length and is all of one timestamp of the range. */
  ghost predicate Stalls(feed: seq<Fill>, plan: RescanPlan, now: int, c: Cursor) {
    var page := Query(feed, c.since, c.end, plan.cap);
    |page| == plan.limit > 0 && page[0].ts == page[|page| - 1].ts <= now
  }

  /** The window is left behind although events of the range before its end were not in the answer. */
  ghost predicate Skips(feed: seq<Fill>, plan: RescanPlan, now: int, c: Cursor) {
    && |Query(feed, c.since, c.end, plan.cap)| != plan.limit
    && Rank(feed, c.since) + plan.cap < Rank(feed, Min(c.end, now + 1))
  }

  /** Unless it stalls, an iteration raises `since`, or leaves it at an `end` that then moves away for good. */
  lemma StepProgresses(feed: seq<Fill>, plan: RescanPlan, now: int, c: Cursor)
    requires Chronological(feed) && Sane(plan, c) && !Stalls(feed, plan, now, c)
    ensures var n := Step(feed, plan, c);
            Sane(plan, n) && c.since <= n.since
            && (n.since <= now ==> c.since < n.since || (c.since == c.end == n.since < n.end))
  {
    var a := Rank(feed, c.since);
    var b := StepMoves(feed, plan, c);
    StallsIff(feed, plan, now, c);
    if b == a + plan.limit {
      BetweenRanks(feed, c.since, c.end, a);
      assert InOrder(feed, a, b - 1);
    }
  }

  // ---------------------------------------------------------------- many iterations

  lemma {:induction false} IterateConcat(feed: seq<Fill>, plan: RescanPlan, c: Cursor, m: nat, n: nat)
    requires 1 <= plan.limit
    ensures Iterate(feed, plan, c, m + n) == Iterate(feed, plan, Iterate(feed, plan, c, m), n)
    decreases m
  {
    if m > 0 {
      IterateConcat(feed, plan, Step(feed, plan, c), m - 1, n);
    }
  }

  lemma {:induction false} IterateMoves(feed: seq<Fill>, plan: RescanPlan, c: Cursor, n: nat)
    requires Chronological(feed) && Sane(plan, c)
    ensures Sane(plan, Iterate(feed, plan, c, n)) && c.since <= Iterate(feed, plan, c, n).since
    decreases n
  {
    if n > 0 {
      var b := StepMoves(feed, plan, c);
      IterateMoves(feed, plan, Step(feed, plan, c), n - 1);
    }
  }

  // ---------------------------------------------------------------- termination, both ways

  ghost predicate NeverStalls(feed: seq<Fill>, plan: RescanPlan, now: int, c: Cursor)
    requires 1 <= plan.limit
  {
    forall n: nat :: !Stalls(feed, plan, now, Iterate(feed, plan, c, n))
  }

  /** The same, told from ranks. */
  ghost predicate StallsAt(feed: seq<Fill>, plan: RescanPlan, now: int, since: int, end: int) {
    var a := Rank(feed, since);
    var b := Min(a + plan.cap, Rank(feed, end + 1));
    a < b == a + plan.limit <= |feed| && feed[a].ts == feed[b - 1].ts <= now
  }

  lemma StallsIff(feed: seq<Fill>, plan: RescanPlan, now: int, c: Cursor)
    requires Chronological(feed) && c.since <= c.end
    ensures Stalls(feed, plan, now, c) <==> StallsAt(feed, plan, now, c.since, c.end)
  {
    QueryIsSlice(feed, c.since, c.end, plan.cap);
  }

  lemma StalledAgain(feed: seq<Fill>, plan: RescanPlan, now: int, since: int, end: int, t: int)
    requires Chronological(feed) && StallsAt(feed, plan, now, since, end) && since <= t
    requires t == feed[Min(Rank(feed, since) + plan.cap, Rank(feed, end + 1)) - 1].ts
    ensures StallsAt(feed, plan, now, t, end)
  {
    RankAround(feed, Rank(feed, since));
    RankMonotone(feed, since, t);
  }

  /** A stalled loop reads the same answer again. */
  lemma StalledStays(feed: seq<Fill>, plan: RescanPlan, now: int, c: Cursor)
    requires Chronological(feed) && Sane(plan, c) && Stalls(feed, plan, now, c)
    ensures Sane(plan, Step(feed, plan, c)) && Stalls(feed, plan, now, Step(feed, plan, c))
    ensures c.since <= Step(feed, plan, c).since <= now
  {
    StallsIff(feed, plan, now, c);
    var b := StepMoves(feed, plan, c);
    var n := Step(feed, plan, c);
    StalledAgain(feed, plan, now, c.since, c.end, n.since);
    StallsIff(feed, plan, now, n);
  }

  lemma {:induction false} StalledForever(feed: seq<Fill>, plan: RescanPlan, now: int, c: Cursor, n: nat)
    requires Chronological(feed) && Sane(plan, c) && Stalls(feed, plan, now, c)
    ensures Iterate(feed, plan, c, n).since <= now
    decreases n
  {
    StalledStays(feed, plan, now, c);
    if n > 0 {
      StalledForever(feed, plan, now, Step(feed, plan, c), n - 1);
    }
  }

  lemma NextNeverStalls(feed: seq<Fill>, plan: RescanPlan, now: int, c: Cursor)
    requires 1 <= plan.limit && NeverStalls(feed, plan, now, c)
    ensures !Stalls(feed, plan, now, c) && NeverStalls(feed, plan, now, Step(feed, plan, c))
  {
    assert !Stalls(feed, plan, now, Iterate(feed, plan, c, 0));
    forall n: nat ensures !Stalls(feed, plan, now, Iterate(feed, plan, Step(feed, plan, c), n)) {
      assert !Stalls(feed, plan, now, Iterate(feed, plan, c, n + 1));
    }
  }

  lemma {:induction false} RunsOut(feed: seq<Fill>, plan: RescanPlan, now: int, c: Cursor) returns (n: nat)
    requires Chronological(feed) && Sane(plan, c) && NeverStalls(feed, plan, now, c)
    ensures Stops(feed, plan, now, c, n)
    decreases now - c.since, c.since == c.end
  {
    NextNeverStalls(feed, plan, now, c);
    StepProgresses(feed, plan, now, c);
    var d := Step(feed, plan, c);
    assert Iterate(feed, plan, c, 1) == Iterate(feed, plan, d, 0);
    if d.since > now {
      n := 1;
    } else {
      var m := RunsOut(feed, plan, now, d);
      n := m + 1;
      forall k | 1 <= k < n ensures Iterate(feed, plan, c, k).since <= now {
        assert Iterate(feed, plan, c, k) == Iterate(feed, plan, d, k - 1);
      }
    }
  }

  /** The loop ends if and only if no answer on its way has exactly the compared length and is all of one
      timestamp of the range. */
  lemma HaltsIffNeverStalls(feed: seq<Fill>, plan: RescanPlan, since: int, now: int)
    requires Chronological(feed) && plan.Valid()
    ensures Halts(feed, plan, now, Start(plan, since)) <==> NeverStalls(feed, plan, now, Start(plan, since))
  {
    var c := Start(plan, since);
    if NeverStalls(feed, plan, now, c) {
      var n := RunsOut(feed, plan, now, c);
    } else {
      var n: nat :| Stalls(feed, plan, now, Iterate(feed, plan, c, n));
      forall m: nat ensures Iterate(feed, plan, c, m).since <= now {
        StallKeepsRunning(feed, plan, now, c, n, m);
      }
    }
  }

  lemma StallKeepsRunning(feed: seq<Fill>, plan: RescanPlan, now: int, c: Cursor, n: nat, m: nat)
    requires Chronological(feed) && Sane(plan, c) && Stalls(feed, plan, now, Iterate(feed, plan, c, n))
    ensures Iterate(feed, plan, c, m).since <= now
  {
    IterateMoves(feed, plan, c, n);
    RunsOnStalled(feed, plan, now, c, n, if m <= n then 0 else m - n);
    if m <= n {
      IterateRises(feed, plan, c, m, n);
    }
  }

  lemma RunsOnStalled(feed: seq<Fill>, plan: RescanPlan, now: int, c: Cursor, n: nat, more: nat)
    requires Chronological(feed) && plan.Valid() && Sane(plan, Iterate(feed, plan, c, n))
    requires Stalls(feed, plan, now, Iterate(feed, plan, c, n))
    ensures Iterate(feed, plan, c, n + more).since <= now
  {
    IterateConcat(feed, plan, c, n, more);
    StalledForever(feed, plan, now, Iterate(feed, plan, c, n), more);
  }

  lemma IterateRises(feed: seq<Fill>, plan: RescanPlan, c: Cursor, m: nat, n: nat)
    requires Chronological(feed) && Sane(plan, c) && m <= n
    ensures Iterate(feed, plan, c, m).since <= Iterate(feed, plan, c, n).since
  {
    IterateMoves(feed, plan, c, m);
    IterateConcat(feed, plan, c, m, n - m);
    IterateMoves(feed, plan, Iterate(feed, plan, c, m), n - m);
  }

  // ---------------------------------------------------------------- completeness

  /** `all` holds the fills of feed[lo..k], possibly several times, and nothing else. */
  ghost predicate Holds(feed: seq<Fill>, lo: int, k: int, all: seq<Fill>) {
    0 <= lo <= k <= |feed| && forall f :: f in all <==> f in feed[lo..k]
  }

  /** Every event from `since` to `now`, and otherwise only later ones of the feed. */
  ghost predicate CollectsExactly(feed: seq<Fill>, since: int, now: int, all: seq<Fill>) {
    exists k :: Holds(feed, Rank(feed, since), k, all) && Rank(feed, now + 1) <= k
  }

  ghost predicate NeverSkips(feed: seq<Fill>, plan: RescanPlan, now: int, c: Cursor)
    requires 1 <= plan.limit
  {
    forall n: nat :: !Skips(feed, plan, now, Iterate(feed, plan, c, n))
  }

  lemma HoldsGrows(feed: seq<Fill>, lo: nat, k: nat, all: seq<Fill>, a: nat, b: nat)
    requires Holds(feed, lo, k, all) && lo <= a <= k && a <= b <= |feed|
    ensures Holds(feed, lo, if k <= b then b else k, feed[a..b] + all)
  {
    var m := if k <= b then b else k;
    forall f ensures f in feed[a..b] + all <==> f in feed[lo..m] {
      if f in feed[a..b] {
        var i :| 0 <= i < b - a && feed[a..b][i] == f;
        assert feed[lo..m][a + i - lo] == f;
      }
      if f in feed[lo..k] {
        var i :| 0 <= i < k - lo && feed[lo..k][i] == f;
        assert feed[lo..m][i] == f;
      }
      if f in feed[lo..m] {
        var i :| 0 <= i < m - lo && feed[lo..m][i] == f;
        if lo + i < k {
          assert feed[lo..k][i] == f;
        } else {
          assert feed[a..b][lo + i - a] == f;
        }
      }
    }
  }

  /** The collected stretch reaches `since`, and no further than its timestamp. */
  ghost predicate Reaches(feed: seq<Fill>, c: Cursor, lo: int, k: int) {
    Holds(feed, lo, k, c.all) && lo <= Rank(feed, c.since) <= k <= Rank(feed, c.since + 1)
  }

  /** One iteration extends the collected stretch up to the new `since`, or past `now`. */
  lemma StepCollects(feed: seq<Fill>, plan: RescanPlan, now: int, c: Cursor, lo: nat, k: nat) returns (k': nat)
    requires Chronological(feed) && Sane(plan, c) && Reaches(feed, c, lo, k) && !Skips(feed, plan, now, c)
    ensures var n := Step(feed, plan, c);
            if n.since <= now then Reaches(feed, n, lo, k') else Holds(feed, lo, k', n.all) && Rank(feed, now + 1) <= k'
  {
    var b := StepFromPage(feed, plan, c);
    b := StepMoves(feed, plan, c);
    var n := Step(feed, plan, c);
    HoldsGrows(feed, lo, k, c.all, Rank(feed, c.since), b);
    k' := if k <= b then b else k;
    RankMonotone(feed, c.since + 1, n.since + 1);
    RankMonotone(feed, c.since, n.since);
    if n.since <= now {
      RankMonotone(feed, n.since, c.end + 1);
    } else {
      RankMonotone(feed, now + 1, n.since);
      RankMonotone(feed, n.since, c.end + 1);
    }
  }

  lemma {:induction false} ReachesAfter(feed: seq<Fill>, plan: RescanPlan, now: int, c: Cursor, lo: nat, k: nat, n: nat)
    returns (k': nat)
    requires Chronological(feed) && Sane(plan, c) && Reaches(feed, c, lo, k) && NeverSkips(feed, plan, now, c)
    requires forall m :: 1 <= m <= n ==> Iterate(feed, plan, c, m).since <= now
    ensures Reaches(feed, Iterate(feed, plan, c, n), lo, k')
    decreases n
  {
    k' := k;
    if n > 0 {
      k' := ReachesAfter(feed, plan, now, c, lo, k, n - 1);
      IterateMoves(feed, plan, c, n - 1);
      IterateOneMore(feed, plan, c, n - 1);
      k' := StepCollects(feed, plan, now, Iterate(feed, plan, c, n - 1), lo, k');
    }
  }

  lemma StopCollects(feed: seq<Fill>, plan: RescanPlan, now: int, c: Cursor, lo: nat, k: nat, n: nat) returns (k': nat)
    requires Chronological(feed) && Sane(plan, c) && Reaches(feed, c, lo, k) && NeverSkips(feed, plan, now, c)
    requires Stops(feed, plan, now, c, n)
    ensures Holds(feed, lo, k', Iterate(feed, plan, c, n).all) && Rank(feed, now + 1) <= k'
  {
    k' := ReachesAfter(feed, plan, now, c, lo, k, n - 1);
    IterateMoves(feed, plan, c, n - 1);
    IterateOneMore(feed, plan, c, n - 1);
    k' := StepCollects(feed, plan, now, Iterate(feed, plan, c, n - 1), lo, k');
  }

  /** A loop that skips nothing on its way returns every event from `since` to `now`. */
  lemma RunCollects(feed: seq<Fill>, plan: RescanPlan, since: int, now: int, all: seq<Fill>)
    requires Chronological(feed) && plan.Valid()
    requires Returns(feed, plan, since, now, all) && NeverSkips(feed, plan, now, Start(plan, since))
    ensures CollectsExactly(feed, since, now, all)
  {
    var lo, c := Rank(feed, since), Start(plan, since);
    var n: nat :| Stops(feed, plan, now, c, n) && Iterate(feed, plan, c, n).all == all;
    RankMonotone(feed, since, since + 1);
    assert feed[lo..lo] == [];
    var k := StopCollects(feed, plan, now, c, lo, lo, n);
  }

  /** What exact collection means event by event. */
  lemma CollectedEvents(feed: seq<Fill>, since: int, now: int, all: seq<Fill>, f: Fill)
    requires Chronological(feed) && CollectsExactly(feed, since, now, all)
    ensures f in all ==> f in feed && since <= f.ts
    ensures f in feed && since <= f.ts <= now ==> f in all
  {
    var lo := Rank(feed, since);
    var k :| Holds(feed, lo, k, all) && Rank(feed, now + 1) <= k;
    RankSplits(feed, since);
    RankSplits(feed, now + 1);
    if f in feed && since <= f.ts <= now {
      var i :| 0 <= i < |feed| && feed[i] == f;
      assert feed[lo..k][i - lo] == f;
    }
  }

  // ---------------------------------------------------------------- what is skipped is lost

  lemma {:induction false} NeverCollected(feed: seq<Fill>, plan: RescanPlan, c: Cursor, j: nat, n: nat)
    requires Chronological(feed) && DistinctIds(feed) && Sane(plan, c) && j < Rank(feed, c.since) && feed[j] !in c.all
    ensures feed[j] !in Iterate(feed, plan, c, n).all
    decreases n
  {
    if n > 0 {
      StepLeavesOut(feed, plan, c, j);
      NeverCollected(feed, plan, Step(feed, plan, c), j, n - 1);
    }
  }

  lemma StepLeavesOut(feed: seq<Fill>, plan: RescanPlan, c: Cursor, j: nat)
    requires Chronological(feed) && DistinctIds(feed) && Sane(plan, c) && j < |feed| && feed[j] !in c.all
    requires j < Rank(feed, c.since) || AnswerEnd(feed, plan, c) <= j
    ensures Sane(plan, Step(feed, plan, c)) && feed[j] !in Step(feed, plan, c).all
    ensures Rank(feed, c.since) <= Rank(feed, Step(feed, plan, c).since)
  {
    var b := StepMoves(feed, plan, c);
    BeyondPage(feed, Rank(feed, c.since), b, j);
    RankMonotone(feed, c.since, Step(feed, plan, c).since);
  }

  /** As long as `since` has not passed `last`, nothing beyond one answer from there is collected. */
  lemma {:induction false} NotYetCollected(feed: seq<Fill>, plan: RescanPlan, c: Cursor, j: nat, last: int, n: nat)
    requires Chronological(feed) && DistinctIds(feed) && Sane(plan, c) && j < |feed| && feed[j] !in c.all
    requires Iterate(feed, plan, c, n).since <= last && Rank(feed, last) + plan.cap <= j
    ensures feed[j] !in Iterate(feed, plan, c, n).all
    decreases n
  {
    if n > 0 {
      IterateMoves(feed, plan, c, n);
      RankMonotone(feed, c.since, last);
      StepLeavesOut(feed, plan, c, j);
      NotYetCollected(feed, plan, Step(feed, plan, c), j, last, n - 1);
    }
  }

  /** A skipping iteration loses an event of the range for good. */
  lemma SkippedIsLost(feed: seq<Fill>, plan: RescanPlan, now: int, c: Cursor, n: nat) returns (f: Fill)
    requires Chronological(feed) && DistinctIds(feed) && Sane(plan, c) && c.all == []
    requires Skips(feed, plan, now, Iterate(feed, plan, c, n))
    ensures f in feed && c.since <= f.ts <= now
    ensures forall m: nat :: m > n ==> f !in Iterate(feed, plan, c, m).all
  {
    var d := Iterate(feed, plan, c, n);
    var j := Rank(feed, d.since) + plan.cap;
    IterateMoves(feed, plan, c, n);
    BetweenRanks(feed, d.since, Min(d.end, now + 1) - 1, j);
    f := feed[j];
    NotYetCollected(feed, plan, c, j, d.since, n);
    LostAfterSkip(feed, plan, now, d, j);
    IterateOneMore(feed, plan, c, n);
    forall m: nat | m > n ensures f !in Iterate(feed, plan, c, m).all {
      LostForGood(feed, plan, c, j, n + 1, m - n - 1);
    }
  }

  lemma LostForGood(feed: seq<Fill>, plan: RescanPlan, c: Cursor, j: nat, n: nat, more: nat)
    requires Chronological(feed) && DistinctIds(feed) && plan.Valid() && Sane(plan, Iterate(feed, plan, c, n))
    requires j < Rank(feed, Iterate(feed, plan, c, n).since) && feed[j] !in Iterate(feed, plan, c, n).all
    ensures feed[j] !in Iterate(feed, plan, c, n + more).all
  {
    IterateConcat(feed, plan, c, n, more);
    NeverCollected(feed, plan, Iterate(feed, plan, c, n), j, more);
  }

  /** The same as skipping, told from ranks. */
  lemma SkipsByRank(feed: seq<Fill>, plan: RescanPlan, now: int, c: Cursor)
    requires Chronological(feed) && c.since <= c.end
    ensures Skips(feed, plan, now, c) <==>
            && AnswerEnd(feed, plan, c) != Rank(feed, c.since) + plan.limit
            && Rank(feed, c.since) + plan.cap < Rank(feed, Min(c.end, now + 1))
  {
    QueryIsSlice(feed, c.since, c.end, plan.cap);
  }

  lemma LostAfterSkip(feed: seq<Fill>, plan: RescanPlan, now: int, c: Cursor, j: nat)
    requires Chronological(feed) && DistinctIds(feed) && Sane(plan, c) && Skips(feed, plan, now, c)
    requires j == Rank(feed, c.since) + plan.cap && j < |feed| && feed[j] !in c.all
    ensures j < Rank(feed, Step(feed, plan, c).since) && feed[j] !in Step(feed, plan, c).all
    ensures Sane(plan, Step(feed, plan, c))
  {
    SkipsByRank(feed, plan, now, c);
    var b := StepMoves(feed, plan, c);
    StepLeavesOut(feed, plan, c, j);
    RankMonotone(feed, Min(c.end, now + 1), c.end);
  }

  /** The loop ends, and returns every event from `since` to `now`. */
  ghost predicate CompleteFrom(feed: seq<Fill>, plan: RescanPlan, since: int, now: int)
    requires 1 <= plan.limit
  {
    exists all :: Returns(feed, plan, since, now, all) && Complete(feed, since, now + 1, all)
  }

  /** From a given start: complete if and only if nothing on the way stalls or skips. */
  lemma CompleteIff(feed: seq<Fill>, plan: RescanPlan, since: int, now: int)
    requires Chronological(feed) && DistinctIds(feed) && plan.Valid()
    ensures CompleteFrom(feed, plan, since, now)
       <==> NeverStalls(feed, plan, now, Start(plan, since)) && NeverSkips(feed, plan, now, Start(plan, since))
  {
    var c := Start(plan, since);
    HaltsIffNeverStalls(feed, plan, since, now);
    if NeverStalls(feed, plan, now, c) && NeverSkips(feed, plan, now, c) {
      var n := RunsOut(feed, plan, now, c);
      var all := Iterate(feed, plan, c, n).all;
      RunCollects(feed, plan, since, now, all);
      forall f | f in feed && since <= f.ts < now + 1 ensures f in all {
        CollectedEvents(feed, since, now, all, f);
      }
      assert Returns(feed, plan, since, now, all) && Complete(feed, since, now + 1, all);
    }
    if CompleteFrom(feed, plan, since, now) {
      CompleteNeverSkips(feed, plan, since, now);
    }
  }

  lemma CompleteNeverSkips(feed: seq<Fill>, plan: RescanPlan, since: int, now: int)
    requires Chronological(feed) && DistinctIds(feed) && plan.Valid() && CompleteFrom(feed, plan, since, now)
    ensures Halts(feed, plan, now, Start(plan, since)) && NeverSkips(feed, plan, now, Start(plan, since))
  {
    var c := Start(plan, since);
    var all :| Returns(feed, plan, since, now, all) && Complete(feed, since, now + 1, all);
    var n: nat :| Stops(feed, plan, now, c, n) && Iterate(feed, plan, c, n).all == all;
    assert n >= 1 && Iterate(feed, plan, c, n).since > now;
    if !NeverSkips(feed, plan, now, c) {
      SkipIsIncomplete(feed, plan, since, now, n);
      assert false;
    }
  }

  lemma SkipIsIncomplete(feed: seq<Fill>, plan: RescanPlan, since: int, now: int, n: nat)
    requires Chronological(feed) && DistinctIds(feed) && plan.Valid() && Stops(feed, plan, now, Start(plan, since), n)
    requires !NeverSkips(feed, plan, now, Start(plan, since))
    ensures !Complete(feed, since, now + 1, Iterate(feed, plan, Start(plan, since), n).all)
  {
    var c := Start(plan, since);
    var m: nat :| Skips(feed, plan, now, Iterate(feed, plan, c, m));
    var f := SkippedIsLost(feed, plan, now, c, m);
    if m >= n {
      IterateRises(feed, plan, c, n, m);
      SkipIsInRange(feed, plan, now, Iterate(feed, plan, c, m));
      assert false;
    }
  }

  lemma SkipIsInRange(feed: seq<Fill>, plan: RescanPlan, now: int, c: Cursor)
    requires Chronological(feed) && Skips(feed, plan, now, c)
    ensures c.since <= now
  {
    if c.since > now {
      RankMonotone(feed, Min(c.end, now + 1), c.since);
      assert false;
    }
  }

  // ---------------------------------------------------------------- an answer capped at the compared length

  /** No timestamp between `from` and `now` carries a full page of events. */
  ghost predicate Sparse(feed: seq<Fill>, limit: nat, from: int, now: int) {
    forall t :: from <= t <= now ==> CountAt(feed, t) < limit
  }

  /** The events of a timestamp that fall into an answer. */
  lemma StallIsBurst(feed: seq<Fill>, plan: RescanPlan, now: int, c: Cursor) returns (t: int)
    requires Chronological(feed) && Sane(plan, c) && Stalls(feed, plan, now, c)
    ensures c.since <= t <= now && CountAt(feed, t) >= plan.limit
  {
    StallsIff(feed, plan, now, c);
    t := feed[Rank(feed, c.since)].ts;
    BurstCounts(feed, Rank(feed, c.since), plan.limit, t);
    BetweenRanks(feed, c.since, c.end, Rank(feed, c.since));
  }

  lemma BurstCounts(feed: seq<Fill>, a: nat, n: nat, t: int)
    requires Chronological(feed) && 0 < n && a + n <= |feed| && feed[a].ts == feed[a + n - 1].ts == t
    ensures CountAt(feed, t) >= n
  {
    RankAround(feed, a);
    RankAround(feed, a + n - 1);
    CountAtIsRankStep(feed, t);
  }

  lemma SparseNeverStalls(feed: seq<Fill>, plan: RescanPlan, since: int, now: int)
    requires Chronological(feed) && plan.Valid() && Sparse(feed, plan.limit, since, now)
    ensures NeverStalls(feed, plan, now, Start(plan, since))
  {
    var c := Start(plan, since);
    forall n: nat ensures !Stalls(feed, plan, now, Iterate(feed, plan, c, n)) {
      IterateMoves(feed, plan, c, n);
      if Stalls(feed, plan, now, Iterate(feed, plan, c, n)) {
        var t := StallIsBurst(feed, plan, now, Iterate(feed, plan, c, n));
        assert false;
      }
    }
  }

  /** An answer below its cap is the whole window. */
  lemma CappedNeverSkips(feed: seq<Fill>, plan: RescanPlan, since: int, now: int)
    requires Chronological(feed) && plan.Valid() && plan.cap == plan.limit
    ensures NeverSkips(feed, plan, now, Start(plan, since))
  {
    var c := Start(plan, since);
    forall n: nat ensures !Skips(feed, plan, now, Iterate(feed, plan, c, n)) {
      IterateMoves(feed, plan, c, n);
      CappedSkipsNothing(feed, plan, now, Iterate(feed, plan, c, n));
    }
  }

  lemma CappedSkipsNothing(feed: seq<Fill>, plan: RescanPlan, now: int, c: Cursor)
    requires Chronological(feed) && c.since <= c.end && plan.cap == plan.limit
    ensures !Skips(feed, plan, now, c)
  {
    SkipsByRank(feed, plan, now, c);
    RankMonotone(feed, Min(c.end, now + 1), c.end + 1);
  }

  /** With answers capped at the compared length the cursor never gets past a timestamp that fills one. */
  lemma {:induction false} StuckAt(feed: seq<Fill>, plan: RescanPlan, c: Cursor, t: int, n: nat)
    requires Chronological(feed) && Sane(plan, c) && plan.cap == plan.limit
    requires c.since <= t && plan.limit <= CountAt(feed, t)
    ensures Iterate(feed, plan, c, n).since <= t
    decreases n
  {
    if n > 0 {
      var b := StepMoves(feed, plan, c);
      StuckStep(feed, plan, c, t);
      StuckAt(feed, plan, Step(feed, plan, c), t, n - 1);
    }
  }

  lemma StuckStep(feed: seq<Fill>, plan: RescanPlan, c: Cursor, t: int)
    requires Chronological(feed) && Sane(plan, c) && plan.cap == plan.limit
    requires c.since <= t && plan.limit <= CountAt(feed, t)
    ensures Step(feed, plan, c).since <= t
  {
    var b := StepMoves(feed, plan, c);
    if t <= c.end {
      CountAtIsRankStep(feed, t);
      RankMonotone(feed, c.since, t);
      RankMonotone(feed, t + 1, c.end + 1);
      BetweenRanks(feed, c.since, t, b - 1);
    }
  }

  /** Then the loop ends if and only if no timestamp of the range fills an answer, and is complete when it ends. */
  lemma HaltsIffSparse(feed: seq<Fill>, plan: RescanPlan, since: int, now: int)
    requires Chronological(feed) && plan.Valid() && plan.cap == plan.limit
    ensures Halts(feed, plan, now, Start(plan, since)) <==> Sparse(feed, plan.limit, since, now)
    ensures forall all :: Returns(feed, plan, since, now, all) ==> CollectsExactly(feed, since, now, all)
  {
    var c := Start(plan, since);
    if Sparse(feed, plan.limit, since, now) {
      SparseNeverStalls(feed, plan, since, now);
      HaltsIffNeverStalls(feed, plan, since, now);
    } else {
      var t :| since <= t <= now && plan.limit <= CountAt(feed, t);
      forall n: nat ensures Iterate(feed, plan, c, n).since <= now {
        StuckAt(feed, plan, c, t, n);
      }
    }
    CappedNeverSkips(feed, plan, since, now);
    forall all | Returns(feed, plan, since, now, all) ensures CollectsExactly(feed, since, now, all) {
      RunCollects(feed, plan, since, now, all);
    }
  }
}
