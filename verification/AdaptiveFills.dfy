/** The OKX and KuCoin fill readers: consecutive windows whose span shrinks while a page is
    full and grows while pages are empty. */
module AdaptiveFills {
  import opened Feed

  const HOUR := 60 * 60 * 1000
  const DAY := 24 * HOUR
  const WEEK := 7 * DAY

  const OKX := Plan(HOUR, WEEK, 4 * WEEK, 100)
  const KUCOIN := Plan(HOUR, DAY, 7 * DAY, 1000)

  lemma ConfiguredPlansAreValid()
    ensures OKX.Valid() && KUCOIN.Valid()
  {
  }

  /** A closed request window. */
  datatype Slot = Slot(start: int, end: int)

  function SlotEnd(cursor: int, span: int, now: int): int {
    Min(cursor + span - 1, now)
  }

  /** The span at which a page is accepted: halved, but not below the minimum, while it is full. */
  function AcceptedSpan(feed: seq<Fill>, plan: Plan, now: int, cursor: int, span: int): (r: int)
    requires 1 <= plan.minSpan <= span
    ensures plan.minSpan <= r <= span
    ensures |Query(feed, cursor, SlotEnd(cursor, r, now), plan.limit)| >= plan.limit ==> r == plan.minSpan
    decreases span
  {
    if |Query(feed, cursor, SlotEnd(cursor, span, now), plan.limit)| >= plan.limit && span > plan.minSpan
    then AcceptedSpan(feed, plan, now, cursor, Max(plan.minSpan, span / 2))
    else span
  }

  datatype Result = Result(out: seq<Fill>, slots: seq<Slot>)

  ghost function Scan(feed: seq<Fill>, plan: Plan, now: int, cursor: int, pageSpan: int, out: seq<Fill>,
                      slots: seq<Slot>): Result
    requires plan.Valid() && plan.minSpan <= pageSpan <= plan.maxSpan
    decreases now - cursor
  {
    if cursor >= now then Result(out, slots)
    else
      var end := SlotEnd(cursor, AcceptedSpan(feed, plan, now, cursor, pageSpan), now);
      var page := Query(feed, cursor, end, plan.limit);
      Scan(feed, plan, now, end + 1, NextSpan(plan, pageSpan, page), Absorb(out, page), slots + [Slot(cursor, end)])
  }

  /** The inner loop: halves the span until the page is not full or the span is minimal. */
  method AcceptPage(feed: seq<Fill>, plan: Plan, now: int, cursor: int, pageSpan: int)
    returns (end: int, page: seq<Fill>)
    requires plan.Valid() && plan.minSpan <= pageSpan <= plan.maxSpan && cursor < now
    ensures end == SlotEnd(cursor, AcceptedSpan(feed, plan, now, cursor, pageSpan), now)
    ensures page == Query(feed, cursor, end, plan.limit)
  {
    var span := pageSpan;
    end := SlotEnd(cursor, span, now);
    page := Query(feed, cursor, end, plan.limit);
    while |page| >= plan.limit && span > plan.minSpan
      invariant plan.minSpan <= span <= pageSpan
      invariant end == SlotEnd(cursor, span, now) && page == Query(feed, cursor, end, plan.limit)
      invariant AcceptedSpan(feed, plan, now, cursor, span) == AcceptedSpan(feed, plan, now, cursor, pageSpan)
      decreases span
    {
      span := Max(plan.minSpan, span / 2);
      end := SlotEnd(cursor, span, now);
      page := Query(feed, cursor, end, plan.limit);
    }
  }

  /** The outer loop. `slots` records the accepted windows. */
  method ScanPages(feed: seq<Fill>, plan: Plan, since: int, now: int) returns (executions: seq<Fill>, slots: seq<Slot>)
    requires plan.Valid()
    ensures Result(executions, slots) == Scan(feed, plan, now, since, plan.initialSpan, [], [])
    ensures DistinctIds(executions)
  {
    executions, slots := [], [];
    var cursor := since;
    var seen: set<string> := {};
    var pageSpan: int := plan.initialSpan;
    while cursor < now
      invariant plan.minSpan <= pageSpan <= plan.maxSpan
      invariant seen == Ids(executions) && DistinctIds(executions)
      invariant Scan(feed, plan, now, cursor, pageSpan, executions, slots)
             == Scan(feed, plan, now, since, plan.initialSpan, [], [])
      decreases now - cursor
    {
      var end, page := AcceptPage(feed, plan, now, cursor, pageSpan);
      ScanStep(feed, plan, now, cursor, pageSpan, executions, slots, end, page);
      if page != [] {
        pageSpan := plan.initialSpan;
        AbsorbKeepsDistinct(executions, page);
        var maxTs, nNew;
        seen, executions, maxTs, nNew := AbsorbPage(cursor, seen, executions, page);
      } else {
        pageSpan := Min(pageSpan * 2, plan.maxSpan);
      }
      slots := slots + [Slot(cursor, end)];
      cursor := end + 1;
    }
  }

  /** The reader: its accepted windows tile the range, and an uncrowded feed comes back without gap or repeat. */
  method FetchFills(feed: seq<Fill>, plan: Plan, since: int, now: int) returns (executions: seq<Fill>, slots: seq<Slot>)
    requires plan.Valid()
    ensures DistinctIds(executions)
    ensures since < now ==> Tiles(slots, since, now, plan.maxSpan)
    ensures WellFormed(feed) && Uncrowded(feed, plan, now) && since <= now ==> GapFree(feed, since, now, executions)
  {
    executions, slots := ScanPages(feed, plan, since, now);
    if since < now {
      ScanTiles(feed, plan, since, now, since, plan.initialSpan, [], []);
    }
    if WellFormed(feed) && Uncrowded(feed, plan, now) && since <= now {
      UncrowdedIsGapFree(feed, plan, since, now);
    }
  }

  // ---------------------------------------------------------------- tiling

  /** Window i is not empty, no wider than `maxSpan`, and starts right after its predecessor. */
  ghost predicate Joined(slots: seq<Slot>, i: int, maxSpan: int) {
    0 <= i < |slots| ==>
      && 1 <= slots[i].end - slots[i].start + 1 <= maxSpan
      && (0 < i ==> slots[i].start == slots[i - 1].end + 1)
  }

  /** Windows that start at `since`, follow each other without gap or overlap, and end before `next`. */
  ghost predicate Chain(slots: seq<Slot>, since: int, next: int, maxSpan: int) {
    && slots != []
    && slots[0].start == since
    && slots[|slots| - 1].end + 1 == next
    && (forall i :: Joined(slots, i, maxSpan))
  }

  ghost predicate Tiles(slots: seq<Slot>, since: int, now: int, maxSpan: int) {
    Chain(slots, since, now, maxSpan) || Chain(slots, since, now + 1, maxSpan)
  }

  lemma ChainGrows(slots: seq<Slot>, since: int, cursor: int, end: int, maxSpan: int)
    requires if slots == [] then cursor == since else Chain(slots, since, cursor, maxSpan)
    requires 1 <= end - cursor + 1 <= maxSpan
    ensures Chain(slots + [Slot(cursor, end)], since, end + 1, maxSpan)
  {
    var more := slots + [Slot(cursor, end)];
    forall i ensures Joined(more, i, maxSpan) {
      if 0 <= i < |slots| {
        assert Joined(slots, i, maxSpan);
        assert more[i] == slots[i] && (0 < i ==> more[i - 1] == slots[i - 1]);
      }
    }
  }

  /** A chain without its last window is a chain. */
  lemma ChainShrinks(slots: seq<Slot>, since: int, next: int, maxSpan: int)
    requires Chain(slots, since, next, maxSpan) && |slots| > 1
    ensures Chain(slots[..|slots| - 1], since, slots[|slots| - 1].start, maxSpan)
    ensures slots[|slots| - 1].start < next
  {
    var n := |slots| - 1;
    var front := slots[..n];
    assert Joined(slots, n, maxSpan);
    forall i ensures Joined(front, i, maxSpan) {
      assert Joined(slots, i, maxSpan);
    }
  }

  ghost predicate YieldsTiles(feed: seq<Fill>, plan: Plan, since: int, now: int, cursor: int, pageSpan: int,
                              out: seq<Fill>, slots: seq<Slot>)
    requires plan.Valid() && plan.minSpan <= pageSpan <= plan.maxSpan
  {
    Tiles(Scan(feed, plan, now, cursor, pageSpan, out, slots).slots, since, now, plan.maxSpan)
  }

  /** The windows accepted so far cover the range up to the cursor. */
  ghost predicate TilesUpTo(slots: seq<Slot>, since: int, now: int, cursor: int, maxSpan: int) {
    if slots == [] then cursor == since < now else Chain(slots, since, cursor, maxSpan) && cursor <= now + 1
  }

  lemma TilesOneMore(slots: seq<Slot>, since: int, now: int, cursor: int, end: int, maxSpan: int)
    requires TilesUpTo(slots, since, now, cursor, maxSpan) && cursor <= end <= now && end - cursor + 1 <= maxSpan
    ensures TilesUpTo(slots + [Slot(cursor, end)], since, now, end + 1, maxSpan)
  {
    ChainGrows(slots, since, cursor, end, maxSpan);
  }

  lemma StepTiles(feed: seq<Fill>, plan: Plan, since: int, now: int, cursor: int, pageSpan: int, out: seq<Fill>,
                  slots: seq<Slot>, end: int, page: seq<Fill>)
    requires plan.Valid() && plan.minSpan <= pageSpan <= plan.maxSpan && cursor < now
    requires end == SlotEnd(cursor, AcceptedSpan(feed, plan, now, cursor, pageSpan), now)
    requires page == Query(feed, cursor, end, plan.limit)
    requires YieldsTiles(feed, plan, since, now, end + 1, NextSpan(plan, pageSpan, page), Absorb(out, page),
             slots + [Slot(cursor, end)])
    ensures YieldsTiles(feed, plan, since, now, cursor, pageSpan, out, slots)
  {
    ScanStep(feed, plan, now, cursor, pageSpan, out, slots, end, page);
  }

  /** The accepted windows follow each other from `since` to the end of the range. */
  lemma {:induction false} ScanTiles(feed: seq<Fill>, plan: Plan, since: int, now: int, cursor: int, pageSpan: int,
                                     out: seq<Fill>, slots: seq<Slot>)
    requires plan.Valid() && plan.minSpan <= pageSpan <= plan.maxSpan
    requires TilesUpTo(slots, since, now, cursor, plan.maxSpan)
    ensures YieldsTiles(feed, plan, since, now, cursor, pageSpan, out, slots)
    decreases now - cursor
  {
    if cursor < now {
      var end := SlotEnd(cursor, AcceptedSpan(feed, plan, now, cursor, pageSpan), now);
      var page := Query(feed, cursor, end, plan.limit);
      TilesOneMore(slots, since, now, cursor, end, plan.maxSpan);
      ScanTiles(feed, plan, since, now, end + 1, NextSpan(plan, pageSpan, page), Absorb(out, page),
          slots + [Slot(cursor, end)]);
      StepTiles(feed, plan, since, now, cursor, pageSpan, out, slots, end, page);
    }
  }

  /** Every instant before `next` lies in exactly one window of a chain. */
  lemma {:induction false} ChainCoversOnce(slots: seq<Slot>, since: int, next: int, maxSpan: int, t: int)
    returns (i: nat)
    requires Chain(slots, since, next, maxSpan) && since <= t < next
    ensures i < |slots| && slots[i].start <= t <= slots[i].end
    ensures forall j :: 0 <= j < |slots| && slots[j].start <= t <= slots[j].end ==> j == i
    decreases |slots|
  {
    var n := |slots| - 1;
    if n == 0 {
      i := 0;
    } else {
      var front := slots[..n];
      ChainShrinks(slots, since, next, maxSpan);
      ChainStaysBelow(front, since, slots[n].start, maxSpan);
      if slots[n].start <= t {
        i := n;
        forall j | 0 <= j < n ensures slots[j].end < t {
          assert front[j] == slots[j];
        }
      } else {
        i := ChainCoversOnce(front, since, slots[n].start, maxSpan, t);
        forall j | 0 <= j < |slots| && slots[j].start <= t <= slots[j].end ensures j == i {
          if j < n {
            assert front[j] == slots[j];
          }
        }
      }
    }
  }

  lemma {:induction false} ChainStaysBelow(slots: seq<Slot>, since: int, next: int, maxSpan: int)
    requires Chain(slots, since, next, maxSpan)
    ensures forall j :: 0 <= j < |slots| ==> slots[j].end < next
    decreases |slots|
  {
    var n := |slots| - 1;
    if n > 0 {
      ChainShrinks(slots, since, next, maxSpan);
      ChainStaysBelow(slots[..n], since, slots[n].start, maxSpan);
      forall j | 0 <= j < |slots| ensures slots[j].end < next {
        if j < n {
          assert slots[..n][j] == slots[j];
        }
      }
    }
  }

  // ---------------------------------------------------------------- completeness

  /** No stretch of the minimum span holds more fills than a page. */
  ghost predicate Uncrowded(feed: seq<Fill>, plan: Plan, now: int) {
    forall a :: a < now ==> |MinWindow(feed, plan, now, a)| <= plan.limit
  }

  /** The fills before `now` of the minimum window that starts at `a`. */
  ghost function MinWindow(feed: seq<Fill>, plan: Plan, now: int, a: int): seq<Fill> {
    Window(feed, a, Min(a + plan.minSpan, now) - 1)
  }

  ghost function Collected(feed: seq<Fill>, plan: Plan, now: int, cursor: int, pageSpan: int, out: seq<Fill>,
                           slots: seq<Slot>): seq<Fill>
    requires plan.Valid() && plan.minSpan <= pageSpan <= plan.maxSpan
  {
    Scan(feed, plan, now, cursor, pageSpan, out, slots).out
  }

  lemma ScanStep(feed: seq<Fill>, plan: Plan, now: int, cursor: int, pageSpan: int, out: seq<Fill>, slots: seq<Slot>,
                 end: int, page: seq<Fill>)
    requires plan.Valid() && plan.minSpan <= pageSpan <= plan.maxSpan && cursor < now
    requires end == SlotEnd(cursor, AcceptedSpan(feed, plan, now, cursor, pageSpan), now)
    requires page == Query(feed, cursor, end, plan.limit)
    ensures Scan(feed, plan, now, cursor, pageSpan, out, slots)
         == Scan(feed, plan, now, end + 1, NextSpan(plan, pageSpan, page), Absorb(out, page),
                 slots + [Slot(cursor, end)])
  {
  }

  /** The index one accepted page of an uncrowded feed reaches. */
  lemma AcceptedPage(feed: seq<Fill>, plan: Plan, now: int, cursor: int, pageSpan: int)
    returns (end: int, page: seq<Fill>, b: nat)
    requires WellFormed(feed) && plan.Valid() && Uncrowded(feed, plan, now)
    requires cursor < now && plan.minSpan <= pageSpan <= plan.maxSpan
    ensures end == SlotEnd(cursor, AcceptedSpan(feed, plan, now, cursor, pageSpan), now) && cursor <= end <= now
    ensures Rank(feed, cursor) <= b <= |feed|
    ensures page == Query(feed, cursor, end, plan.limit) == feed[Rank(feed, cursor)..b]
    ensures if end < now then b == Rank(feed, end + 1) else Rank(feed, now) <= b <= Rank(feed, now + 1)
  {
    var span := AcceptedSpan(feed, plan, now, cursor, pageSpan);
    end := SlotEnd(cursor, span, now);
    page := Query(feed, cursor, end, plan.limit);
    QueryIsSlice(feed, cursor, end, plan.limit);
    b := Min(Rank(feed, cursor) + plan.limit, Rank(feed, end + 1));
    RankMonotone(feed, now, now + 1);
    if |page| >= plan.limit {
      MinWindowFits(feed, plan, now, cursor);
    }
  }

  /** The ranks of the ends of an uncrowded minimum window are no further apart than a page. */
  lemma MinWindowFits(feed: seq<Fill>, plan: Plan, now: int, cursor: int)
    requires Chronological(feed) && plan.Valid() && Uncrowded(feed, plan, now) && cursor < now
    ensures Rank(feed, Min(cursor + plan.minSpan, now)) <= Rank(feed, cursor) + plan.limit
  {
    assert |MinWindow(feed, plan, now, cursor)| <= plan.limit;
    WindowIsSlice(feed, cursor, Min(cursor + plan.minSpan, now) - 1);
  }

  ghost predicate YieldsGapFree(feed: seq<Fill>, plan: Plan, since: int, now: int, cursor: int, pageSpan: int,
                                out: seq<Fill>, slots: seq<Slot>)
    requires plan.Valid() && plan.minSpan <= pageSpan <= plan.maxSpan
  {
    GapFree(feed, since, now, Scan(feed, plan, now, cursor, pageSpan, out, slots).out)
  }

  /** The collected fills reach index `k` when the cursor does. */
  ghost predicate Reached(feed: seq<Fill>, now: int, lo: int, cursor: int, k: int) {
    && 0 <= lo <= k <= |feed|
    && if cursor < now then k == Rank(feed, cursor) else Rank(feed, now) <= k <= Rank(feed, now + 1)
  }

  lemma AcceptedRound(feed: seq<Fill>, plan: Plan, now: int, cursor: int, pageSpan: int, lo: nat, k: nat)
    returns (end: int, page: seq<Fill>, b: nat)
    requires WellFormed(feed) && plan.Valid() && Uncrowded(feed, plan, now)
    requires cursor < now && plan.minSpan <= pageSpan <= plan.maxSpan && Reached(feed, now, lo, cursor, k)
    ensures end == SlotEnd(cursor, AcceptedSpan(feed, plan, now, cursor, pageSpan), now) && cursor <= end
    ensures page == Query(feed, cursor, end, plan.limit)
    ensures Reached(feed, now, lo, end + 1, b) && Absorb(feed[lo..k], page) == feed[lo..b]
  {
    end, page, b := AcceptedPage(feed, plan, now, cursor, pageSpan);
    AbsorbNewPart(feed, lo, k, b);
    RankMonotone(feed, now, now + 1);
  }

  lemma {:induction false} UncrowdedScan(feed: seq<Fill>, plan: Plan, since: int, now: int, cursor: int,
                                         pageSpan: int, lo: nat, k: nat, slots: seq<Slot>)
    requires WellFormed(feed) && plan.Valid() && Uncrowded(feed, plan, now)
    requires plan.minSpan <= pageSpan <= plan.maxSpan && lo == Rank(feed, since) && Reached(feed, now, lo, cursor, k)
    ensures YieldsGapFree(feed, plan, since, now, cursor, pageSpan, feed[lo..k], slots)
    decreases now - cursor
  {
    if cursor < now {
      var end, page, b := AcceptedRound(feed, plan, now, cursor, pageSpan, lo, k);
      UncrowdedScan(feed, plan, since, now, end + 1, NextSpan(plan, pageSpan, page), lo, b,
                    slots + [Slot(cursor, end)]);
    }
  }

  ghost predicate CompleteFrom(feed: seq<Fill>, plan: Plan, since: int, now: int)
    requires plan.Valid()
  {
    Complete(feed, since, now, Collected(feed, plan, now, since, plan.initialSpan, [], []))
  }

  /** In an uncrowded feed the reader returns the fills from `since` on, each once and in order. */
  lemma UncrowdedIsGapFree(feed: seq<Fill>, plan: Plan, since: int, now: int)
    requires WellFormed(feed) && plan.Valid() && Uncrowded(feed, plan, now) && since <= now
    ensures GapFree(feed, since, now, Collected(feed, plan, now, since, plan.initialSpan, [], []))
  {
    var lo := Rank(feed, since);
    assert feed[lo..lo] == [];
    RankMonotone(feed, now, now + 1);
    UncrowdedScan(feed, plan, since, now, since, plan.initialSpan, lo, lo, []);
  }

  // ---------------------------------------------------------------- the other direction

  /** While every window from `cursor` is full, the span falls to the minimum. */
  lemma WiderIsFull(feed: seq<Fill>, plan: Plan, now: int, cursor: int, span: int)
    requires Chronological(feed) && plan.Valid() && plan.minSpan <= span && cursor < now
    requires |MinWindow(feed, plan, now, cursor)| >= plan.limit
    ensures |Query(feed, cursor, SlotEnd(cursor, span, now), plan.limit)| >= plan.limit
  {
    var end := SlotEnd(cursor, span, now);
    WindowIsSlice(feed, cursor, Min(cursor + plan.minSpan, now) - 1);
    QueryIsSlice(feed, cursor, end, plan.limit);
    RankMonotone(feed, Min(cursor + plan.minSpan, now), end + 1);
  }

  lemma {:induction false} CrowdedFallsToMinimum(feed: seq<Fill>, plan: Plan, now: int, cursor: int, span: int)
    requires Chronological(feed) && plan.Valid() && plan.minSpan <= span && cursor < now
    requires |MinWindow(feed, plan, now, cursor)| >= plan.limit
    ensures AcceptedSpan(feed, plan, now, cursor, span) == plan.minSpan
    decreases span
  {
    if span > plan.minSpan {
      WiderIsFull(feed, plan, now, cursor, span);
      CrowdedFallsToMinimum(feed, plan, now, cursor, Max(plan.minSpan, span / 2));
    }
  }

  lemma {:induction false} ScanNeverReturns(feed: seq<Fill>, plan: Plan, now: int, cursor: int, pageSpan: int,
                                            out: seq<Fill>, slots: seq<Slot>, f: Fill)
    requires plan.Valid() && plan.minSpan <= pageSpan <= plan.maxSpan
    requires f !in out && f.ts < cursor
    ensures f !in Collected(feed, plan, now, cursor, pageSpan, out, slots)
    decreases now - cursor
  {
    if cursor < now {
      var end := SlotEnd(cursor, AcceptedSpan(feed, plan, now, cursor, pageSpan), now);
      var page := Query(feed, cursor, end, plan.limit);
      OutsideStaysOut(feed, cursor, end, plan.limit, out, f);
      ScanNeverReturns(feed, plan, now, end + 1, NextSpan(plan, pageSpan, page), Absorb(out, page),
          slots + [Slot(cursor, end)], f);
    }
  }

  /** The first round of a scan that starts on a crowded window. */
  lemma CrowdedFirstRound(feed: seq<Fill>, plan: Plan, a: int, now: int) returns (end: int, page: seq<Fill>, lost: Fill)
    requires WellFormed(feed) && plan.Valid() && a < now && |MinWindow(feed, plan, now, a)| > plan.limit
    ensures a <= lost.ts < now && lost in feed && lost.ts < end + 1 && lost !in Absorb([], page)
    ensures Scan(feed, plan, now, a, plan.initialSpan, [], [])
         == Scan(feed, plan, now, end + 1, NextSpan(plan, plan.initialSpan, page), Absorb([], page), [Slot(a, end)])
  {
    CrowdedFallsToMinimum(feed, plan, now, a, plan.initialSpan);
    end := SlotEnd(a, plan.minSpan, now);
    page, lost := CrowdedPage(feed, a, Min(a + plan.minSpan, now) - 1, end, plan.limit);
    NotAbsorbed([], page, lost);
    ScanStep(feed, plan, now, a, plan.initialSpan, [], [], end, page);
    assert [] + [Slot(a, end)] == [Slot(a, end)];
  }

  lemma CrowdedLoses(feed: seq<Fill>, plan: Plan, a: int, now: int)
    requires WellFormed(feed) && plan.Valid() && a < now && |MinWindow(feed, plan, now, a)| > plan.limit
    ensures !CompleteFrom(feed, plan, a, now)
  {
    var end, page, lost := CrowdedFirstRound(feed, plan, a, now);
    ScanNeverReturns(feed, plan, now, end + 1, NextSpan(plan, plan.initialSpan, page), Absorb([], page),
                     [Slot(a, end)], lost);
  }

  /** The exact reach: complete from every starting point if and only if no minimum window is crowded. */
  lemma CompleteIffUncrowded(feed: seq<Fill>, plan: Plan, now: int)
    requires WellFormed(feed) && plan.Valid()
    ensures (forall since :: CompleteFrom(feed, plan, since, now)) <==> Uncrowded(feed, plan, now)
  {
    if Uncrowded(feed, plan, now) {
      forall since ensures CompleteFrom(feed, plan, since, now) {
        if since <= now {
          UncrowdedIsGapFree(feed, plan, since, now);
          GapFreeIsComplete(feed, since, now, Collected(feed, plan, now, since, plan.initialSpan, [], []));
        }
      }
    } else {
      var a :| a < now && |MinWindow(feed, plan, now, a)| > plan.limit;
      CrowdedLoses(feed, plan, a, now);
    }
  }
}
