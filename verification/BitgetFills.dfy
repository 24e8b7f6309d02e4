/** The Bitget fill reader: an inclusive cursor that is moved to the newest timestamp of each
    page, with fills deduplicated by trade id. */
module BitgetFills {
  import opened Feed

  const DAY := 24 * 60 * 60 * 1000
  const PAGE_SPAN := 90 * DAY
  const PAGE_LIMIT := 100

  /** Where the cursor goes after a page of the window [cursor, end] left `nNew` new fills. */
  function NextCursor(cursor: int, end: int, page: seq<Fill>, nNew: nat): (next: int)
    requires cursor <= end
    ensures cursor < next
  {
    if page == [] || nNew == 0 then end + 1
    else if LatestTs(cursor, page) <= cursor then cursor + 1
    else LatestTs(cursor, page)
  }

  /** All fills collected from `cursor` on. The cursor rises strictly, so the scan ends. */
  function Scan(feed: seq<Fill>, span: nat, limit: nat, now: int, cursor: int, out: seq<Fill>): seq<Fill>
    decreases now - cursor
  {
    if cursor >= now then out
    else
      var end := Min(cursor + span, now);
      var page := Query(feed, cursor, end, limit);
      var out' := Absorb(out, page);
      Scan(feed, span, limit, now, NextCursor(cursor, end, page, |out'| - |out|), out')
  }

  /** One round: a page, the fills it adds, and where the cursor goes. */
  method ReadPage(feed: seq<Fill>, span: nat, limit: nat, now: int, cursor: int, seen: set<string>, out: seq<Fill>)
    returns (seen': set<string>, out': seq<Fill>, next: int)
    requires cursor < now && seen == Ids(out) && DistinctIds(out)
    ensures seen' == Ids(out') && DistinctIds(out')
    ensures var end := Min(cursor + span, now); var page := Query(feed, cursor, end, limit);
            out' == Absorb(out, page) && next == NextCursor(cursor, end, page, |out'| - |out|)
  {
    var end := Min(cursor + span, now);
    var page := Query(feed, cursor, end, limit);
    seen', out', next := seen, out, end + 1;
    if page != [] {
      AbsorbKeepsDistinct(out, page);
      var maxTs, nNew;
      seen', out', maxTs, nNew := AbsorbPage(cursor, seen, out, page);
      if nNew == 0 {
        next := end + 1;
      } else if maxTs <= cursor {
        next := cursor + 1;
      } else {
        next := maxTs;
      }
    }
  }

  /** The paging loop, for any window span and page limit. */
  method ScanPages(feed: seq<Fill>, span: nat, limit: nat, since: int, now: int) returns (executions: seq<Fill>)
    ensures executions == Scan(feed, span, limit, now, since, [])
    ensures DistinctIds(executions)
  {
    executions := [];
    ghost var target := Scan(feed, span, limit, now, since, []);
    var cursor := since;
    var seen: set<string> := {};
    while cursor < now
      invariant seen == Ids(executions) && DistinctIds(executions)
      invariant Yields(feed, span, limit, now, cursor, executions, target)
      decreases now - cursor
    {
      var more, next;
      seen, more, next := ReadPage(feed, span, limit, now, cursor, seen, executions);
      executions, cursor := more, next;
    }
  }

  /** The reader as configured. It never returns a fill twice, and leaves no gap when the feed is uncrowded. */
  method FetchFills(feed: seq<Fill>, since: int, now: int) returns (executions: seq<Fill>)
    ensures DistinctIds(executions)
    ensures WellFormed(feed) && Uncrowded(feed, PAGE_SPAN, PAGE_LIMIT, now) && since <= now
            ==> GapFree(feed, since, now, executions)
  {
    executions := ScanPages(feed, PAGE_SPAN, PAGE_LIMIT, since, now);
    if WellFormed(feed) && Uncrowded(feed, PAGE_SPAN, PAGE_LIMIT, now) && since <= now {
      UncrowdedIsGapFree(feed, PAGE_SPAN, PAGE_LIMIT, since, now);
    }
  }

  /** A millisecond holds no more fills than a page, and when it fills a page exactly, with nothing in the
      millisecond before it, no further fill follows within the next window. */
  ghost predicate UncrowdedAt(feed: seq<Fill>, span: nat, limit: nat, now: int, m: int) {
    && CountAt(feed, m) <= limit
    && (CountAt(feed, m) == limit && CountAt(feed, m - 1) == 0 ==> Window(feed, m + 1, Min(m + span, now - 1)) == [])
  }

  ghost predicate Uncrowded(feed: seq<Fill>, span: nat, limit: nat, now: int) {
    forall m :: m < now ==> UncrowdedAt(feed, span, limit, now, m)
  }

  /** Fewer fills per millisecond than a page holds is enough. */
  lemma SparseIsUncrowded(feed: seq<Fill>, span: nat, limit: nat, now: int)
    requires forall m :: m < now ==> CountAt(feed, m) < limit
    ensures Uncrowded(feed, span, limit, now)
  {
  }

  /** The paired invariant: `out` is the feed up to index k, all fills before the cursor are in,
      none after it is, and a cursor whose full page is already in was not preceded by a fill. */
  ghost predicate Paired(feed: seq<Fill>, limit: nat, now: int, lo: nat, cursor: int, k: nat) {
    && lo <= k <= |feed|
    && if cursor < now then
         && lo <= Rank(feed, cursor) <= k <= Rank(feed, cursor + 1)
         && (CountAt(feed, cursor) == limit && k == Rank(feed, cursor + 1) && k > Rank(feed, cursor)
             ==> CountAt(feed, cursor - 1) == 0)
       else Rank(feed, now) <= k <= Rank(feed, now + 1)
  }

  /** The index past the page that [cursor, end] answers. */
  ghost function PageEnd(feed: seq<Fill>, limit: nat, cursor: int, end: int): int {
    Min(Rank(feed, cursor) + limit, Rank(feed, end + 1))
  }

  ghost function Grown(k: nat, b: int): nat {
    if k <= b then b else k
  }

  /** Where the cursor goes, told from ranks alone. */
  ghost function NextByRank(feed: seq<Fill>, limit: nat, cursor: int, end: int, k: nat): int {
    var b := PageEnd(feed, limit, cursor, end);
    if b <= k || b > |feed| then end + 1
    else if feed[b - 1].ts <= cursor then cursor + 1
    else feed[b - 1].ts
  }

  /** What one page does to a collected slice. */
  lemma PageEffect(feed: seq<Fill>, limit: nat, lo: nat, cursor: int, end: int, k: nat)
    returns (page: seq<Fill>, out': seq<Fill>, b: nat)
    requires WellFormed(feed) && cursor <= end && lo <= Rank(feed, cursor) <= k <= |feed|
    ensures b == PageEnd(feed, limit, cursor, end) && Rank(feed, cursor) <= b <= |feed|
    ensures page == Query(feed, cursor, end, limit) && out' == Absorb(feed[lo..k], page) == feed[lo..Grown(k, b)]
    ensures NextCursor(cursor, end, page, |out'| - (k - lo)) == NextByRank(feed, limit, cursor, end, k)
  {
    QueryIsSlice(feed, cursor, end, limit);
    var a := Rank(feed, cursor);
    b := PageEnd(feed, limit, cursor, end);
    page, out' := feed[a..b], feed[lo..Grown(k, b)];
    AbsorbSlice(feed, lo, k, a, b);
    CursorFromPage(feed, limit, cursor, end, k, a, b);
  }

  lemma CursorFromPage(feed: seq<Fill>, limit: nat, cursor: int, end: int, k: nat, a: nat, b: nat)
    requires WellFormed(feed) && cursor <= end && a == Rank(feed, cursor) <= k <= |feed|
    requires b == PageEnd(feed, limit, cursor, end) && a <= b <= |feed|
    ensures NextCursor(cursor, end, feed[a..b], Grown(k, b) - k) == NextByRank(feed, limit, cursor, end, k)
  {
    if k < b {
      LatestOfSliceAtRank(feed, cursor, a, b);
    }
  }

  /** One page keeps the paired invariant. */
  lemma PageKeepsPaired(feed: seq<Fill>, span: nat, limit: nat, now: int, lo: nat, cursor: int, k: nat)
    requires Chronological(feed) && 1 <= limit && Uncrowded(feed, span, limit, now)
    requires cursor < now && Paired(feed, limit, now, lo, cursor, k)
    ensures var end := Min(cursor + span, now);
            Paired(feed, limit, now, lo, NextByRank(feed, limit, cursor, end, k),
                   Grown(k, PageEnd(feed, limit, cursor, end)))
  {
    var end := Min(cursor + span, now);
    var e, b := Rank(feed, end + 1), PageEnd(feed, limit, cursor, end);
    RankMonotone(feed, cursor + 1, end + 1);
    RankMonotone(feed, cursor, end);
    RankMonotone(feed, end, end + 1);
    CountAtIsRankStep(feed, cursor);
    assert UncrowdedAt(feed, span, limit, now, cursor);
    if b <= k {
      if b < e {
        SkippedIsEmpty(feed, span, limit, now, cursor, k);
      }
      ExhaustedWindow(feed, limit, now, lo, end, k);
    } else {
      NewPageKeepsPaired(feed, limit, now, lo, cursor, end, b);
    }
  }

  /** A page that brings something new moves the cursor to its last timestamp, or past the cursor's own. */
  lemma NewPageKeepsPaired(feed: seq<Fill>, limit: nat, now: int, lo: nat, cursor: int, end: int, b: nat)
    requires Chronological(feed) && 1 <= limit && cursor <= end <= now && cursor < now
    requires b == PageEnd(feed, limit, cursor, end) && lo <= Rank(feed, cursor) < b <= |feed|
    requires Rank(feed, cursor + 1) <= Rank(feed, cursor) + limit
    ensures Paired(feed, limit, now, lo, if feed[b - 1].ts <= cursor then cursor + 1 else feed[b - 1].ts, b)
  {
    RankAround(feed, b - 1);
    if feed[b - 1].ts <= cursor {
      RankMonotone(feed, cursor + 1, end + 1);
      RankMonotone(feed, feed[b - 1].ts + 1, cursor + 1);
      FreshCursor(feed, limit, now, lo, cursor + 1, b);
    } else {
      RankSplits(feed, end + 1);
      MovedCursor(feed, limit, now, lo, cursor, feed[b - 1].ts, b);
    }
  }

  /** A page with nothing new that is not the whole window leaves only an empty stretch behind. */
  lemma SkippedIsEmpty(feed: seq<Fill>, span: nat, limit: nat, now: int, cursor: int, k: nat)
    requires Chronological(feed) && 1 <= limit && Uncrowded(feed, span, limit, now) && cursor < now
    requires Rank(feed, cursor) + limit <= k <= Rank(feed, cursor + 1)
    requires CountAt(feed, cursor) == limit && k == Rank(feed, cursor + 1) && k > Rank(feed, cursor)
             ==> CountAt(feed, cursor - 1) == 0
    ensures var end := Min(cursor + span, now);
            Rank(feed, end) <= k <= Rank(feed, end + 1) && (end < now ==> k == Rank(feed, end + 1))
  {
    CountAtIsRankStep(feed, cursor);
    assert UncrowdedAt(feed, span, limit, now, cursor);
    var end := Min(cursor + span, now);
    var last := Min(cursor + span, now - 1);
    WindowIsSlice(feed, cursor + 1, last);
    RankMonotone(feed, cursor + 1, end + 1);
    RankMonotone(feed, end, last + 1);
  }

  lemma LatestOfSliceAtRank(feed: seq<Fill>, cursor: int, a: nat, b: nat)
    requires WellFormed(feed) && a == Rank(feed, cursor) && a < b <= |feed|
    ensures LatestTs(cursor, feed[a..b]) == feed[b - 1].ts && cursor <= feed[b - 1].ts
  {
    RankSplits(feed, cursor);
    LatestOfSlice(feed, a, b, cursor);
  }

  lemma FreshCursor(feed: seq<Fill>, limit: nat, now: int, lo: nat, cursor: int, k: nat)
    requires Chronological(feed) && lo <= k <= |feed| && k == Rank(feed, cursor) && cursor <= now
    ensures Paired(feed, limit, now, lo, cursor, k)
  {
    RankMonotone(feed, cursor, cursor + 1);
  }

  lemma ExhaustedWindow(feed: seq<Fill>, limit: nat, now: int, lo: nat, end: int, k: nat)
    requires Chronological(feed) && lo <= k <= |feed| && end <= now
    requires Rank(feed, end) <= k <= Rank(feed, end + 1)
    requires end < now ==> k == Rank(feed, end + 1)
    ensures Paired(feed, limit, now, lo, end + 1, k)
  {
    if end < now {
      FreshCursor(feed, limit, now, lo, end + 1, k);
    }
  }

  lemma MovedCursor(feed: seq<Fill>, limit: nat, now: int, lo: nat, cursor: int, m: int, b: nat)
    requires Chronological(feed) && cursor < m <= now && lo <= Rank(feed, cursor) <= b <= |feed|
    requires b <= Rank(feed, cursor) + limit && Rank(feed, m) < b <= Rank(feed, m + 1)
    ensures Paired(feed, limit, now, lo, m, b)
  {
    CountAtIsRankStep(feed, m);
    CountAtIsRankStep(feed, m - 1);
    RankMonotone(feed, cursor, m - 1);
  }

  ghost predicate Yields(feed: seq<Fill>, span: nat, limit: nat, now: int, cursor: int, out: seq<Fill>,
                         result: seq<Fill>) {
    Scan(feed, span, limit, now, cursor, out) == result
  }

  lemma {:induction false} ScanFromPaired(feed: seq<Fill>, span: nat, limit: nat, now: int, lo: nat, cursor: int,
                                          k: nat)
    returns (k': nat)
    requires WellFormed(feed) && 1 <= limit && Uncrowded(feed, span, limit, now)
    requires Paired(feed, limit, now, lo, cursor, k)
    ensures lo <= k' <= |feed| && Rank(feed, now) <= k' <= Rank(feed, now + 1)
    ensures Yields(feed, span, limit, now, cursor, feed[lo..k], feed[lo..k'])
    decreases now - cursor
  {
    if cursor >= now {
      k' := k;
    } else {
      var end := Min(cursor + span, now);
      var page, out', b := PageEffect(feed, limit, lo, cursor, end, k);
      var next, k1 := NextByRank(feed, limit, cursor, end, k), Grown(k, b);
      ScanStep(feed, span, limit, now, cursor, feed[lo..k], page, out', next);
      PageKeepsPaired(feed, span, limit, now, lo, cursor, k);
      k' := ScanFromPaired(feed, span, limit, now, lo, next, k1);
    }
  }

  lemma UncrowdedIsGapFree(feed: seq<Fill>, span: nat, limit: nat, since: int, now: int)
    requires WellFormed(feed) && 1 <= limit && Uncrowded(feed, span, limit, now) && since <= now
    ensures GapFree(feed, since, now, Scan(feed, span, limit, now, since, []))
  {
    var lo := Rank(feed, since);
    FreshCursor(feed, limit, now, lo, since, lo);
    assert feed[lo..lo] == [];
    var k := ScanFromPaired(feed, span, limit, now, lo, since, lo);
  }

  // ---------------------------------------------------------------- the other direction

  /** A fill behind the cursor that is not collected yet never will be. */
  lemma {:induction false} ScanNeverReturns(feed: seq<Fill>, span: nat, limit: nat, now: int, cursor: int,
                                            out: seq<Fill>, f: Fill)
    requires f !in out && f.ts < cursor
    ensures f !in Scan(feed, span, limit, now, cursor, out)
    decreases now - cursor
  {
    if cursor < now {
      var end := Min(cursor + span, now);
      var page := Query(feed, cursor, end, limit);
      var out' := Absorb(out, page);
      OutsideStaysOut(feed, cursor, end, limit, out, f);
      ScanNeverReturns(feed, span, limit, now, NextCursor(cursor, end, page, |out'| - |out|), out', f);
    }
  }

  ghost predicate CompleteFrom(feed: seq<Fill>, span: nat, limit: nat, since: int, now: int) {
    Complete(feed, since, now, Scan(feed, span, limit, now, since, []))
  }

  lemma MissedFill(feed: seq<Fill>, span: nat, limit: nat, since: int, now: int, cursor: int, out: seq<Fill>, f: Fill)
    requires Scan(feed, span, limit, now, since, []) == Scan(feed, span, limit, now, cursor, out)
    requires f in feed && since <= f.ts < now && f !in out && f.ts < cursor
    ensures !CompleteFrom(feed, span, limit, since, now)
  {
    ScanNeverReturns(feed, span, limit, now, cursor, out, f);
  }

  /** One round of the scan, with its page, result and next cursor named. */
  lemma ScanStep(feed: seq<Fill>, span: nat, limit: nat, now: int, cursor: int, out: seq<Fill>, page: seq<Fill>,
                 out': seq<Fill>, next: int)
    requires cursor < now && page == Query(feed, cursor, Min(cursor + span, now), limit) && out' == Absorb(out, page)
    requires next == NextCursor(cursor, Min(cursor + span, now), page, |out'| - |out|)
    ensures Scan(feed, span, limit, now, cursor, out) == Scan(feed, span, limit, now, next, out')
  {
  }

  /** A request that reaches a millisecond with a page or more of fills, and nothing before it,
      answers the first `limit` of that millisecond. */
  lemma FullMillisecondPage(feed: seq<Fill>, limit: nat, from: int, m: int, end: int)
    requires Chronological(feed) && limit <= CountAt(feed, m) && from <= m <= end && Rank(feed, from) == Rank(feed, m)
    ensures Rank(feed, m) + limit <= Rank(feed, m + 1)
    ensures Query(feed, from, end, limit) == feed[Rank(feed, m)..Rank(feed, m) + limit]
  {
    QueryIsSlice(feed, from, end, limit);
    CountAtIsRankStep(feed, m);
    RankMonotone(feed, m + 1, end + 1);
  }

  /** Absorbing such a page, from nothing and a second time. */
  lemma AbsorbMillisecond(feed: seq<Fill>, limit: nat, from: int, m: int)
    requires WellFormed(feed) && 1 <= limit && Rank(feed, m) + limit <= Rank(feed, m + 1) && from <= m
    ensures var page := feed[Rank(feed, m)..Rank(feed, m) + limit];
            |page| == limit && LatestTs(from, page) == m && Absorb([], page) == page && Absorb(page, page) == page
  {
    var a := Rank(feed, m);
    MillisecondAt(feed, m, a);
    MillisecondAt(feed, m, a + limit - 1);
    LatestOfSlice(feed, a, a + limit, from);
    AbsorbNewPart(feed, a, a, a + limit);
    AbsorbKnownPart(feed, a, a + limit, a, a + limit);
    assert feed[a..a] == [];
  }

  lemma MillisecondAt(feed: seq<Fill>, m: int, i: nat)
    requires Chronological(feed) && Rank(feed, m) <= i < Rank(feed, m + 1)
    ensures feed[i].ts == m
  {
    RankSplits(feed, m);
    RankSplits(feed, m + 1);
  }

  lemma OverfullPage(feed: seq<Fill>, limit: nat, m: int) returns (page: seq<Fill>, lost: Fill)
    requires WellFormed(feed) && 1 <= limit < CountAt(feed, m)
    ensures var a := Rank(feed, m); a + limit < |feed| && page == feed[a..a + limit]
    ensures lost in feed && lost.ts == m && lost !in page
  {
    var a := Rank(feed, m);
    CountAtIsRankStep(feed, m);
    page, lost := feed[a..a + limit], feed[a + limit];
    BeyondPage(feed, a, a + limit, a + limit);
    MillisecondAt(feed, m, a + limit);
  }

  /** From an overfull millisecond the scan moves on with one page, which leaves a fill out. */
  lemma FirstPageMovesOn(feed: seq<Fill>, span: nat, limit: nat, m: int, now: int) returns (page: seq<Fill>, lost: Fill)
    requires WellFormed(feed) && 1 <= limit < CountAt(feed, m) && m < now
    ensures Scan(feed, span, limit, now, m, []) == Scan(feed, span, limit, now, m + 1, page)
    ensures lost in feed && lost.ts == m && lost !in page
  {
    page, lost := OverfullPage(feed, limit, m);
    FullMillisecondPage(feed, limit, m, m, Min(m + span, now));
    AbsorbMillisecond(feed, limit, m, m);
    ScanStep(feed, span, limit, now, m, [], page, page, m + 1);
  }

  /** A millisecond with more fills than a page loses one when the scan starts there. */
  lemma OverfullLoses(feed: seq<Fill>, span: nat, limit: nat, m: int, now: int)
    requires WellFormed(feed) && 1 <= limit < CountAt(feed, m) && m < now
    ensures !CompleteFrom(feed, span, limit, m, now)
  {
    var page, lost := FirstPageMovesOn(feed, span, limit, m, now);
    MissedFill(feed, span, limit, m, now, m + 1, page, lost);
  }

  /** The same full page, as two consecutive requests answer it. */
  lemma RepeatedPage(feed: seq<Fill>, limit: nat, m: int, end0: int, end: int, f: Fill) returns (page: seq<Fill>)
    requires WellFormed(feed) && 1 <= limit == CountAt(feed, m) && CountAt(feed, m - 1) == 0
    requires m <= end0 && m <= end && m < f.ts
    ensures page == Query(feed, m - 1, end0, limit) == Query(feed, m, end, limit) && f !in page
    ensures |page| == limit && LatestTs(m - 1, page) == m && Absorb([], page) == page && Absorb(page, page) == page
  {
    CountAtIsRankStep(feed, m - 1);
    CountAtIsRankStep(feed, m);
    page := feed[Rank(feed, m)..Rank(feed, m + 1)];
    PageOfOneMillisecond(feed, m, f);
    FullMillisecondPage(feed, limit, m - 1, m, end0);
    FullMillisecondPage(feed, limit, m, m, end);
    AbsorbMillisecond(feed, limit, m - 1, m);
  }

  lemma SecondPageIsKnown(feed: seq<Fill>, span: nat, limit: nat, m: int, now: int, f: Fill) returns (page: seq<Fill>)
    requires WellFormed(feed) && 1 <= limit == CountAt(feed, m) && CountAt(feed, m - 1) == 0
    requires 1 <= span && m < now && m < f.ts
    ensures f !in page
    ensures Scan(feed, span, limit, now, m - 1, []) == Scan(feed, span, limit, now, Min(m + span, now) + 1, page)
  {
    page := RepeatedPage(feed, limit, m, Min(m - 1 + span, now), Min(m + span, now), f);
  }

  lemma PageOfOneMillisecond(feed: seq<Fill>, m: int, f: Fill)
    requires Chronological(feed) && f.ts != m && Rank(feed, m) <= Rank(feed, m + 1)
    ensures f !in feed[Rank(feed, m)..Rank(feed, m + 1)]
  {
    RankSplits(feed, m);
    RankSplits(feed, m + 1);
  }

  /** A millisecond that fills a page exactly, entered from the empty millisecond before it, is
      read twice; the second page is all known, and the rest of its window is skipped. */
  lemma ExactlyFullSkips(feed: seq<Fill>, span: nat, limit: nat, m: int, now: int, f: Fill)
    requires WellFormed(feed) && 1 <= limit == CountAt(feed, m) && CountAt(feed, m - 1) == 0
    requires f in feed && m < f.ts <= Min(m + span, now - 1)
    ensures !CompleteFrom(feed, span, limit, m - 1, now)
  {
    var page := SecondPageIsKnown(feed, span, limit, m, now, f);
    MissedFill(feed, span, limit, m - 1, now, Min(m + span, now) + 1, page, f);
  }

  /** The exact reach of the reader: it is complete from every starting point if and only if
      the feed is uncrowded. */
  lemma CompleteIffUncrowded(feed: seq<Fill>, span: nat, limit: nat, now: int)
    requires WellFormed(feed) && 1 <= limit
    ensures (forall since :: CompleteFrom(feed, span, limit, since, now))
       <==> Uncrowded(feed, span, limit, now)
  {
    if Uncrowded(feed, span, limit, now) {
      forall since ensures CompleteFrom(feed, span, limit, since, now) {
        if since <= now {
          UncrowdedIsGapFree(feed, span, limit, since, now);
          GapFreeIsComplete(feed, since, now, Scan(feed, span, limit, now, since, []));
        }
      }
    } else {
      var m :| m < now && !UncrowdedAt(feed, span, limit, now, m);
      var since := CrowdedLoses(feed, span, limit, now, m);
    }
  }

  lemma CrowdedLoses(feed: seq<Fill>, span: nat, limit: nat, now: int, m: int) returns (since: int)
    requires WellFormed(feed) && 1 <= limit && m < now && !UncrowdedAt(feed, span, limit, now, m)
    ensures !CompleteFrom(feed, span, limit, since, now)
  {
    if limit < CountAt(feed, m) {
      OverfullLoses(feed, span, limit, m, now);
      since := m;
    } else {
      var f := Window(feed, m + 1, Min(m + span, now - 1))[0];
      WindowMembers(feed, m + 1, Min(m + span, now - 1), f);
      ExactlyFullSkips(feed, span, limit, m, now, f);
      since := m - 1;
    }
  }

  /** Trade ids "x", "xx", "xxx" and so on. */
  function TradeId(i: nat): string {
    seq(i + 1, _ => 'x')
  }

  /** A hundred fills in millisecond 1000 and one more a millisecond later. */
  function BurstFeed(): seq<Fill> {
    seq(101, i requires 0 <= i => Fill(TradeId(i), if i < 100 then 1000 else 1001))
  }

  lemma BurstFeedIsWellFormed()
    ensures WellFormed(BurstFeed())
  {
    var feed := BurstFeed();
    forall i, j ensures Apart(feed, i, j) {
      if 0 <= i < j < |feed| {
        assert |feed[i].id| == i + 1 && |feed[j].id| == j + 1;
      }
    }
    forall i ensures Named(feed, i) {
      if 0 <= i < |feed| {
        assert |feed[i].id| == i + 1;
      }
    }
  }

  lemma BurstFeedRanks() returns (feed: seq<Fill>, last: Fill)
    ensures WellFormed(feed) && CountAt(feed, 999) == 0 && CountAt(feed, 1000) == 100
    ensures |feed| == 101 && (forall i :: 0 <= i <= 100 ==> feed[i].ts == if i < 100 then 1000 else 1001)
    ensures last in feed && last.ts == 1001
  {
    feed := BurstFeed();
    BurstFeedIsWellFormed();
    BurstCounts(feed, 1000, 100);
    last := feed[100];
  }

  /** A feed whose fills all lie in millisecond `m` but the last, which comes one later. */
  lemma BurstCounts(feed: seq<Fill>, m: int, n: nat)
    requires Chronological(feed) && |feed| == n + 1 && n > 0
    requires forall i :: 0 <= i <= n ==> feed[i].ts == if i < n then m else m + 1
    ensures CountAt(feed, m - 1) == 0 && CountAt(feed, m) == n
  {
    RankIs(feed, m - 1, 0);
    RankIs(feed, m, 0);
    RankIs(feed, m + 1, n);
    CountAtIsRankStep(feed, m - 1);
    CountAtIsRankStep(feed, m);
  }

  /** A concrete loss: a hundred fills in millisecond 1000 and one in the next. The configured
      reader, started at 999, misses the last one. */
  lemma BurstLosesAFill() returns (feed: seq<Fill>)
    ensures WellFormed(feed)
    ensures |feed| == 101 && (forall i :: 0 <= i <= 100 ==> feed[i].ts == if i < 100 then 1000 else 1001)
    ensures !CompleteFrom(feed, PAGE_SPAN, PAGE_LIMIT, 999, 2000)
  {
    var last;
    feed, last := BurstFeedRanks();
    ExactlyFullSkips(feed, PAGE_SPAN, PAGE_LIMIT, 1000, 2000, last);
  }
}
