/** The exchange as its paging loops see it: a finite chronological feed of fills and a
    capped query over a closed time window, oldest fills first. */
module Feed {

  /** One fill or income event. An empty `id` stands for a missing one. */
  datatype Fill = Fill(id: string, ts: int)

  /** The three pointwise facts below are kept behind names, so that a proof uses exactly the
      instances it mentions. */
  ghost predicate InOrder(feed: seq<Fill>, i: int, j: int) {
    0 <= i < j < |feed| ==> feed[i].ts <= feed[j].ts
  }

  ghost predicate Apart(feed: seq<Fill>, i: int, j: int) {
    0 <= i < j < |feed| ==> feed[i].id != feed[j].id
  }

  ghost predicate Named(feed: seq<Fill>, i: int) {
    0 <= i < |feed| ==> feed[i].ts > 0 && feed[i].id != ""
  }

  ghost predicate Chronological(feed: seq<Fill>) {
    forall i, j :: InOrder(feed, i, j)
  }

  ghost predicate DistinctIds(feed: seq<Fill>) {
    forall i, j :: Apart(feed, i, j)
  }

  /** Every fill carries an id and a positive timestamp, so no loop skips it as malformed. */
  ghost predicate Dated(feed: seq<Fill>) {
    forall i :: Named(feed, i)
  }

  ghost predicate WellFormed(feed: seq<Fill>) {
    Chronological(feed) && DistinctIds(feed) && Dated(feed)
  }

  function Min(a: int, b: int): int { if a <= b then a else b }

  function Max(a: int, b: int): int { if a <= b then b else a }

  /** The spans and the page cap of a reader that adapts its windows. */
  datatype Plan = Plan(minSpan: nat, initialSpan: nat, maxSpan: nat, limit: nat) {
    ghost predicate Valid() {
      1 <= minSpan <= initialSpan <= maxSpan && 1 <= limit
    }
  }

  /** The span after an accepted page: reset by fills, doubled by an empty window. */
  function NextSpan(plan: Plan, span: int, page: seq<Fill>): int {
    if page != [] then plan.initialSpan else Min(span * 2, plan.maxSpan)
  }

  /** The fills with from <= ts <= until, in feed order. */
  function Window(feed: seq<Fill>, from: int, until: int): seq<Fill> {
    if feed == [] then []
    else (if from <= feed[0].ts <= until then [feed[0]] else []) + Window(feed[1..], from, until)
  }

  /** What one request answers: the oldest `limit` fills of the window. */
  function Query(feed: seq<Fill>, from: int, until: int, limit: nat): (page: seq<Fill>)
    ensures |page| <= limit
  {
    var w := Window(feed, from, until);
    if |w| <= limit then w else w[..limit]
  }

  /** The number of fills before time `t`; in a chronological feed, the index where `t` starts. */
  ghost function Rank(feed: seq<Fill>, t: int): (r: nat)
    ensures r <= |feed|
  {
    if feed == [] then 0 else (if feed[0].ts < t then 1 else 0) + Rank(feed[1..], t)
  }

  lemma RestIsChronological(feed: seq<Fill>)
    requires Chronological(feed) && feed != []
    ensures Chronological(feed[1..])
    ensures forall i :: 0 < i < |feed| ==> feed[0].ts <= feed[i].ts
  {
    forall i, j ensures InOrder(feed[1..], i, j) {
      assert InOrder(feed, i + 1, j + 1);
    }
    forall i | 0 < i < |feed| ensures feed[0].ts <= feed[i].ts {
      assert InOrder(feed, 0, i);
    }
  }

  lemma {:induction false} RankSplits(feed: seq<Fill>, t: int)
    requires Chronological(feed)
    ensures forall i :: 0 <= i < Rank(feed, t) ==> feed[i].ts < t
    ensures forall i :: Rank(feed, t) <= i < |feed| ==> t <= feed[i].ts
  {
    if feed != [] {
      var rest := feed[1..];
      RestIsChronological(feed);
      RankSplits(rest, t);
      assert forall i :: 1 <= i < |feed| ==> feed[i] == rest[i - 1];
      if feed[0].ts >= t {
        assert Rank(rest, t) == 0;
      }
    }
  }

  lemma RankIs(feed: seq<Fill>, t: int, r: nat)
    requires Chronological(feed) && r <= |feed|
    requires r > 0 ==> feed[r - 1].ts < t
    requires r < |feed| ==> t <= feed[r].ts
    ensures Rank(feed, t) == r
  {
    RankSplits(feed, t);
  }

  lemma {:induction false} RankMonotone(feed: seq<Fill>, s: int, t: int)
    requires s <= t
    ensures Rank(feed, s) <= Rank(feed, t)
  {
    if feed != [] {
      RankMonotone(feed[1..], s, t);
    }
  }

  lemma RankAround(feed: seq<Fill>, i: nat)
    requires Chronological(feed) && i < |feed|
    ensures Rank(feed, feed[i].ts) <= i < Rank(feed, feed[i].ts + 1)
  {
    RankSplits(feed, feed[i].ts);
    RankSplits(feed, feed[i].ts + 1);
  }

  lemma BetweenRanks(feed: seq<Fill>, from: int, until: int, i: nat)
    requires Chronological(feed) && Rank(feed, from) <= i < Rank(feed, until + 1)
    ensures from <= feed[i].ts <= until
  {
    RankSplits(feed, from);
    RankSplits(feed, until + 1);
  }

  lemma {:induction false} WindowOutside(feed: seq<Fill>, from: int, until: int)
    requires forall i :: 0 <= i < |feed| ==> !(from <= feed[i].ts <= until)
    ensures Window(feed, from, until) == []
  {
    if feed != [] {
      WindowOutside(feed[1..], from, until);
    }
  }

  lemma {:induction false} RankOfLater(feed: seq<Fill>, t: int)
    requires forall i :: 0 <= i < |feed| ==> t <= feed[i].ts
    ensures Rank(feed, t) == 0
  {
    if feed != [] {
      RankOfLater(feed[1..], t);
    }
  }

  lemma RankAtStart(feed: seq<Fill>, t: int)
    requires Chronological(feed) && feed != [] && t <= feed[0].ts
    ensures Rank(feed, t) == 0 && Rank(feed[1..], t) == 0
  {
    RestIsChronological(feed);
    RankOfLater(feed, t);
  }

  lemma ShiftSlice(feed: seq<Fill>, a: nat, b: nat)
    requires a <= b < |feed|
    ensures feed[1..][a..b] == feed[a + 1..b + 1]
    ensures [feed[0]] + feed[1..][..b] == feed[..b + 1]
  {
  }

  ghost predicate WindowSliced(feed: seq<Fill>, from: int, until: int) {
    var a, b := Rank(feed, from), Rank(feed, until + 1);
    a <= b && Window(feed, from, until) == feed[a..b]
  }

  lemma WindowSlicedStep(feed: seq<Fill>, from: int, until: int)
    requires Chronological(feed) && feed != [] && from <= until + 1 && WindowSliced(feed[1..], from, until)
    ensures WindowSliced(feed, from, until)
  {
    ShiftSlice(feed, Rank(feed[1..], from), Rank(feed[1..], until + 1));
    if from <= feed[0].ts {
      RankAtStart(feed, from);
    }
    if until < feed[0].ts {
      RankAtStart(feed, until + 1);
    }
  }

  lemma {:induction false} SliceWindow(feed: seq<Fill>, from: int, until: int)
    requires Chronological(feed) && from <= until + 1
    ensures WindowSliced(feed, from, until)
    decreases |feed|
  {
    if feed != [] {
      RestIsChronological(feed);
      SliceWindow(feed[1..], from, until);
      WindowSlicedStep(feed, from, until);
    }
  }

  /** In a chronological feed a window is a slice between two ranks. */
  lemma WindowIsSlice(feed: seq<Fill>, from: int, until: int)
    requires Chronological(feed) && from <= until + 1
    ensures Rank(feed, from) <= Rank(feed, until + 1)
    ensures Window(feed, from, until) == feed[Rank(feed, from)..Rank(feed, until + 1)]
  {
    SliceWindow(feed, from, until);
  }

  lemma QueryIsSlice(feed: seq<Fill>, from: int, until: int, limit: nat)
    requires Chronological(feed) && from <= until + 1
    ensures var a, e := Rank(feed, from), Rank(feed, until + 1);
            a <= e && Query(feed, from, until, limit) == feed[a..Min(a + limit, e)]
  {
    WindowIsSlice(feed, from, until);
  }

  lemma {:induction false} WindowMembers(feed: seq<Fill>, from: int, until: int, f: Fill)
    ensures f in Window(feed, from, until) <==> f in feed && from <= f.ts <= until
  {
    if feed != [] {
      WindowMembers(feed[1..], from, until, f);
      assert feed == [feed[0]] + feed[1..];
    }
  }

  /** The number of fills of one timestamp. */
  ghost function CountAt(feed: seq<Fill>, t: int): nat {
    |Window(feed, t, t)|
  }

  lemma CountAtIsRankStep(feed: seq<Fill>, t: int)
    requires Chronological(feed)
    ensures Rank(feed, t) + CountAt(feed, t) == Rank(feed, t + 1)
  {
    WindowIsSlice(feed, t, t);
  }

  // ---------------------------------------------------------------- collecting pages

  function Ids(fills: seq<Fill>): set<string> {
    set i | 0 <= i < |fills| :: fills[i].id
  }

  /** A page folded into the collected fills: undated, unnamed and already seen ones are skipped. */
  function Absorb(out: seq<Fill>, page: seq<Fill>): (r: seq<Fill>)
    ensures |out| <= |r| && r[..|out|] == out
    decreases |page|
  {
    if page == [] then out
    else
      var f := page[0];
      Absorb(if f.ts <= 0 || f.id == "" || f.id in Ids(out) then out else out + [f], page[1..])
  }

  /** The latest timestamp of a page, never below `floor`; undated fills do not count. */
  function LatestTs(floor: int, page: seq<Fill>): (m: int)
    ensures floor <= m
    decreases |page|
  {
    if page == [] then floor
    else LatestTs(if page[0].ts > 0 && page[0].ts > floor then page[0].ts else floor, page[1..])
  }

  /** The loop over one page that all fill readers share. */
  method AbsorbPage(cursor: int, seen: set<string>, out: seq<Fill>, page: seq<Fill>)
    returns (seen': set<string>, out': seq<Fill>, maxTs: int, nNew: nat)
    requires seen == Ids(out)
    ensures out' == Absorb(out, page) && seen' == Ids(out')
    ensures maxTs == LatestTs(cursor, page)
    ensures nNew == |out'| - |out|
  {
    seen', out', maxTs, nNew := seen, out, cursor, 0;
    for i := 0 to |page|
      invariant Absorb(out', page[i..]) == Absorb(out, page)
      invariant LatestTs(maxTs, page[i..]) == LatestTs(cursor, page)
      invariant seen' == Ids(out') && nNew == |out'| - |out|
    {
      var f := page[i];
      assert page[i..][1..] == page[i + 1..];
      if f.ts <= 0 {
        continue;
      }
      if f.ts > maxTs {
        maxTs := f.ts;
      }
      if f.id == "" || f.id in seen' {
        continue;
      }
      seen' := seen' + {f.id};
      IdsAppend(out', f);
      out' := out' + [f];
      nNew := nNew + 1;
    }
  }

  lemma IdsAppend(out: seq<Fill>, f: Fill)
    ensures Ids(out + [f]) == Ids(out) + {f.id}
  {
    var more := out + [f];
    assert more[|out|] == f;
    forall x | x in Ids(out) ensures x in Ids(more) {
      var i :| 0 <= i < |out| && out[i].id == x;
      assert more[i].id == x;
    }
  }

  /** Nothing is collected twice, whatever the pages hold. */
  lemma {:induction false} AbsorbKeepsDistinct(out: seq<Fill>, page: seq<Fill>)
    requires DistinctIds(out)
    ensures DistinctIds(Absorb(out, page))
    decreases |page|
  {
    if page != [] {
      var f := page[0];
      var next := if f.ts <= 0 || f.id == "" || f.id in Ids(out) then out else out + [f];
      assert DistinctIds(next) by {
        if next != out {
          forall i, j ensures Apart(next, i, j) {
            assert Apart(out, i, j);
            assert 0 <= i < |out| ==> out[i].id in Ids(out);
          }
        }
      }
      AbsorbKeepsDistinct(next, page[1..]);
    }
  }

  lemma {:induction false} AbsorbMembers(out: seq<Fill>, page: seq<Fill>, f: Fill)
    requires f in Absorb(out, page)
    ensures f in out || f in page
    decreases |page|
  {
    if page != [] {
      var g := page[0];
      AbsorbMembers(if g.ts <= 0 || g.id == "" || g.id in Ids(out) then out else out + [g], page[1..], f);
      assert page == [g] + page[1..];
    }
  }

  /** A page adds nothing from outside its window. */
  lemma OutsideStaysOut(feed: seq<Fill>, from: int, until: int, limit: nat, out: seq<Fill>, f: Fill)
    requires f !in out && !(from <= f.ts <= until)
    ensures f !in Absorb(out, Query(feed, from, until, limit))
  {
    WindowMembers(feed, from, until, f);
    NotAbsorbed(out, Query(feed, from, until, limit), f);
  }

  lemma NotAbsorbed(out: seq<Fill>, page: seq<Fill>, f: Fill)
    requires f !in out && f !in page
    ensures f !in Absorb(out, page)
  {
    if f in Absorb(out, page) {
      AbsorbMembers(out, page, f);
      assert false;
    }
  }

  lemma {:induction false} AbsorbConcat(out: seq<Fill>, p: seq<Fill>, q: seq<Fill>)
    ensures Absorb(out, p + q) == Absorb(Absorb(out, p), q)
    decreases |p|
  {
    if p == [] {
      assert p + q == q;
    } else {
      assert (p + q)[1..] == p[1..] + q;
      var f := p[0];
      AbsorbConcat(if f.ts <= 0 || f.id == "" || f.id in Ids(out) then out else out + [f], p[1..], q);
    }
  }

  lemma {:induction false} AbsorbSeen(out: seq<Fill>, page: seq<Fill>)
    requires forall i :: 0 <= i < |page| ==> page[i].id in Ids(out)
    ensures Absorb(out, page) == out
    decreases |page|
  {
    if page != [] {
      AbsorbSeen(out, page[1..]);
    }
  }

  lemma {:induction false} AbsorbFresh(out: seq<Fill>, page: seq<Fill>)
    requires DistinctIds(page) && Dated(page)
    requires forall i :: 0 <= i < |page| ==> page[i].id !in Ids(out)
    ensures Absorb(out, page) == out + page
    decreases |page|
  {
    if page != [] {
      var f := page[0];
      assert f.id !in Ids(out) && Named(page, 0);
      FreshRest(out, page);
      AbsorbFresh(out + [f], page[1..]);
      assert out + [f] + page[1..] == out + page;
    }
  }

  lemma FreshRest(out: seq<Fill>, page: seq<Fill>)
    requires DistinctIds(page) && Dated(page) && page != []
    requires forall i :: 0 <= i < |page| ==> page[i].id !in Ids(out)
    ensures DistinctIds(page[1..]) && Dated(page[1..])
    ensures forall i :: 0 <= i < |page| - 1 ==> page[1..][i].id !in Ids(out + [page[0]])
  {
    IdsAppend(out, page[0]);
    forall i | 0 <= i < |page| - 1 ensures page[1..][i].id !in Ids(out + [page[0]]) {
      assert page[1..][i] == page[i + 1] && Apart(page, 0, i + 1);
    }
    assert page[1..|page|] == page[1..];
    SliceWellFormed(page, 1, |page|);
  }

  lemma SliceIdsSeen(feed: seq<Fill>, lo: nat, k: nat, a: nat, m: nat)
    requires lo <= a <= m <= k <= |feed|
    ensures forall i :: 0 <= i < m - a ==> feed[a..m][i].id in Ids(feed[lo..k])
  {
    forall i | 0 <= i < m - a ensures feed[a..m][i].id in Ids(feed[lo..k]) {
      assert feed[lo..k][a + i - lo] == feed[a + i];
    }
  }

  lemma SliceIdsFresh(feed: seq<Fill>, lo: nat, k: nat, b: nat)
    requires DistinctIds(feed) && lo <= k <= b <= |feed|
    ensures forall i :: 0 <= i < b - k ==> feed[k..b][i].id !in Ids(feed[lo..k])
  {
    var out := feed[lo..k];
    forall i | 0 <= i < b - k ensures feed[k..b][i].id !in Ids(out) {
      forall j | 0 <= j < |out| ensures out[j].id != feed[k + i].id {
        assert Apart(feed, lo + j, k + i);
      }
    }
  }

  lemma SliceWellFormed(feed: seq<Fill>, a: nat, b: nat)
    requires DistinctIds(feed) && Dated(feed) && a <= b <= |feed|
    ensures DistinctIds(feed[a..b]) && Dated(feed[a..b])
  {
    var part := feed[a..b];
    forall i, j ensures Apart(part, i, j) {
      assert Apart(feed, a + i, a + j);
    }
    forall i ensures Named(part, i) {
      assert Named(feed, a + i);
    }
  }

  lemma AbsorbSplitSlice(feed: seq<Fill>, out: seq<Fill>, a: nat, k: nat, b: nat)
    requires a <= k <= b <= |feed|
    ensures Absorb(out, feed[a..b]) == Absorb(Absorb(out, feed[a..k]), feed[k..b])
  {
    assert feed[a..b] == feed[a..k] + feed[k..b];
    AbsorbConcat(out, feed[a..k], feed[k..b]);
  }

  /** Absorbing a slice that starts inside the collected slice extends it without a gap. */
  lemma AbsorbSlice(feed: seq<Fill>, lo: nat, k: nat, a: nat, b: nat)
    requires WellFormed(feed) && lo <= a <= k && a <= b && k <= |feed| && b <= |feed|
    ensures Absorb(feed[lo..k], feed[a..b]) == feed[lo..if k <= b then b else k]
  {
    if k <= b {
      AbsorbSplitSlice(feed, feed[lo..k], a, k, b);
      AbsorbKnownPart(feed, lo, k, a, k);
      AbsorbNewPart(feed, lo, k, b);
    } else {
      AbsorbKnownPart(feed, lo, k, a, b);
    }
  }

  lemma AbsorbKnownPart(feed: seq<Fill>, lo: nat, k: nat, a: nat, m: nat)
    requires lo <= a <= m <= k <= |feed|
    ensures Absorb(feed[lo..k], feed[a..m]) == feed[lo..k]
  {
    SliceIdsSeen(feed, lo, k, a, m);
    AbsorbSeen(feed[lo..k], feed[a..m]);
  }

  lemma AbsorbNewPart(feed: seq<Fill>, lo: nat, k: nat, b: nat)
    requires WellFormed(feed) && lo <= k <= b <= |feed|
    ensures Absorb(feed[lo..k], feed[k..b]) == feed[lo..b]
  {
    SliceIdsFresh(feed, lo, k, b);
    SliceWellFormed(feed, k, b);
    assert feed[lo..k] + feed[k..b] == feed[lo..b];
    AbsorbFresh(feed[lo..k], feed[k..b]);
  }

  /** The latest timestamp of a page cut from the feed is that of its last fill. */
  lemma {:induction false} LatestOfSlice(feed: seq<Fill>, a: nat, b: nat, floor: int)
    requires WellFormed(feed) && a < b <= |feed| && floor <= feed[a].ts
    ensures LatestTs(floor, feed[a..b]) == feed[b - 1].ts
    decreases b - a
  {
    assert feed[a..b][1..] == feed[a + 1..b];
    assert feed[a..b][0] == feed[a];
    assert Named(feed, a);
    if a + 1 < b {
      assert InOrder(feed, a, a + 1);
      LatestOfSlice(feed, a + 1, b, if feed[a].ts > floor then feed[a].ts else floor);
    }
  }

  /** `out` holds every fill with since <= ts < now. */
  ghost predicate Complete(feed: seq<Fill>, since: int, now: int, out: seq<Fill>) {
    forall f :: f in feed && since <= f.ts < now ==> f in out
  }

  /** `out` is a chronological, gap-free stretch of the feed from `since` that ends at `now`. */
  ghost predicate GapFree(feed: seq<Fill>, since: int, now: int, out: seq<Fill>)
  {
    exists k: nat :: Rank(feed, since) <= k <= |feed| && Rank(feed, now) <= k <= Rank(feed, now + 1)
                     && out == feed[Rank(feed, since)..k]
  }

  lemma GapFreeIsComplete(feed: seq<Fill>, since: int, now: int, out: seq<Fill>)
    requires WellFormed(feed) && GapFree(feed, since, now, out)
    ensures Complete(feed, since, now, out) && DistinctIds(out)
  {
    var lo := Rank(feed, since);
    var k: nat :| lo <= k <= |feed| && Rank(feed, now) <= k <= Rank(feed, now + 1) && out == feed[lo..k];
    SliceWellFormed(feed, lo, k);
    SliceIsComplete(feed, since, now, lo, k);
  }

  lemma SliceIsComplete(feed: seq<Fill>, since: int, now: int, lo: nat, k: nat)
    requires Chronological(feed) && lo == Rank(feed, since) && lo <= k <= |feed| && Rank(feed, now) <= k
    ensures Complete(feed, since, now, feed[lo..k])
  {
    RankSplits(feed, since);
    RankSplits(feed, now);
    forall f | f in feed && since <= f.ts < now ensures f in feed[lo..k] {
      var i :| 0 <= i < |feed| && feed[i] == f;
      assert feed[lo..k][i - lo] == f;
    }
  }

  /** A fill outside a slice is not repeated inside it. */
  lemma BeyondPage(feed: seq<Fill>, a: nat, b: nat, j: nat)
    requires DistinctIds(feed) && a <= b <= |feed| && j < |feed| && !(a <= j < b)
    ensures feed[j] !in feed[a..b]
  {
    forall i | 0 <= i < b - a ensures feed[a..b][i] != feed[j] {
      assert Apart(feed, a + i, j) && Apart(feed, j, a + i);
    }
  }

  /** Where a crowded window has a fill too many. */
  lemma CrowdedReach(feed: seq<Fill>, from: int, until: int, limit: nat)
    requires Chronological(feed) && from <= until + 1 && |Window(feed, from, until)| > limit
    ensures Rank(feed, from) + limit < Rank(feed, until + 1) <= |feed|
    ensures from <= feed[Rank(feed, from) + limit].ts <= until
  {
    WindowIsSlice(feed, from, until);
    BetweenRanks(feed, from, until, Rank(feed, from) + limit);
  }

  /** A page that starts on a crowded window leaves one of the window's fills out, however far it reaches. */
  lemma CrowdedPage(feed: seq<Fill>, from: int, until: int, stop: int, limit: nat) returns (page: seq<Fill>, lost: Fill)
    requires WellFormed(feed) && from <= until + 1 && until <= stop && |Window(feed, from, until)| > limit
    ensures page == Query(feed, from, stop, limit)
    ensures lost in feed && from <= lost.ts <= until && lost !in page
  {
    var r := Rank(feed, from);
    CrowdedReach(feed, from, until, limit);
    RankMonotone(feed, until + 1, stop + 1);
    QueryIsSlice(feed, from, stop, limit);
    page, lost := feed[r..r + limit], feed[r + limit];
    BeyondPage(feed, r, r + limit, r + limit);
  }
}
