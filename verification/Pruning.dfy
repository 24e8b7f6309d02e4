/** Pruning of the private client pool to new caps: excess clients of each exchange first, then
    any others until the global cap holds. Keys are listed in dictionary order. */
module Pruning {
  import opened Common
  import opened ClientPool

  /** The keys of one exchange, in order. */
  function Of(keys: seq<Key>, exchange: string): seq<Key> {
    if keys == [] then []
    else
      var n := |keys| - 1;
      Of(keys[..n], exchange) + if keys[n].exchange == exchange then [keys[n]] else []
  }

  /** The exchanges in the order of their first key. */
  function Exchanges(keys: seq<Key>): seq<string> {
    if keys == [] then []
    else
      var n := |keys| - 1;
      var front := Exchanges(keys[..n]);
      if keys[n].exchange in front then front else front + [keys[n].exchange]
  }

  /** How many of `count` clients exceed a cap; all of them when the cap is negative. */
  function Excess(count: nat, cap: Option<int>): (r: nat)
    ensures r <= count
  {
    if cap.None? || count <= cap.value then 0 else count - Bound(cap.value)
  }

  function CapOf(caps: Caps, exchange: string): Option<int> {
    if exchange in caps.perExchange then Some(caps.perExchange[exchange]) else None
  }

  function Over(keys: seq<Key>, caps: Caps, exchange: string): seq<Key> {
    Of(keys, exchange)[..Excess(|Of(keys, exchange)|, CapOf(caps, exchange))]
  }

  /** The per-exchange part of the selection, for a list of exchanges. */
  function OverAll(keys: seq<Key>, caps: Caps, exchanges: seq<string>): seq<Key> {
    if exchanges == [] then []
    else
      var n := |exchanges| - 1;
      OverAll(keys, caps, exchanges[..n]) + Over(keys, caps, exchanges[n])
  }

  /** The keys not in a list, in order. */
  function Rest(keys: seq<Key>, closed: seq<Key>): seq<Key> {
    if keys == [] then []
    else
      var n := |keys| - 1;
      Rest(keys[..n], closed) + if keys[n] in closed then [] else [keys[n]]
  }

  function ToClose(keys: seq<Key>, caps: Caps): seq<Key> {
    var first := OverAll(keys, caps, Exchanges(keys));
    var rest := Rest(keys, first);
    first + rest[..Excess(|rest|, caps.global)]
  }

  /** keys[:n], clamped to the list. */
  function Prefix(keys: seq<Key>, n: int): seq<Key> {
    if n <= 0 then [] else if n >= |keys| then keys else keys[..n]
  }

  ghost predicate Grouped(keys: seq<Key>, order: seq<string>, byExchange: map<string, seq<Key>>) {
    order == Exchanges(keys) && forall e :: GroupedAt(keys, order, byExchange, e)
  }

  ghost predicate GroupedAt(keys: seq<Key>, order: seq<string>, byExchange: map<string, seq<Key>>, e: string) {
    (e in byExchange <==> e in order) && Of(keys, e) == if e in byExchange then byExchange[e] else []
  }

  lemma GroupOne(keys: seq<Key>, i: nat, order: seq<string>, byExchange: map<string, seq<Key>>)
    requires i < |keys| && Grouped(keys[..i], order, byExchange)
    ensures var k := keys[i];
            if k.exchange in byExchange
            then Grouped(keys[..i + 1], order, byExchange[k.exchange := byExchange[k.exchange] + [k]])
            else Grouped(keys[..i + 1], order + [k.exchange], byExchange[k.exchange := [k]])
  {
    var k, front, all := keys[i], keys[..i], keys[..i + 1];
    ListsOfOneMore(keys, i);
    assert GroupedAt(front, order, byExchange, k.exchange);
    if k.exchange in byExchange {
      var grown := byExchange[k.exchange := byExchange[k.exchange] + [k]];
      forall e ensures GroupedAt(all, order, grown, e) {
        assert GroupedAt(front, order, byExchange, e);
        OfOneMore(keys, i, e);
      }
    } else {
      var grown, longer := byExchange[k.exchange := [k]], order + [k.exchange];
      forall e ensures GroupedAt(all, longer, grown, e) {
        assert GroupedAt(front, order, byExchange, e);
        OfOneMore(keys, i, e);
      }
    }
  }

  lemma ListsOfOneMore(keys: seq<Key>, i: nat)
    requires i < |keys|
    ensures var front := Exchanges(keys[..i]);
            Exchanges(keys[..i + 1]) == if keys[i].exchange in front then front else front + [keys[i].exchange]
  {
    assert keys[..i + 1][..i] == keys[..i];
  }

  lemma OfOneMore(keys: seq<Key>, i: nat, e: string)
    requires i < |keys|
    ensures Of(keys[..i + 1], e) == if e == keys[i].exchange then Of(keys[..i], e) + [keys[i]] else Of(keys[..i], e)
  {
    assert keys[..i + 1][..i] == keys[..i];
  }

  /** The key lists per exchange, and the exchanges in dictionary order. */
  method GroupByExchange(keys: seq<Key>) returns (order: seq<string>, byExchange: map<string, seq<Key>>)
    ensures Grouped(keys, order, byExchange)
  {
    byExchange, order := map[], [];
    for i := 0 to |keys|
      invariant Grouped(keys[..i], order, byExchange)
    {
      var k := keys[i];
      GroupOne(keys, i, order, byExchange);
      if k.exchange in byExchange {
        byExchange := byExchange[k.exchange := byExchange[k.exchange] + [k]];
      } else {
        byExchange, order := byExchange[k.exchange := [k]], order + [k.exchange];
      }
    }
    assert keys[..|keys|] == keys;
  }

  lemma OverOneMore(keys: seq<Key>, caps: Caps, order: seq<string>, i: nat)
    requires i < |order|
    ensures var own, e := Of(keys, order[i]), order[i];
            OverAll(keys, caps, order[..i + 1])
            == if e in caps.perExchange && |own| > caps.perExchange[e]
               then OverAll(keys, caps, order[..i]) + Prefix(own, |own| - caps.perExchange[e])
               else OverAll(keys, caps, order[..i])
  {
    assert order[..i + 1][..i] == order[..i];
    var own := Of(keys, order[i]);
    assert own[..|own|] == own;
  }

  /** The first keys of every group that is over its cap. */
  method TrimGroups(keys: seq<Key>, caps: Caps, order: seq<string>, byExchange: map<string, seq<Key>>)
    returns (toClose: seq<Key>)
    requires Grouped(keys, order, byExchange)
    ensures toClose == OverAll(keys, caps, order)
  {
    toClose := [];
    for i := 0 to |order|
      invariant toClose == OverAll(keys, caps, order[..i])
    {
      var exchange := order[i];
      assert GroupedAt(keys, order, byExchange, exchange);
      var own := byExchange[exchange];
      OverOneMore(keys, caps, order, i);
      if exchange in caps.perExchange && |own| > caps.perExchange[exchange] {
        toClose := toClose + Prefix(own, |own| - caps.perExchange[exchange]);
      }
    }
    assert order[..|order|] == order;
  }

  /** The selection as the code makes it: group, trim each group, then trim what remains. */
  method SelectForClosing(keys: seq<Key>, caps: Caps) returns (toClose: seq<Key>)
    requires Distinct(keys)
    ensures toClose == ToClose(keys, caps)
    ensures forall i: nat :: i < |keys| ==>
              (keys[i] in toClose <==>
                 OverCap(keys, caps, i) || (caps.global.Some? && Spared(keys, caps, i) > Bound(caps.global.value)))
  {
    var order, byExchange := GroupByExchange(keys);
    toClose := TrimGroups(keys, caps, order, byExchange);
    RemainingSize(keys, caps);
    if caps.global.Some? && |keys| - |toClose| > caps.global.value {
      var need := |keys| - |toClose| - caps.global.value;
      var remaining := RestOf(keys, toClose);
      toClose := toClose + Prefix(remaining, need);
    }
    forall i: nat | i < |keys|
      ensures keys[i] in toClose <==>
              OverCap(keys, caps, i) || (caps.global.Some? && Spared(keys, caps, i) > Bound(caps.global.value))
    {
      ClosedIff(keys, caps, i);
    }
  }

  lemma RemainingSize(keys: seq<Key>, caps: Caps)
    requires Distinct(keys)
    ensures var first := OverAll(keys, caps, Exchanges(keys)); |Rest(keys, first)| == |keys| - |first|
  {
    SelectedPerExchange(keys, caps);
    RestSize(keys, OverAll(keys, caps, Exchanges(keys)));
  }

  method RestOf(keys: seq<Key>, closed: seq<Key>) returns (rest: seq<Key>)
    ensures rest == Rest(keys, closed)
  {
    rest := [];
    for i := 0 to |keys|
      invariant rest == Rest(keys[..i], closed)
    {
      assert keys[..i + 1][..i] == keys[..i];
      if keys[i] !in closed {
        rest := rest + [keys[i]];
      }
    }
    assert keys[..|keys|] == keys;
  }

  // ---------------------------------------------------------------- lists as sets

  lemma {:induction false} DistinctSize(keys: seq<Key>)
    requires Distinct(keys)
    ensures |ToSet(keys)| == |keys|
    decreases |keys|
  {
    if keys != [] {
      var n := |keys| - 1;
      DistinctFront(keys);
      DistinctSize(keys[..n]);
      assert ToSet(keys) == ToSet(keys[..n]) + {keys[n]};
      assert keys[n] !in ToSet(keys[..n]) by {
        forall i | 0 <= i < n ensures keys[i] != keys[n] {
          assert !Same(keys, i, n);
        }
      }
    }
  }

  lemma DistinctConcat(a: seq<Key>, b: seq<Key>)
    requires Distinct(a) && Distinct(b) && forall k :: k in a ==> k !in b
    ensures Distinct(a + b) && ToSet(a + b) == ToSet(a) + ToSet(b)
  {
    var c := a + b;
    forall i, j ensures !Same(c, i, j) {
      assert !Same(a, i, j) && !Same(b, i - |a|, j - |a|);
      if 0 <= i < |a| <= j < |c| {
        assert c[i] in a && c[j] in b;
      }
    }
    forall k ensures k in ToSet(c) <==> k in ToSet(a) + ToSet(b) {
      if k in ToSet(b) {
        var i :| 0 <= i < |b| && b[i] == k;
        assert c[|a| + i] == k;
      }
      if k in ToSet(a) {
        var i :| 0 <= i < |a| && a[i] == k;
        assert c[i] == k;
      }
    }
  }

  lemma DistinctPrefix(keys: seq<Key>, n: nat)
    requires Distinct(keys) && n <= |keys|
    ensures Distinct(keys[..n])
  {
    forall i, j ensures !Same(keys[..n], i, j) {
      assert !Same(keys, i, j);
    }
  }

  lemma {:induction false} OfMembers(keys: seq<Key>, e: string)
    requires Distinct(keys)
    ensures forall k :: k in Of(keys, e) <==> k in keys && k.exchange == e
    ensures Distinct(Of(keys, e))
    decreases |keys|
  {
    if keys != [] {
      var n := |keys| - 1;
      DistinctFront(keys);
      OfMembers(keys[..n], e);
      assert forall k :: k in keys <==> k in keys[..n] || k == keys[n];
      if keys[n].exchange == e {
        DistinctConcat(Of(keys[..n], e), [keys[n]]);
      } else {
        assert Of(keys, e) == Of(keys[..n], e);
      }
    }
  }

  lemma {:induction false} RestMembers(keys: seq<Key>, closed: seq<Key>)
    requires Distinct(keys)
    ensures forall k :: k in Rest(keys, closed) <==> k in keys && k !in closed
    ensures Distinct(Rest(keys, closed))
    decreases |keys|
  {
    if keys != [] {
      var n := |keys| - 1;
      DistinctFront(keys);
      RestMembers(keys[..n], closed);
      assert forall k :: k in keys <==> k in keys[..n] || k == keys[n];
      if keys[n] !in closed {
        DistinctConcat(Rest(keys[..n], closed), [keys[n]]);
      } else {
        assert Rest(keys, closed) == Rest(keys[..n], closed);
      }
    }
  }

  lemma {:induction false} ExchangesMembers(keys: seq<Key>)
    ensures forall k :: k in keys ==> k.exchange in Exchanges(keys)
    ensures forall i, j :: 0 <= i < j < |Exchanges(keys)| ==> Exchanges(keys)[i] != Exchanges(keys)[j]
    decreases |keys|
  {
    if keys != [] {
      var n := |keys| - 1;
      ExchangesMembers(keys[..n]);
      assert forall k :: k in keys <==> k in keys[..n] || k == keys[n];
    }
  }

  /** Closing a duplicate-free part of a list leaves the difference. */
  lemma RestSize(keys: seq<Key>, closed: seq<Key>)
    requires Distinct(keys) && Distinct(closed) && forall k :: k in closed ==> k in keys
    ensures |Rest(keys, closed)| == |keys| - |closed|
  {
    var rest := Rest(keys, closed);
    RestMembers(keys, closed);
    DistinctConcat(rest, closed);
    DistinctSize(rest + closed);
    DistinctSize(keys);
    assert ToSet(rest + closed) == ToSet(keys) by {
      forall k ensures k in ToSet(rest + closed) <==> k in ToSet(keys) {
        assert k in ToSet(rest + closed) <==> k in rest || k in closed;
      }
    }
  }

  // ---------------------------------------------------------------- the first phase

  lemma {:induction false} OverAllMembers(keys: seq<Key>, caps: Caps, exchanges: seq<string>)
    requires Distinct(keys)
    requires forall i, j :: 0 <= i < j < |exchanges| ==> exchanges[i] != exchanges[j]
    ensures Distinct(OverAll(keys, caps, exchanges))
    ensures forall k :: k in OverAll(keys, caps, exchanges)
             <==> k.exchange in exchanges && k in Over(keys, caps, k.exchange)
    ensures forall k :: k in OverAll(keys, caps, exchanges) ==> k in keys
    decreases |exchanges|
  {
    if exchanges != [] {
      var n := |exchanges| - 1;
      var e := exchanges[n];
      var front := OverAll(keys, caps, exchanges[..n]);
      OverAllMembers(keys, caps, exchanges[..n]);
      OfMembers(keys, e);
      DistinctPrefix(Of(keys, e), |Over(keys, caps, e)|);
      forall k | k in front ensures k !in Over(keys, caps, e) {
        assert k.exchange in exchanges[..n];
      }
      DistinctConcat(front, Over(keys, caps, e));
      forall k: Key ensures k in front + Over(keys, caps, e)
          <==> k.exchange in exchanges && k in Over(keys, caps, k.exchange) {
        assert k.exchange in exchanges <==> k.exchange in exchanges[..n] || k.exchange == e;
        if k in Over(keys, caps, e) {
          assert k in Of(keys, e);
        }
      }
    }
  }

  lemma SelectedPerExchange(keys: seq<Key>, caps: Caps)
    requires Distinct(keys)
    ensures var first := OverAll(keys, caps, Exchanges(keys));
            && Distinct(first)
            && (forall k :: k in first ==> k in keys)
            && (forall k :: k in first <==> k in Over(keys, caps, k.exchange))
  {
    ExchangesMembers(keys);
    OverAllMembers(keys, caps, Exchanges(keys));
    forall k: Key | k in Over(keys, caps, k.exchange) ensures k.exchange in Exchanges(keys) {
      OfMembers(keys, k.exchange);
      assert k in Of(keys, k.exchange);
    }
  }

  function ExcessSum(keys: seq<Key>, caps: Caps, exchanges: seq<string>): nat {
    if exchanges == [] then 0
    else
      var n := |exchanges| - 1;
      ExcessSum(keys, caps, exchanges[..n]) + Excess(|Of(keys, exchanges[n])|, CapOf(caps, exchanges[n]))
  }

  lemma {:induction false} OverAllSize(keys: seq<Key>, caps: Caps, exchanges: seq<string>)
    ensures |OverAll(keys, caps, exchanges)| == ExcessSum(keys, caps, exchanges)
    decreases |exchanges|
  {
    if exchanges != [] {
      OverAllSize(keys, caps, exchanges[..|exchanges| - 1]);
    }
  }

  // ---------------------------------------------------------------- the result

  /** The selected keys are distinct clients, and their number is the sum of the per-exchange
      excesses plus the global excess that remains. */
  lemma SelectionIsExact(keys: seq<Key>, caps: Caps)
    requires Distinct(keys)
    ensures Distinct(ToClose(keys, caps)) && (forall k :: k in ToClose(keys, caps) ==> k in keys)
    ensures var sum := ExcessSum(keys, caps, Exchanges(keys));
            sum <= |keys| && |ToClose(keys, caps)| == sum + Excess(|keys| - sum, caps.global)
  {
    var first := OverAll(keys, caps, Exchanges(keys));
    SelectedPerExchange(keys, caps);
    OverAllSize(keys, caps, Exchanges(keys));
    RestSize(keys, first);
    WithMore(keys, first, Excess(|Rest(keys, first)|, caps.global));
  }

  /** Adding some of the keys not in a selection keeps it a selection. */
  lemma WithMore(keys: seq<Key>, first: seq<Key>, n: nat)
    requires Distinct(keys) && Distinct(first) && (forall k :: k in first ==> k in keys) && n <= |Rest(keys, first)|
    ensures var all := first + Rest(keys, first)[..n];
            Distinct(all) && forall k :: k in all ==> k in keys
  {
    var rest := Rest(keys, first);
    RestMembers(keys, first);
    DistinctPrefix(rest, n);
    forall k | k in first ensures k !in rest[..n] {
      assert k !in rest;
    }
    DistinctConcat(first, rest[..n]);
  }

  /** What is left of one exchange when a list of keys is closed. */
  lemma OpenOfExchange(keys: seq<Key>, closed: seq<Key>, e: string, n: nat)
    requires Distinct(keys) && n <= |Of(keys, e)| && forall i :: 0 <= i < n ==> Of(keys, e)[i] in closed
    ensures |Of(Rest(keys, closed), e)| <= |Of(keys, e)| - n
  {
    var open, tail := Of(Rest(keys, closed), e), Of(keys, e)[n..];
    RestMembers(keys, closed);
    OfMembers(Rest(keys, closed), e);
    OfMembers(keys, e);
    DistinctSize(open);
    SizeBound(tail);
    forall k | k in ToSet(open) ensures k in ToSet(tail) {
      assert k in open && k in Of(keys, e);
      var i :| 0 <= i < |Of(keys, e)| && Of(keys, e)[i] == k;
      assert n <= i;
      assert tail[i - n] == k;
    }
    SubsetCard(ToSet(open), ToSet(tail));
  }

  lemma {:induction false} SizeBound(keys: seq<Key>)
    ensures |ToSet(keys)| <= |keys|
    decreases |keys|
  {
    if keys != [] {
      var n := |keys| - 1;
      SizeBound(keys[..n]);
      assert ToSet(keys) == ToSet(keys[..n]) + {keys[n]};
    }
  }

  /** Closing the selection brings every capped exchange and the whole pool within the caps. */
  lemma PruningMeetsCaps(keys: seq<Key>, caps: Caps)
    requires Distinct(keys)
    ensures var open := Rest(keys, ToClose(keys, caps));
            && (caps.global.Some? ==> |open| <= Bound(caps.global.value))
            && (forall e :: e in caps.perExchange ==> |Of(open, e)| <= Bound(caps.perExchange[e]))
  {
    SelectionIsExact(keys, caps);
    RestSize(keys, ToClose(keys, caps));
    forall e | e in caps.perExchange ensures |Of(Rest(keys, ToClose(keys, caps)), e)| <= Bound(caps.perExchange[e]) {
      ExchangeMeetsCap(keys, caps, e);
    }
  }

  lemma ExchangeMeetsCap(keys: seq<Key>, caps: Caps, e: string)
    requires Distinct(keys) && e in caps.perExchange
    ensures |Of(Rest(keys, ToClose(keys, caps)), e)| <= Bound(caps.perExchange[e])
  {
    var closed := ToClose(keys, caps);
    var n := Excess(|Of(keys, e)|, CapOf(caps, e));
    SelectedPerExchange(keys, caps);
    OfMembers(keys, e);
    forall i | 0 <= i < n ensures Of(keys, e)[i] in closed {
      var k := Over(keys, caps, e)[i];
      assert k in Of(keys, e) && k in Over(keys, caps, k.exchange);
    }
    OpenOfExchange(keys, closed, e, n);
  }

  // ---------------------------------------------------------------- which clients are closed

  lemma {:induction false} OfConcat(a: seq<Key>, b: seq<Key>, e: string)
    ensures Of(a + b, e) == Of(a, e) + Of(b, e)
    decreases |b|
  {
    if b == [] {
      assert a + b == a;
    } else {
      var n := |b| - 1;
      assert (a + b)[..|a| + n] == a + b[..n];
      OfConcat(a, b[..n], e);
    }
  }

  lemma {:induction false} RestConcat(a: seq<Key>, b: seq<Key>, closed: seq<Key>)
    ensures Rest(a + b, closed) == Rest(a, closed) + Rest(b, closed)
    decreases |b|
  {
    if b == [] {
      assert a + b == a;
    } else {
      var n := |b| - 1;
      assert (a + b)[..|a| + n] == a + b[..n];
      RestConcat(a, b[..n], closed);
    }
  }

  /** More clients of the exchange than its cap allows are at this place or behind it. */
  predicate OverCap(keys: seq<Key>, caps: Caps, i: int) {
    && 0 <= i < |keys| && keys[i].exchange in caps.perExchange
    && |Of(keys[i..], keys[i].exchange)| > Bound(caps.perExchange[keys[i].exchange])
  }

  /** The clients at place `i` or behind it that no exchange cap closes. */
  function Spared(keys: seq<Key>, caps: Caps, i: nat): nat
    requires i <= |keys|
    decreases |keys| - i
  {
    if i == |keys| then 0 else (if OverCap(keys, caps, i) then 0 else 1) + Spared(keys, caps, i + 1)
  }

  lemma OfAt(keys: seq<Key>, i: nat)
    requires i < |keys|
    ensures var e := keys[i].exchange;
            var n := |Of(keys[..i], e)|;
            && |Of(keys, e)| == n + |Of(keys[i..], e)| && |Of(keys[i..], e)| > 0 && Of(keys, e)[n] == keys[i]
  {
    var e := keys[i].exchange;
    assert keys == keys[..i] + keys[i..] && keys[i..] == [keys[i]] + keys[i + 1..];
    OfConcat(keys[..i], keys[i..], e);
    OfConcat([keys[i]], keys[i + 1..], e);
    assert Of([keys[i]], e) == [keys[i]];
  }

  lemma RestAt(keys: seq<Key>, closed: seq<Key>, i: nat)
    requires i < |keys| && keys[i] !in closed
    ensures var n := |Rest(keys[..i], closed)|;
            && |Rest(keys, closed)| == n + |Rest(keys[i..], closed)| && |Rest(keys[i..], closed)| > 0
            && Rest(keys, closed)[n] == keys[i]
  {
    assert keys == keys[..i] + keys[i..] && keys[i..] == [keys[i]] + keys[i + 1..];
    RestConcat(keys[..i], keys[i..], closed);
    RestConcat([keys[i]], keys[i + 1..], closed);
    assert Rest([keys[i]], closed) == [keys[i]];
  }

  /** In a list without repeats an element is in a prefix exactly when its place is. */
  lemma InPrefixIff(keys: seq<Key>, n: nat, i: nat)
    requires Distinct(keys) && n <= |keys| && i < |keys|
    ensures keys[i] in keys[..n] <==> i < n
  {
    forall j | 0 <= j < n ensures keys[j] == keys[i] ==> j == i {
      assert !Same(keys, i, j) && !Same(keys, j, i);
    }
    if i < n {
      assert keys[..n][i] == keys[i];
    }
  }

  lemma OverCapIff(keys: seq<Key>, caps: Caps, i: nat)
    requires Distinct(keys) && i < |keys|
    ensures keys[i] in OverAll(keys, caps, Exchanges(keys)) <==> OverCap(keys, caps, i)
  {
    var e := keys[i].exchange;
    SelectedPerExchange(keys, caps);
    OfAt(keys, i);
    OfMembers(keys, e);
    InPrefixIff(Of(keys, e), Excess(|Of(keys, e)|, CapOf(caps, e)), |Of(keys[..i], e)|);
  }

  lemma {:induction false} SparedIsRest(keys: seq<Key>, caps: Caps, i: nat)
    requires Distinct(keys) && i <= |keys|
    ensures Spared(keys, caps, i) == |Rest(keys[i..], OverAll(keys, caps, Exchanges(keys)))|
    decreases |keys| - i
  {
    if i < |keys| {
      var first := OverAll(keys, caps, Exchanges(keys));
      SparedIsRest(keys, caps, i + 1);
      OverCapIff(keys, caps, i);
      RestFrom(keys, first, i);
    }
  }

  lemma RestFrom(keys: seq<Key>, closed: seq<Key>, i: nat)
    requires i < |keys|
    ensures |Rest(keys[i..], closed)| == (if keys[i] in closed then 0 else 1) + |Rest(keys[i + 1..], closed)|
  {
    assert keys[i..] == [keys[i]] + keys[i + 1..];
    RestConcat([keys[i]], keys[i + 1..], closed);
    assert Rest([keys[i]], closed) == if keys[i] in closed then [] else [keys[i]];
  }

  /** Exactly which clients are closed: those with more clients of their exchange from their place on than its
      cap allows, and of the others those with more spared ones from there on than the global cap. So the
      oldest go first, and none is closed that the caps allow. */
  lemma ClosedIff(keys: seq<Key>, caps: Caps, i: nat)
    requires Distinct(keys) && i < |keys|
    ensures keys[i] in ToClose(keys, caps)
       <==> OverCap(keys, caps, i) || (caps.global.Some? && Spared(keys, caps, i) > Bound(caps.global.value))
  {
    var first := OverAll(keys, caps, Exchanges(keys));
    OverCapIff(keys, caps, i);
    SparedIsRest(keys, caps, i);
    if keys[i] !in first {
      var rest := Rest(keys, first);
      RestMembers(keys, first);
      RestAt(keys, first, i);
      InPrefixIff(rest, Excess(|rest|, caps.global), |Rest(keys[..i], first)|);
    }
  }

  /** Nothing is closed when the caps already hold. */
  lemma NothingToPrune(keys: seq<Key>, caps: Caps)
    requires Distinct(keys)
    requires caps.global.Some? ==> |keys| <= caps.global.value
    requires forall e :: e in caps.perExchange ==> |Of(keys, e)| <= caps.perExchange[e]
    ensures ToClose(keys, caps) == []
  {
    NoExcess(keys, caps, Exchanges(keys));
    OverAllSize(keys, caps, Exchanges(keys));
    RestSize(keys, []);
  }

  lemma {:induction false} NoExcess(keys: seq<Key>, caps: Caps, exchanges: seq<string>)
    requires forall e :: e in caps.perExchange ==> |Of(keys, e)| <= caps.perExchange[e]
    ensures ExcessSum(keys, caps, exchanges) == 0
    decreases |exchanges|
  {
    if exchanges != [] {
      NoExcess(keys, caps, exchanges[..|exchanges| - 1]);
    }
  }

  /** The pops of one pruning pass, with nothing else in between. */
  function RemoveAll(p: Pool, caps: Caps, closed: seq<Key>): Pool
    decreases |closed|
  {
    if closed == [] then p else RemoveAll(Next(p, caps, Remove(closed[0])), caps, closed[1..])
  }

  lemma {:induction false} RemoveAllClients(p: Pool, caps: Caps, closed: seq<Key>)
    ensures RemoveAll(p, caps, closed).clients == p.clients - ToSet(closed)
    ensures RemoveAll(p, caps, closed).inflight == p.inflight
    decreases |closed|
  {
    if closed != [] {
      RemoveAllClients(Next(p, caps, Remove(closed[0])), caps, closed[1..]);
      assert closed == [closed[0]] + closed[1..];
      assert ToSet(closed) == {closed[0]} + ToSet(closed[1..]);
    }
  }

  lemma OfAsSet(keys: seq<Key>, e: string)
    requires Distinct(keys)
    ensures |OfExchange(ToSet(keys), e)| == |Of(keys, e)|
  {
    OfMembers(keys, e);
    DistinctSize(Of(keys, e));
    forall k ensures k in OfExchange(ToSet(keys), e) <==> k in ToSet(Of(keys, e)) {
    }
    assert OfExchange(ToSet(keys), e) == ToSet(Of(keys, e));
  }

  /** A pruning pass over a quiet pool establishes the new caps, whatever the old ones were. */
  lemma PruningPassEstablishesCaps(p: Pool, keys: seq<Key>, caps: Caps)
    requires Distinct(keys) && p.clients == ToSet(keys) && p.inflight == {}
    ensures WithinCaps(RemoveAll(p, caps, ToClose(keys, caps)), caps)
  {
    var closed := ToClose(keys, caps);
    var open := Rest(keys, closed);
    var q := RemoveAll(p, caps, closed);
    PruningMeetsCaps(keys, caps);
    RemoveAllClients(p, caps, closed);
    RestMembers(keys, closed);
    DistinctSize(open);
    forall k ensures k in q.clients <==> k in ToSet(open) {
    }
    assert q.clients == ToSet(open);
    forall e | e in caps.perExchange ensures ExchangeLoad(q, e) <= Bound(caps.perExchange[e]) {
      OfAsSet(open, e);
      assert OfExchange(q.inflight, e) == {};
    }
  }
}
