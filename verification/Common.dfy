/** Small definitions several components share. */
module Common {

  datatype Option<+T> = None | Some(value: T)

  function ToSet<T>(s: seq<T>): set<T> {
    set x | x in s
  }

  ghost predicate Same<T>(s: seq<T>, i: int, j: int) {
    0 <= i < j < |s| && s[i] == s[j]
  }

  /** No element occurs twice. */
  ghost predicate Distinct<T>(s: seq<T>) {
    forall i, j :: !Same(s, i, j)
  }

  lemma DistinctFront<T>(s: seq<T>)
    requires Distinct(s) && s != []
    ensures Distinct(s[..|s| - 1])
    ensures s[|s| - 1] !in s[..|s| - 1]
  {
    var n := |s| - 1;
    forall i, j ensures !Same(s[..n], i, j) {
      assert !Same(s, i, j);
    }
    forall i | 0 <= i < n ensures s[..n][i] != s[n] {
      assert !Same(s, i, n);
    }
  }

  // ---------------------------------------------------------------- filters

  function Filter<T>(s: seq<T>, p: T -> bool): seq<T> {
    if s == [] then [] else (if p(s[0]) then [s[0]] else []) + Filter(s[1..], p)
  }

  lemma {:induction false} FilterMembers<T>(s: seq<T>, p: T -> bool, m: T)
    ensures m in Filter(s, p) <==> m in s && p(m)
    decreases |s|
  {
    if s != [] {
      FilterMembers(s[1..], p, m);
      assert s == [s[0]] + s[1..];
    }
  }

  lemma {:induction false} FilterAgree<T>(s: seq<T>, p: T -> bool, q: T -> bool)
    requires forall m :: m in s ==> p(m) == q(m)
    ensures Filter(s, p) == Filter(s, q)
    decreases |s|
  {
    if s != [] {
      FilterAgree(s[1..], p, q);
    }
  }

  lemma {:induction false} FilterConcat<T>(a: seq<T>, b: seq<T>, p: T -> bool)
    ensures Filter(a + b, p) == Filter(a, p) + Filter(b, p)
    decreases |a|
  {
    if a == [] {
      assert a + b == b;
    } else {
      var first := if p(a[0]) then [a[0]] else [];
      assert (a + b)[1..] == a[1..] + b;
      FilterConcat(a[1..], b, p);
      assert first + (Filter(a[1..], p) + Filter(b, p)) == (first + Filter(a[1..], p)) + Filter(b, p);
    }
  }

  lemma {:induction false} FilterTwice<T>(s: seq<T>, p: T -> bool, q: T -> bool, both: T -> bool)
    requires forall m :: m in s ==> both(m) == (p(m) && q(m))
    ensures Filter(Filter(s, p), q) == Filter(s, both)
    decreases |s|
  {
    if s != [] {
      FilterTwice(s[1..], p, q, both);
      if p(s[0]) {
        assert ([s[0]] + Filter(s[1..], p))[1..] == Filter(s[1..], p);
      } else {
        assert Filter(s, p) == Filter(s[1..], p);
      }
    }
  }

  lemma {:induction false} FilterAll<T>(s: seq<T>, p: T -> bool)
    requires forall m :: m in s ==> p(m)
    ensures Filter(s, p) == s
    decreases |s|
  {
    if s != [] {
      FilterAll(s[1..], p);
    }
  }

  lemma {:induction false} FilterNone<T>(s: seq<T>, p: T -> bool)
    requires forall m :: m in s ==> !p(m)
    ensures Filter(s, p) == []
    decreases |s|
  {
    if s != [] {
      FilterNone(s[1..], p);
    }
  }

  lemma {:induction false} FilterGrows<T>(s: seq<T>, p: T -> bool, q: T -> bool, m: T)
    requires forall x :: x in s && p(x) ==> q(x)
    ensures |Filter(s, p)| <= |Filter(s, q)|
    ensures m in s && q(m) && !p(m) ==> |Filter(s, p)| < |Filter(s, q)|
    decreases |s|
  {
    if s != [] {
      FilterGrows(s[1..], p, q, m);
      assert s == [s[0]] + s[1..];
    }
  }

  lemma {:induction false} FilterShortens<T>(s: seq<T>, p: T -> bool)
    ensures |Filter(s, p)| <= |s|
    decreases |s|
  {
    if s != [] {
      FilterShortens(s[1..], p);
    }
  }

  lemma FilterOneMore<T>(s: seq<T>, n: nat, p: T -> bool)
    requires n < |s|
    ensures Filter(s[..n + 1], p) == if p(s[n]) then Filter(s[..n], p) + [s[n]] else Filter(s[..n], p)
  {
    assert s[..n + 1] == s[..n] + [s[n]];
    FilterConcat(s[..n], [s[n]], p);
  }
}
