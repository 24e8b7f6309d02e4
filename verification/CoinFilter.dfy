/** The two filters over an exchange's coin mapping: one splits the coins into approved and ignored, the
    other lists the passing rows for display. */
module CoinFilter {
  import opened Common

  /** A floating-point value without its rounding. */
  datatype Number = Finite(value: real) | PosInf | NegInf | NaN

  /** One record of the mapping. `fromSymbol` is the coin name derived from the symbol, and `unlisted`
      says that the record names no market-data entry. */
  datatype Record = Record(quote: string, coin: string, fromSymbol: string, active: bool, swap: bool, linear: bool,
                           openInterest: Option<Number>, cap: Option<Number>, volume: Option<Number>, unlisted: bool,
                           notice: bool, copyTrading: bool, tags: set<string>)

  datatype Settings = Settings(exchange: string, capFloor: Number, ratioCeiling: Number, onlyCopyTrading: bool,
                               dropNotices: bool, tags: set<string>, activeOnly: bool, quotes: set<string>)

  datatype Row = Row(record: Record, coin: string, cap: Option<real>, volume: Option<real>, ratio: Option<real>)

  function UpperChar(c: char): char {
    if 'a' <= c <= 'z' then c - 'a' + 'A' else c
  }

  function Upper(s: string): string {
    if s == "" then "" else [UpperChar(s[0])] + Upper(s[1..])
  }

  function Uppers(s: set<string>): set<string> {
    set q | q in s :: Upper(q)
  }

  function FiniteOf(n: Option<Number>): Option<real> {
    if n.Some? && n.value.Finite? then Some(n.value.value) else None
  }

  function Cap(r: Record): Option<real> {
    if r.unlisted then None else FiniteOf(r.cap)
  }

  function Volume(r: Record): Option<real> {
    if r.unlisted then None else FiniteOf(r.volume)
  }

  function Ratio(r: Record): Option<real> {
    if Cap(r).Some? && Cap(r).value > 0.0 && Volume(r).Some? then Some(Volume(r).value / Cap(r).value) else None
  }

  predicate Eligible(exchange: string, r: Record) {
    && r.active && r.swap && r.linear
    && (exchange == "hyperliquid" && r.openInterest.Some? ==>
          match r.openInterest.value
          case Finite(v) => v > 0.0
          case NegInf => false
          case _ => true)
    && (exchange == "kucoin" ==> Upper(r.quote) == "USDT")
  }

  predicate CapActive(n: Number) {
    n.PosInf? || (n.Finite? && n.value > 0.0)
  }

  predicate CapPasses(n: Number, cap: Option<real>) {
    CapActive(n) ==> n.Finite? && cap.Some? && cap.value >= n.value
  }

  predicate RatioActive(n: Number) {
    n.Finite? && n.value < 10.0
  }

  predicate RatioPasses(n: Number, ratio: Option<real>) {
    RatioActive(n) ==> ratio.Some? && ratio.value < n.value
  }

  predicate Passes(s: Settings, r: Record) {
    && (s.activeOnly ==> Eligible(s.exchange, r))
    && CapPasses(s.capFloor, Cap(r)) && RatioPasses(s.ratioCeiling, Ratio(r))
    && (s.onlyCopyTrading ==> r.copyTrading)
    && (s.dropNotices ==> !r.notice)
    && (s.tags != {} ==> s.tags * r.tags != {})
  }

  /** The coin a record stands for, empty when there is none. */
  function CoinOf(r: Record): string {
    if r.coin != "" then Upper(r.coin) else Upper(r.fromSymbol)
  }

  predicate Listed(s: Settings, r: Record) {
    && (s.quotes != {} ==> Upper(r.quote) in Uppers(s.quotes))
    && CoinOf(r) != ""
  }

  predicate InScope(s: Settings, r: Record) {
    Listed(s, r) && (s.activeOnly ==> Eligible(s.exchange, r))
  }

  function ScopeCoins(records: seq<Record>, s: Settings): set<string> {
    set r | r in records && InScope(s, r) :: CoinOf(r)
  }

  function ApprovedCoins(records: seq<Record>, s: Settings): set<string> {
    set r | r in records && Listed(s, r) && Passes(s, r) :: CoinOf(r)
  }

  // ---------------------------------------------------------------- names

  lemma {:induction false} UpperTwice(s: string)
    ensures Upper(Upper(s)) == Upper(s) && |Upper(s)| == |s|
    ensures forall i :: 0 <= i < |s| ==>
              if 'a' <= s[i] <= 'z' then Upper(s)[i] as int == s[i] as int - 32 else Upper(s)[i] == s[i]
    decreases |s|
  {
    if s != "" {
      UpperTwice(s[1..]);
      assert ([UpperChar(s[0])] + Upper(s[1..]))[1..] == Upper(s[1..]);
    }
  }

  // ---------------------------------------------------------------- the two filters

  lemma OneMore(records: seq<Record>, n: nat, s: Settings)
    requires n < |records|
    ensures ApprovedCoins(records[..n + 1], s)
            == ApprovedCoins(records[..n], s)
               + if Listed(s, records[n]) && Passes(s, records[n]) then {CoinOf(records[n])} else {}
    ensures ScopeCoins(records[..n + 1], s)
            == ScopeCoins(records[..n], s) + if InScope(s, records[n]) then {CoinOf(records[n])} else {}
  {
    assert records[..n + 1] == records[..n] + [records[n]];
  }

  /** v >= n and v < n, as the floating-point comparisons answer them. */
  predicate AtLeast(v: real, n: Number) {
    match n
    case Finite(w) => v >= w
    case NegInf => true
    case _ => false
  }

  predicate Below(v: real, n: Number) {
    match n
    case Finite(w) => v < w
    case PosInf => true
    case _ => false
  }

  lemma TagsMeet(s: Settings, r: Record)
    ensures (exists tag :: tag in s.tags && tag in r.tags) <==> s.tags * r.tags != {}
  {
    if tag :| tag in s.tags && tag in r.tags {
      assert tag in s.tags * r.tags;
    }
  }

  /** The name as both filters compute it; upper-casing it twice does no harm. */
  method NameOf(r: Record) returns (coin: string)
    ensures coin == CoinOf(r)
  {
    UpperTwice(r.coin);
    UpperTwice(r.fromSymbol);
    coin := Upper(r.coin);
    if coin == "" {
      coin := r.fromSymbol;
    }
    coin := Upper(coin);
  }

  /** Splits the coins in scope: a coin with a passing record is approved, any other is ignored. */
  method FilterMapping(records: seq<Record>, s: Settings) returns (approved: set<string>, ignored: set<string>)
    ensures approved == ApprovedCoins(records, s)
    ensures approved + ignored == ScopeCoins(records, s) && approved * ignored == {}
  {
    approved, ignored := {}, {};
    var capActive := Below(0.0, s.capFloor);
    var ratioActive := s.ratioCeiling.Finite? && s.ratioCeiling.value < 10.0;
    for i := 0 to |records|
      invariant approved == ApprovedCoins(records[..i], s)
      invariant approved + ignored == ScopeCoins(records[..i], s)
    {
      var r := records[i];
      OneMore(records, i, s);
      var coin := NameOf(r);
      var inScope := (s.quotes == {} || Upper(r.quote) in Uppers(s.quotes)) && coin != "";
      var eligible := Eligible(s.exchange, r);
      if s.activeOnly && !eligible {
        inScope := false;
      }
      var cap, ratio := Cap(r), Ratio(r);
      var passes :=
        && (!s.activeOnly || eligible)
        && (!capActive || (cap.Some? && AtLeast(cap.value, s.capFloor)))
        && (!ratioActive || (ratio.Some? && Below(ratio.value, s.ratioCeiling)))
        && (!s.onlyCopyTrading || r.copyTrading)
        && (!s.dropNotices || !r.notice)
        && (s.tags == {} || exists tag :: tag in s.tags && tag in r.tags);
      TagsMeet(s, r);
      assert passes == Passes(s, r);
      if inScope && passes {
        approved := approved + {coin};
      } else if inScope {
        ignored := ignored + {coin};
      }
    }
    ignored := ignored - approved;
    assert records[..|records|] == records;
  }

  function RowOf(r: Record): Row {
    Row(r, CoinOf(r), Cap(r), Volume(r), Ratio(r))
  }

  /** The rows of the passing records, in mapping order. */
  function Rows(records: seq<Record>, s: Settings): seq<Row> {
    if records == [] then []
    else
      var r := records[|records| - 1];
      Rows(records[..|records| - 1], s) + if Listed(s, r) && Passes(s, r) then [RowOf(r)] else []
  }

  function RowCoins(rows: seq<Row>): set<string> {
    set row | row in rows :: row.coin
  }

  lemma RowsOneMore(records: seq<Record>, n: nat, s: Settings)
    requires n < |records|
    ensures var r, rows := records[n], Rows(records[..n], s);
            Rows(records[..n + 1], s) == if Listed(s, r) && Passes(s, r) then rows + [RowOf(r)] else rows
  {
    assert records[..n + 1][..n] == records[..n];
  }

  method FilterMappingRows(records: seq<Record>, s: Settings) returns (rows: seq<Row>)
    ensures rows == Rows(records, s)
  {
    rows := [];
    var capActive := Below(0.0, s.capFloor);
    var ratioActive := s.ratioCeiling.Finite? && s.ratioCeiling.value < 10.0;
    for i := 0 to |records|
      invariant rows == Rows(records[..i], s)
    {
      var r := records[i];
      RowsOneMore(records, i, s);
      var coin := NameOf(r);
      var eligible, cap, ratio := Eligible(s.exchange, r), Cap(r), Ratio(r);
      var passes :=
        && (!s.activeOnly || eligible)
        && (!capActive || (cap.Some? && AtLeast(cap.value, s.capFloor)))
        && (!ratioActive || (ratio.Some? && Below(ratio.value, s.ratioCeiling)))
        && (!s.onlyCopyTrading || r.copyTrading)
        && (!s.dropNotices || !r.notice)
        && (s.tags == {} || exists tag :: tag in s.tags && tag in r.tags);
      TagsMeet(s, r);
      assert passes == Passes(s, r);
      if (s.quotes == {} || Upper(r.quote) in Uppers(s.quotes)) && coin != "" && passes {
        rows := rows + [Row(r, coin, cap, Volume(r), ratio)];
      }
    }
    assert records[..|records|] == records;
  }

  /** For every mapping and setting, the listed rows show exactly the approved coins. */
  lemma {:induction false} FiltersAgree(records: seq<Record>, s: Settings)
    ensures RowCoins(Rows(records, s)) == ApprovedCoins(records, s)
    decreases |records|
  {
    if records != [] {
      var n := |records| - 1;
      var r := records[n];
      FiltersAgree(records[..n], s);
      OneMore(records, n, s);
      assert records[..n + 1] == records;
      var earlier := Rows(records[..n], s);
      assert RowCoins(earlier + [RowOf(r)]) == RowCoins(earlier) + {CoinOf(r)};
    }
  }

  predicate Passing(records: seq<Record>, s: Settings, k: int) {
    0 <= k < |records| && Listed(s, records[k]) && Passes(s, records[k])
  }

  /** Row `i` shows the passing record at place `places[i]`. */
  ghost predicate RowSits(records: seq<Record>, s: Settings, rows: seq<Row>, places: seq<int>, i: int) {
    0 <= i < |rows| == |places| ==>
      && Passing(records, s, places[i]) && (0 < i ==> places[i - 1] < places[i])
      && var r := records[places[i]]; rows[i] == Row(r, CoinOf(r), Cap(r), Volume(r), Ratio(r))
  }

  /** The rows show the passing records at increasing places, and all of them. */
  ghost predicate RowsSit(records: seq<Record>, s: Settings, rows: seq<Row>, places: seq<int>) {
    && |places| == |rows| && (forall i :: RowSits(records, s, rows, places, i))
    && forall k :: Passing(records, s, k) ==> k in places
  }

  lemma RowsSitOneMore(records: seq<Record>, s: Settings, rows: seq<Row>, places: seq<int>, n: nat)
    requires n < |records| && RowsSit(records[..n], s, rows, places)
    ensures if Passing(records, s, n) then RowsSit(records[..n + 1], s, rows + [RowOf(records[n])], places + [n])
            else RowsSit(records[..n + 1], s, rows, places)
  {
    var front, all := records[..n], records[..n + 1];
    forall k | Passing(all, s, k) ensures k == n || k in places {
      assert k < n ==> Passing(front, s, k);
    }
    forall i ensures RowSits(all, s, rows, places, i) {
      assert RowSits(front, s, rows, places, i);
    }
    if Passing(records, s, n) {
      forall i ensures RowSits(all, s, rows + [RowOf(records[n])], places + [n], i) {
        assert RowSits(front, s, rows, places, i) && RowSits(front, s, rows, places, i - 1);
      }
    }
  }

  /** The listed rows keep the order of the mapping and miss none. */
  lemma {:induction false} RowsAreInOrder(records: seq<Record>, s: Settings, n: nat) returns (places: seq<int>)
    requires n <= |records|
    ensures RowsSit(records[..n], s, Rows(records[..n], s), places)
    decreases n
  {
    places := [];
    if n > 0 {
      places := RowsAreInOrder(records, s, n - 1);
      RowsSitOneMore(records, s, Rows(records[..n - 1], s), places, n - 1);
      RowsOneMore(records, n - 1, s);
      if Passing(records, s, n - 1) {
        places := places + [n - 1];
      }
    }
  }

  // ---------------------------------------------------------------- what each setting does

  /** The record makes the coin approved. */
  predicate ApprovedBy(records: seq<Record>, s: Settings, coin: string, r: Record) {
    r in records && Listed(s, r) && Passes(s, r) && CoinOf(r) == coin
  }

  /** The record's own coin or the one derived from its symbol, in capitals, under a wanted quote. */
  ghost predicate Names(quotes: set<string>, r: Record, coin: string) {
    && coin != "" && coin == Upper(if r.coin == "" then r.fromSymbol else r.coin)
    && (quotes == {} || exists q :: q in quotes && Upper(q) == Upper(r.quote))
  }

  /** With everything switched off all coins so named are approved. */
  lemma OffApprovesAll(records: seq<Record>, exchange: string, quotes: set<string>, coin: string)
    ensures coin in ApprovedCoins(records, Settings(exchange, NaN, NaN, false, false, {}, false, quotes))
       <==> exists r :: r in records && Names(quotes, r, coin)
  {
    var s := Settings(exchange, NaN, NaN, false, false, {}, false, quotes);
    forall r ensures ApprovedBy(records, s, coin, r) <==> r in records && Names(quotes, r, coin) {
    }
    ApprovedIff(records, s, coin);
  }

  /** Each switch keeps exactly the coins of a record that was approved without it and meets its condition. */
  lemma SwitchesAreExact(records: seq<Record>, s: Settings, coin: string)
    ensures coin in ApprovedCoins(records, s.(dropNotices := true))
       <==> exists r :: ApprovedBy(records, s.(dropNotices := false), coin, r) && !r.notice
    ensures coin in ApprovedCoins(records, s.(onlyCopyTrading := true))
       <==> exists r :: ApprovedBy(records, s.(onlyCopyTrading := false), coin, r) && r.copyTrading
    ensures s.tags != {} ==> (coin in ApprovedCoins(records, s) <==>
              exists r, tag :: ApprovedBy(records, s.(tags := {}), coin, r) && tag in s.tags && tag in r.tags)
  {
    forall r
      ensures ApprovedBy(records, s.(dropNotices := true), coin, r)
         <==> ApprovedBy(records, s.(dropNotices := false), coin, r) && !r.notice
      ensures ApprovedBy(records, s.(onlyCopyTrading := true), coin, r)
         <==> ApprovedBy(records, s.(onlyCopyTrading := false), coin, r) && r.copyTrading
      ensures s.tags != {} ==> (ApprovedBy(records, s, coin, r) <==>
                exists tag :: ApprovedBy(records, s.(tags := {}), coin, r) && tag in s.tags && tag in r.tags)
    {
      TagsMeet(s, r);
    }
    ApprovedIff(records, s.(dropNotices := true), coin);
    ApprovedIff(records, s.(onlyCopyTrading := true), coin);
    ApprovedIff(records, s, coin);
  }

  lemma ApprovedIff(records: seq<Record>, s: Settings, coin: string)
    ensures coin in ApprovedCoins(records, s) <==> exists r :: ApprovedBy(records, s, coin, r)
  {
    if coin in ApprovedCoins(records, s) {
      var r :| r in records && Listed(s, r) && Passes(s, r) && CoinOf(r) == coin;
      assert ApprovedBy(records, s, coin, r);
    }
  }

  /** The active filter keeps the coins of an active linear swap; on Hyperliquid one whose open interest, if it
      is known, is not zero or less, and on KuCoin one quoted in USDT. */
  lemma ActiveFilterIsExact(records: seq<Record>, s: Settings, coin: string)
    ensures coin in ApprovedCoins(records, s.(activeOnly := true)) <==>
            exists r :: ApprovedBy(records, s.(activeOnly := false), coin, r)
              && r.active && r.swap && r.linear
              && (s.exchange == "hyperliquid" ==> r.openInterest != Some(NegInf))
              && (s.exchange == "hyperliquid" ==> forall v :: r.openInterest == Some(Finite(v)) ==> v > 0.0)
              && (s.exchange == "kucoin" ==> Upper(r.quote) == "USDT")
  {
    ApprovedIff(records, s.(activeOnly := true), coin);
  }

  /** A positive cap floor keeps the coins of a record listed with a finite cap that reaches it. */
  lemma FloorIsExact(records: seq<Record>, s: Settings, floor: real, coin: string)
    requires floor > 0.0
    ensures coin in ApprovedCoins(records, s.(capFloor := Finite(floor))) <==>
            exists r, cap :: ApprovedBy(records, s.(capFloor := NaN), coin, r)
              && !r.unlisted && r.cap == Some(Finite(cap)) && cap >= floor
  {
    ApprovedIff(records, s.(capFloor := Finite(floor)), coin);
  }

  /** A ratio ceiling below ten keeps those of a record with a positive cap and a known volume whose ratio is
      below the ceiling. */
  lemma CeilingIsExact(records: seq<Record>, s: Settings, ceiling: real, coin: string)
    requires ceiling < 10.0
    ensures coin in ApprovedCoins(records, s.(ratioCeiling := Finite(ceiling))) <==>
            exists r, cap, volume :: ApprovedBy(records, s.(ratioCeiling := NaN), coin, r)
              && !r.unlisted && r.cap == Some(Finite(cap)) && r.volume == Some(Finite(volume))
              && cap > 0.0 && volume / cap < ceiling
  {
    ApprovedIff(records, s.(ratioCeiling := Finite(ceiling)), coin);
  }

  // ---------------------------------------------------------------- tightening

  predicate FloorRaised(low: Number, high: Number) {
    CapActive(low) ==> high.PosInf? || (low.Finite? && high.Finite? && low.value <= high.value)
  }

  predicate CeilingLowered(high: Number, low: Number) {
    RatioActive(high) ==> RatioActive(low) && low.value <= high.value
  }

  /** A cap floor is at least as strict as another one for every market cap exactly when it is no lower, or
      the other one is off. */
  lemma FloorIsStricterIff(low: Number, high: Number)
    ensures (forall cap :: CapPasses(high, cap) ==> CapPasses(low, cap)) <==> FloorRaised(low, high)
  {
    if !FloorRaised(low, high) {
      var cap := if CapActive(high) then Some(high.value) else None;
      assert CapPasses(high, cap) && !CapPasses(low, cap);
    }
  }

  /** A ratio ceiling that is infinite, undefined or at least 10 is off, so lowering a ceiling to minus
      infinity approves more. */
  lemma CeilingIsStricterIff(high: Number, low: Number)
    ensures (forall ratio :: RatioPasses(low, ratio) ==> RatioPasses(high, ratio)) <==> CeilingLowered(high, low)
  {
    if !CeilingLowered(high, low) {
      var ratio := if RatioActive(low) then Some(high.value) else None;
      assert RatioPasses(low, ratio) && !RatioPasses(high, ratio);
    }
  }

  /** Lowering a ratio ceiling to minus infinity approves everything that passes the other conditions: a
      coin is new there exactly when no record of it met the old ceiling and one failed nothing else. */
  lemma MinusInfinityApprovesMore(records: seq<Record>, s: Settings, c: string)
    ensures var off := s.(ratioCeiling := NegInf);
            && ApprovedCoins(records, s) <= ApprovedCoins(records, off)
            && (c in ApprovedCoins(records, off) - ApprovedCoins(records, s) <==>
                  && (exists r :: r in records && Listed(s, r) && CoinOf(r) == c && Passes(off, r))
                  && (forall r :: r in records && Listed(s, r) && CoinOf(r) == c && Passes(off, r)
                        ==> !RatioPasses(s.ratioCeiling, Ratio(r))))
  {
    var off := s.(ratioCeiling := NegInf);
    forall r ensures Passes(s, r) <==> Passes(off, r) && RatioPasses(s.ratioCeiling, Ratio(r)) {
    }
  }

  /** A mapping of one record that only fails the ratio: rejected before, approved afterwards. */
  lemma MinusInfinityApprovesOne(r: Record, s: Settings)
    requires Listed(s, r) && Passes(s.(ratioCeiling := NegInf), r) && !RatioPasses(s.ratioCeiling, Ratio(r))
    ensures ApprovedCoins([r], s) == {} && ApprovedCoins([r], s.(ratioCeiling := NegInf)) == {CoinOf(r)}
  {
    assert r in [r] && Listed(s.(ratioCeiling := NegInf), r);
  }

  /** Raising the cap floor and lowering the ratio ceiling only shrinks the approved coins. */
  lemma TighteningShrinks(records: seq<Record>, s: Settings, floor: Number, ceiling: Number)
    requires FloorRaised(s.capFloor, floor) && CeilingLowered(s.ratioCeiling, ceiling)
    ensures ApprovedCoins(records, s.(capFloor := floor, ratioCeiling := ceiling)) <= ApprovedCoins(records, s)
    ensures ScopeCoins(records, s.(capFloor := floor, ratioCeiling := ceiling)) == ScopeCoins(records, s)
  {
    var tight := s.(capFloor := floor, ratioCeiling := ceiling);
    FloorIsStricterIff(s.capFloor, floor);
    CeilingIsStricterIff(s.ratioCeiling, ceiling);
    forall r | r in records && Listed(tight, r) && Passes(tight, r) ensures Passes(s, r) {
      assert CapPasses(floor, Cap(r)) && RatioPasses(ceiling, Ratio(r));
    }
  }

  /** A record that passes every condition but those on its cap and its ratio. */
  function Plain(cap: Option<real>, volume: real): Record {
    Record("", "A", "", true, true, true, None, if cap.None? then None else Some(Finite(cap.value)),
           Some(Finite(volume)), false, false, false, {})
  }

  function Lenient(floor: Number, ceiling: Number): Settings {
    Settings("", floor, ceiling, false, false, {}, false, {})
  }

  lemma PlainIsApprovedIff(cap: Option<real>, volume: real, floor: Number, ceiling: Number)
    ensures var r := Plain(cap, volume);
            ApprovedCoins([r], Lenient(floor, ceiling)) == if CapPasses(floor, cap) && RatioPasses(ceiling, Ratio(r))
                                                           then {"A"} else {}
  {
    var r, s := Plain(cap, volume), Lenient(floor, ceiling);
    assert r in [r] && Cap(r) == cap;
    assert Upper("A") == "A" && CoinOf(r) == "A";
    assert Listed(s, r) && (Passes(s, r) <==> CapPasses(floor, cap) && RatioPasses(ceiling, Ratio(r)));
  }

  ghost predicate ShrinksWithCeiling(records: seq<Record>, s: Settings, low: Number) {
    ApprovedCoins(records, s.(ratioCeiling := low)) <= ApprovedCoins(records, s)
  }

  ghost predicate ShrinksWithFloor(records: seq<Record>, s: Settings, high: Number) {
    ApprovedCoins(records, s.(capFloor := high)) <= ApprovedCoins(records, s)
  }

  /** Replacing a ceiling approves no new coin on any mapping, under any other settings, exactly when it lowers
      the ceiling or the old one was off. */
  lemma CeilingShrinksIff(high: Number, low: Number)
    ensures (forall records, s: Settings :: s.ratioCeiling == high ==> ShrinksWithCeiling(records, s, low))
       <==> CeilingLowered(high, low)
  {
    if CeilingLowered(high, low) {
      forall records, s: Settings | s.ratioCeiling == high ensures ShrinksWithCeiling(records, s, low) {
        TighteningShrinks(records, s, s.capFloor, low);
      }
    } else {
      var cap := if RatioActive(low) then Some(1.0) else None;
      var r, s := Plain(cap, high.value), Lenient(Finite(0.0), high);
      PlainIsApprovedIff(cap, high.value, Finite(0.0), high);
      PlainIsApprovedIff(cap, high.value, Finite(0.0), low);
      assert s.(ratioCeiling := low) == Lenient(Finite(0.0), low);
      assert "A" in ApprovedCoins([r], s.(ratioCeiling := low)) && !ShrinksWithCeiling([r], s, low);
    }
  }

  /** The same for the cap floor. */
  lemma FloorShrinksIff(low: Number, high: Number)
    ensures (forall records, s: Settings :: s.capFloor == low ==> ShrinksWithFloor(records, s, high))
       <==> FloorRaised(low, high)
  {
    if FloorRaised(low, high) {
      forall records, s: Settings | s.capFloor == low ensures ShrinksWithFloor(records, s, high) {
        TighteningShrinks(records, s, high, s.ratioCeiling);
      }
    } else {
      var cap := if CapActive(high) then Some(high.value) else None;
      var r, s := Plain(cap, 0.0), Lenient(low, PosInf);
      PlainIsApprovedIff(cap, 0.0, low, PosInf);
      PlainIsApprovedIff(cap, 0.0, high, PosInf);
      assert s.(capFloor := high) == Lenient(high, PosInf);
      assert "A" in ApprovedCoins([r], s.(capFloor := high)) && !ShrinksWithFloor([r], s, high);
    }
  }
}
