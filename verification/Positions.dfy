/** Reconciliation of the position table with the positions an exchange reports: duplicates and
    closed positions are deleted, then every open one is updated in place or inserted. */
module Positions {
  import opened Common

  /** A symbol and a side. */
  datatype Key = Key(symbol: string, side: string)

  datatype Data = Data(timestamp: int, psize: real, upnl: real, entry: real)

  datatype Row = Row(id: nat, key: Key, user: string, data: Data)

  /** One reported position; a missing timestamp is 0. */
  datatype Live = Live(key: Key, timestamp: int, contracts: real, contractSize: real, upnl: Option<real>, entry: real)

  function Size(l: Live): real {
    l.contracts * l.contractSize
  }

  function DataOf(l: Live, now: int): Data {
    Data(if l.timestamp == 0 then now else l.timestamp, Size(l), if l.upnl.None? then 0.0 else l.upnl.value, l.entry)
  }

  // ---------------------------------------------------------------- tables

  /** The rows of a user under one key, in table order. */
  function RowsOf(rows: seq<Row>, user: string, key: Key): seq<Row> {
    if rows == [] then []
    else (if rows[0].user == user && rows[0].key == key then [rows[0]] else []) + RowsOf(rows[1..], user, key)
  }

  function UserRows(rows: seq<Row>, user: string): seq<Row> {
    if rows == [] then []
    else (if rows[0].user == user then [rows[0]] else []) + UserRows(rows[1..], user)
  }

  function DeleteIds(rows: seq<Row>, ids: set<nat>): seq<Row> {
    if rows == [] then []
    else (if rows[0].id in ids then [] else [rows[0]]) + DeleteIds(rows[1..], ids)
  }

  function Touch(r: Row, user: string, key: Key, data: Data): Row {
    if r.user == user && r.key == key then r.(data := data) else r
  }

  /** UPDATE position SET ... WHERE symbol = ? AND user = ? AND side = ? */
  function UpdateRows(rows: seq<Row>, user: string, key: Key, data: Data): (r: seq<Row>)
    ensures |r| == |rows|
  {
    if rows == [] then [] else [Touch(rows[0], user, key, data)] + UpdateRows(rows[1..], user, key, data)
  }

  /** The id SQLite gives to the next row. */
  function NextId(rows: seq<Row>): (id: nat)
    ensures forall i :: 0 <= i < |rows| ==> rows[i].id < id
  {
    if rows == [] then 1
    else
      var id := NextId(rows[1..]);
      if rows[0].id >= id then rows[0].id + 1 else id
  }

  ghost predicate SameId(rows: seq<Row>, i: int, j: int) {
    0 <= i < j < |rows| && rows[i].id == rows[j].id
  }

  ghost predicate UniqueIds(rows: seq<Row>) {
    forall i, j :: !SameId(rows, i, j)
  }

  /** The keys with a non-zero number of contracts. */
  function LiveKeys(live: seq<Live>): set<Key> {
    set i | 0 <= i < |live| && live[i].contracts != 0.0 :: live[i].key
  }

  /** The last reported position of a key with a non-zero size. */
  function LastOpen(live: seq<Live>, key: Key): Option<Live> {
    if live == [] then None
    else
      var l := live[|live| - 1];
      if l.key == key && Size(l) != 0.0 then Some(l) else LastOpen(live[..|live| - 1], key)
  }

  // ---------------------------------------------------------------- specification

  ghost predicate IsFirst(rows: seq<Row>, r: Row) {
    var own := RowsOf(rows, r.user, r.key);
    own != [] && own[0] == r
  }

  /** What a cleanup deletes: every later row of a key, and every row of a key that is not live. */
  ghost predicate IsStale(rows: seq<Row>, user: string, keys: set<Key>, r: Row) {
    r in rows && r.user == user && (r.key !in keys || !IsFirst(rows, r))
  }

  ghost function Stale(rows: seq<Row>, user: string, keys: set<Key>): set<nat> {
    set i | 0 <= i < |rows| && IsStale(rows, user, keys, rows[i]) :: rows[i].id
  }

  datatype Progress = Progress(rows: seq<Row>, known: set<Key>)

  /** One reported position: skipped when its size is zero, else updated when known, else inserted. */
  function Put(p: Progress, user: string, l: Live, now: int): Progress {
    if Size(l) == 0.0 then p
    else if l.key in p.known then p.(rows := UpdateRows(p.rows, user, l.key, DataOf(l, now)))
    else Progress(p.rows + [Row(NextId(p.rows), l.key, user, DataOf(l, now))], p.known + {l.key})
  }

  function PutAll(p: Progress, user: string, live: seq<Live>, now: int): Progress {
    if live == [] then p else Put(PutAll(p, user, live[..|live| - 1], now), user, live[|live| - 1], now)
  }

  function KnownKeys(rows: seq<Row>, user: string): set<Key> {
    set i | 0 <= i < |rows| && rows[i].user == user :: rows[i].key
  }

  // ---------------------------------------------------------------- lists of rows

  lemma {:induction false} RowsOfConcat(a: seq<Row>, b: seq<Row>, u: string, k: Key)
    ensures RowsOf(a + b, u, k) == RowsOf(a, u, k) + RowsOf(b, u, k)
    decreases |a|
  {
    if a == [] {
      assert a + b == b;
    } else {
      var first := if a[0].user == u && a[0].key == k then [a[0]] else [];
      assert (a + b)[1..] == a[1..] + b;
      RowsOfConcat(a[1..], b, u, k);
      assert first + (RowsOf(a[1..], u, k) + RowsOf(b, u, k)) == (first + RowsOf(a[1..], u, k)) + RowsOf(b, u, k);
    }
  }

  lemma {:induction false} UserRowsConcat(a: seq<Row>, b: seq<Row>, u: string)
    ensures UserRows(a + b, u) == UserRows(a, u) + UserRows(b, u)
    decreases |a|
  {
    if a == [] {
      assert a + b == b;
    } else {
      var first := if a[0].user == u then [a[0]] else [];
      assert (a + b)[1..] == a[1..] + b;
      UserRowsConcat(a[1..], b, u);
      assert first + (UserRows(a[1..], u) + UserRows(b, u)) == (first + UserRows(a[1..], u)) + UserRows(b, u);
    }
  }

  lemma {:induction false} RowsOfMembers(rows: seq<Row>, u: string, k: Key, r: Row)
    ensures r in RowsOf(rows, u, k) <==> r in rows && r.user == u && r.key == k
    decreases |rows|
  {
    if rows != [] {
      RowsOfMembers(rows[1..], u, k, r);
      assert rows == [rows[0]] + rows[1..];
    }
  }

  lemma {:induction false} UserRowsFacts(rows: seq<Row>, u: string)
    ensures forall i :: 0 <= i < |UserRows(rows, u)| ==> UserRows(rows, u)[i].user == u
    ensures forall r :: r in UserRows(rows, u) <==> r in rows && r.user == u
    ensures forall k :: RowsOf(UserRows(rows, u), u, k) == RowsOf(rows, u, k)
    decreases |rows|
  {
    if rows != [] {
      UserRowsFacts(rows[1..], u);
      assert rows == [rows[0]] + rows[1..];
      var tail := UserRows(rows[1..], u);
      if rows[0].user == u {
        assert ([rows[0]] + tail)[1..] == tail;
      } else {
        assert UserRows(rows, u) == tail;
      }
    }
  }

  lemma UniqueRest(rows: seq<Row>)
    requires UniqueIds(rows) && rows != []
    ensures UniqueIds(rows[1..])
    ensures forall r :: r in rows[1..] ==> r.id != rows[0].id
  {
    forall i, j ensures !SameId(rows[1..], i, j) {
      assert !SameId(rows, i + 1, j + 1);
    }
    forall i | 0 <= i < |rows| - 1 ensures rows[1..][i].id != rows[0].id {
      assert !SameId(rows, 0, i + 1);
    }
  }

  lemma {:induction false} SameIdSameRow(rows: seq<Row>, r: Row, q: Row)
    requires UniqueIds(rows) && r in rows && q in rows && r.id == q.id
    ensures r == q
    decreases |rows|
  {
    UniqueRest(rows);
    assert rows == [rows[0]] + rows[1..];
    if r != rows[0] && q != rows[0] {
      SameIdSameRow(rows[1..], r, q);
    }
  }

  /** The later rows of a key differ from its first one. */
  lemma {:induction false} LaterRowsDiffer(rows: seq<Row>, u: string, k: Key)
    requires UniqueIds(rows)
    ensures forall i :: 0 < i < |RowsOf(rows, u, k)| ==> RowsOf(rows, u, k)[i] != RowsOf(rows, u, k)[0]
    decreases |rows|
  {
    if rows != [] {
      UniqueRest(rows);
      LaterRowsDiffer(rows[1..], u, k);
      var tail := RowsOf(rows[1..], u, k);
      forall i | 0 <= i < |tail| ensures tail[i] != rows[0] {
        RowsOfMembers(rows[1..], u, k, tail[i]);
      }
      if !(rows[0].user == u && rows[0].key == k) {
        assert RowsOf(rows, u, k) == tail;
      }
    }
  }

  // ---------------------------------------------------------------- deleting

  lemma {:induction false} DeleteTwice(rows: seq<Row>, a: set<nat>, b: set<nat>)
    ensures DeleteIds(DeleteIds(rows, a), b) == DeleteIds(rows, a + b)
    decreases |rows|
  {
    if rows != [] {
      DeleteTwice(rows[1..], a, b);
      var tail := DeleteIds(rows[1..], a);
      if rows[0].id in a {
        assert DeleteIds(rows, a) == tail;
      } else {
        assert ([rows[0]] + tail)[1..] == tail;
      }
    }
  }

  lemma {:induction false} DeleteNone(rows: seq<Row>, ids: set<nat>)
    requires forall i :: 0 <= i < |rows| ==> rows[i].id !in ids
    ensures DeleteIds(rows, ids) == rows
    decreases |rows|
  {
    if rows != [] {
      DeleteNone(rows[1..], ids);
    }
  }

  lemma {:induction false} DeleteAll(rows: seq<Row>, ids: set<nat>)
    requires forall i :: 0 <= i < |rows| ==> rows[i].id in ids
    ensures DeleteIds(rows, ids) == []
    decreases |rows|
  {
    if rows != [] {
      DeleteAll(rows[1..], ids);
    }
  }

  lemma DeleteCons(r: Row, tail: seq<Row>, ids: set<nat>)
    ensures DeleteIds([r] + tail, ids) == if r.id in ids then DeleteIds(tail, ids) else [r] + DeleteIds(tail, ids)
  {
    assert ([r] + tail)[1..] == tail;
  }

  lemma RowsOfCons(r: Row, tail: seq<Row>, u: string, k: Key)
    ensures RowsOf([r] + tail, u, k)
         == if r.user == u && r.key == k then [r] + RowsOf(tail, u, k) else RowsOf(tail, u, k)
    ensures UserRows([r] + tail, u) == if r.user == u then [r] + UserRows(tail, u) else UserRows(tail, u)
  {
    assert ([r] + tail)[1..] == tail;
  }

  lemma {:induction false} DeleteCommutes(rows: seq<Row>, ids: set<nat>, u: string, k: Key)
    ensures RowsOf(DeleteIds(rows, ids), u, k) == DeleteIds(RowsOf(rows, u, k), ids)
    ensures UserRows(DeleteIds(rows, ids), u) == DeleteIds(UserRows(rows, u), ids)
    decreases |rows|
  {
    if rows != [] {
      var r, rest := rows[0], rows[1..];
      assert rows == [r] + rest;
      DeleteCommutes(rest, ids, u, k);
      DeleteCons(r, rest, ids);
      RowsOfCons(r, rest, u, k);
      RowsOfCons(r, DeleteIds(rest, ids), u, k);
      DeleteCons(r, RowsOf(rest, u, k), ids);
      DeleteCons(r, UserRows(rest, u), ids);
    }
  }

  lemma {:induction false} DeleteKeepsUnique(rows: seq<Row>, ids: set<nat>)
    requires UniqueIds(rows)
    ensures UniqueIds(DeleteIds(rows, ids))
    ensures forall r :: r in DeleteIds(rows, ids) ==> r in rows
    decreases |rows|
  {
    if rows != [] {
      UniqueRest(rows);
      DeleteKeepsUnique(rows[1..], ids);
      var tail := DeleteIds(rows[1..], ids);
      assert rows == [rows[0]] + rows[1..];
      if rows[0].id in ids {
        assert DeleteIds(rows, ids) == tail;
      } else {
        forall i, j ensures !SameId([rows[0]] + tail, i, j) {
          assert !SameId(tail, i - 1, j - 1);
          assert 0 < j <= |tail| ==> tail[j - 1] in rows[1..];
        }
      }
    }
  }

  /** A deletion by id removes one row when ids are unique, and keeps every other row. */
  lemma {:induction false} DeletionIsExact(rows: seq<Row>, id: nat)
    requires UniqueIds(rows)
    ensures forall r :: r in DeleteIds(rows, {id}) <==> r in rows && r.id != id
    ensures |DeleteIds(rows, {id})| == if exists r :: r in rows && r.id == id then |rows| - 1 else |rows|
    decreases |rows|
  {
    if rows != [] {
      var r, rest := rows[0], rows[1..];
      assert rows == [r] + rest;
      UniqueRest(rows);
      if r.id == id {
        forall i | 0 <= i < |rest| ensures rest[i].id !in {id} {
          assert rest[i] in rest;
        }
        DeleteNone(rest, {id});
        DeleteCons(r, rest, {id});
      } else {
        DeletionIsExact(rest, id);
        DeleteCons(r, rest, {id});
      }
    }
  }

  lemma StaleIdIff(rows: seq<Row>, user: string, keys: set<Key>, r: Row)
    requires UniqueIds(rows) && r in rows
    ensures r.id in Stale(rows, user, keys) <==> IsStale(rows, user, keys, r)
  {
    if r.id in Stale(rows, user, keys) {
      var i :| 0 <= i < |rows| && IsStale(rows, user, keys, rows[i]) && rows[i].id == r.id;
      SameIdSameRow(rows, rows[i], r);
    }
  }

  /** After the cleanup a live key keeps exactly its first row, any other key of the user none. */
  lemma CleanedKey(rows: seq<Row>, user: string, keys: set<Key>, k: Key)
    requires UniqueIds(rows)
    ensures var own := RowsOf(rows, user, k);
            RowsOf(DeleteIds(rows, Stale(rows, user, keys)), user, k) == if k in keys && own != [] then [own[0]] else []
  {
    var own, ids := RowsOf(rows, user, k), Stale(rows, user, keys);
    DeleteCommutes(rows, ids, user, k);
    LaterRowsDiffer(rows, user, k);
    forall i | 0 <= i < |own| ensures own[i].id in ids <==> !(k in keys && i == 0) {
      RowsOfMembers(rows, user, k, own[i]);
      StaleIdIff(rows, user, keys, own[i]);
    }
    if k in keys && own != [] {
      DeleteAll(own[1..], ids);
      assert own == [own[0]] + own[1..];
    } else {
      DeleteAll(own, ids);
    }
  }

  lemma CleanedOthers(rows: seq<Row>, user: string, keys: set<Key>, u: string)
    requires UniqueIds(rows) && u != user
    ensures UserRows(DeleteIds(rows, Stale(rows, user, keys)), u) == UserRows(rows, u)
  {
    var own, ids := UserRows(rows, u), Stale(rows, user, keys);
    DeleteCommutes(rows, ids, u, Key("", ""));
    UserRowsFacts(rows, u);
    forall i | 0 <= i < |own| ensures own[i].id !in ids {
      assert own[i] in own;
      StaleIdIff(rows, user, keys, own[i]);
    }
    DeleteNone(own, ids);
  }

  // ---------------------------------------------------------------- updating

  lemma {:induction false} UpdateRowsOf(rows: seq<Row>, user: string, key: Key, data: Data, u: string, k: Key)
    ensures RowsOf(UpdateRows(rows, user, key, data), u, k) == UpdateRows(RowsOf(rows, u, k), user, key, data)
    ensures UserRows(UpdateRows(rows, user, key, data), u) == UpdateRows(UserRows(rows, u), user, key, data)
    decreases |rows|
  {
    if rows != [] {
      var r := rows[0];
      UpdateRowsOf(rows[1..], user, key, data, u, k);
      if r.user == u {
        assert ([r] + UserRows(rows[1..], u))[1..] == UserRows(rows[1..], u);
        if r.key == k {
          assert ([r] + RowsOf(rows[1..], u, k))[1..] == RowsOf(rows[1..], u, k);
        } else {
          assert RowsOf(rows, u, k) == RowsOf(rows[1..], u, k);
        }
      } else {
        assert UserRows(rows, u) == UserRows(rows[1..], u);
        assert RowsOf(rows, u, k) == RowsOf(rows[1..], u, k);
      }
    }
  }

  lemma {:induction false} UpdateElsewhere(rows: seq<Row>, user: string, key: Key, data: Data)
    requires forall i :: 0 <= i < |rows| ==> rows[i].user != user || rows[i].key != key
    ensures UpdateRows(rows, user, key, data) == rows
    decreases |rows|
  {
    if rows != [] {
      UpdateElsewhere(rows[1..], user, key, data);
    }
  }

  lemma {:induction false} UpdateAt(rows: seq<Row>, user: string, key: Key, data: Data)
    ensures forall i :: 0 <= i < |rows| ==> UpdateRows(rows, user, key, data)[i] == Touch(rows[i], user, key, data)
    decreases |rows|
  {
    if rows != [] {
      UpdateAt(rows[1..], user, key, data);
    }
  }

  lemma UpdateKeepsUnique(rows: seq<Row>, user: string, key: Key, data: Data)
    requires UniqueIds(rows)
    ensures UniqueIds(UpdateRows(rows, user, key, data))
  {
    UpdateAt(rows, user, key, data);
    forall i, j ensures !SameId(UpdateRows(rows, user, key, data), i, j) {
      assert !SameId(rows, i, j);
    }
  }

  lemma InsertKeepsUnique(rows: seq<Row>, r: Row)
    requires UniqueIds(rows) && r.id == NextId(rows)
    ensures UniqueIds(rows + [r])
  {
    forall i, j ensures !SameId(rows + [r], i, j) {
      assert !SameId(rows, i, j);
    }
  }

  // ---------------------------------------------------------------- what a reconciliation leaves

  ghost function Reconciled(rows: seq<Row>, user: string, live: seq<Live>, now: int): seq<Row> {
    var kept := DeleteIds(rows, Stale(rows, user, LiveKeys(live)));
    PutAll(Progress(kept, KnownKeys(rows, user)), user, live, now).rows
  }

  lemma {:induction false} LastOpenIsLive(live: seq<Live>, k: Key)
    ensures LastOpen(live, k).Some? ==> LastOpen(live, k).value in live && k in LiveKeys(live)
    ensures LastOpen(live, k).Some? <==> exists l :: l in live && l.key == k && Size(l) != 0.0
    decreases |live|
  {
    if live != [] {
      var n := |live| - 1;
      LastOpenIsLive(live[..n], k);
      assert live == live[..n] + [live[n]];
    }
  }

  lemma KnownIff(rows: seq<Row>, user: string, k: Key)
    ensures k in KnownKeys(rows, user) <==> RowsOf(rows, user, k) != []
  {
    var own := RowsOf(rows, user, k);
    if own != [] {
      RowsOfMembers(rows, user, k, own[0]);
    }
    if k in KnownKeys(rows, user) {
      var i :| 0 <= i < |rows| && rows[i].user == user && rows[i].key == k;
      RowsOfMembers(rows, user, k, rows[i]);
    }
  }

  /** One row per key, and a key that will be written is known exactly when it has a row. */
  ghost predicate Ready(p: Progress, user: string, k: Key) {
    |RowsOf(p.rows, user, k)| <= 1 && (k in p.known <==> RowsOf(p.rows, user, k) != [])
  }

  /** The rows of a key after one reported position. */
  lemma PutKey(p: Progress, user: string, l: Live, now: int, k: Key)
    requires l.key == k ==> Ready(p, user, k)
    ensures var before, after := RowsOf(p.rows, user, k), RowsOf(Put(p, user, l, now).rows, user, k);
            if l.key == k && Size(l) != 0.0 then
              && Ready(Put(p, user, l, now), user, k)
              && |after| == 1 && after[0].data == DataOf(l, now)
              && (before != [] ==> after[0].id == before[0].id)
            else after == before && (k in Put(p, user, l, now).known <==> k in p.known)
  {
    var own := RowsOf(p.rows, user, k);
    if Size(l) != 0.0 {
      if l.key in p.known {
        var data := DataOf(l, now);
        UpdateRowsOf(p.rows, user, l.key, data, user, k);
        UpdateAt(own, user, l.key, data);
        forall i | 0 <= i < |own| ensures own[i].user == user && own[i].key == k {
          RowsOfMembers(p.rows, user, k, own[i]);
        }
        if l.key != k {
          UpdateElsewhere(own, user, l.key, data);
        }
      } else {
        var r := Row(NextId(p.rows), l.key, user, DataOf(l, now));
        RowsOfConcat(p.rows, [r], user, k);
        assert RowsOf([r], user, k) == if r.key == k then [r] else [];
      }
    }
  }

  /** The rows of a key after all reported positions. */
  lemma {:induction false} PutAllKey(p: Progress, user: string, live: seq<Live>, now: int, k: Key)
    requires LastOpen(live, k).Some? ==> Ready(p, user, k)
    ensures var before, after := RowsOf(p.rows, user, k), RowsOf(PutAll(p, user, live, now).rows, user, k);
            match LastOpen(live, k)
            case None => after == before && (k in PutAll(p, user, live, now).known <==> k in p.known)
            case Some(l) =>
              && Ready(PutAll(p, user, live, now), user, k)
              && |after| == 1 && after[0].data == DataOf(l, now)
              && (before != [] ==> after[0].id == before[0].id)
    decreases |live|
  {
    if live != [] {
      var n := |live| - 1;
      PutAllKey(p, user, live[..n], now, k);
      var q := PutAll(p, user, live[..n], now);
      if live[n].key == k && Size(live[n]) == 0.0 {
        assert Put(q, user, live[n], now) == q;
      } else {
        PutKey(q, user, live[n], now, k);
      }
    }
  }

  lemma {:induction false} PutAllKeeps(p: Progress, user: string, live: seq<Live>, now: int)
    requires UniqueIds(p.rows)
    ensures UniqueIds(PutAll(p, user, live, now).rows)
    ensures forall u :: u != user ==> UserRows(PutAll(p, user, live, now).rows, u) == UserRows(p.rows, u)
    decreases |live|
  {
    if live != [] {
      var n := |live| - 1;
      PutAllKeeps(p, user, live[..n], now);
      var q, l := PutAll(p, user, live[..n], now), live[n];
      if Size(l) != 0.0 {
        var r := Row(NextId(q.rows), l.key, user, DataOf(l, now));
        if l.key in q.known {
          UpdateKeepsUnique(q.rows, user, l.key, r.data);
        } else {
          InsertKeepsUnique(q.rows, r);
        }
        forall u | u != user ensures UserRows(Put(q, user, l, now).rows, u) == UserRows(q.rows, u) {
          if l.key in q.known {
            UpdateRowsOf(q.rows, user, l.key, r.data, u, l.key);
            UserRowsFacts(q.rows, u);
            UpdateElsewhere(UserRows(q.rows, u), user, l.key, r.data);
          } else {
            UserRowsConcat(q.rows, [r], u);
            assert UserRows([r], u) == [];
          }
        }
      }
    }
  }

  /** A reconciliation leaves, for each key of the user, exactly one row with the last reported open
      position when there is one (keeping the id of the first row the key had), the first old row when
      contracts are reported but no size, and nothing otherwise. Nobody else's rows change. */
  lemma ReconciledIsExact(rows: seq<Row>, user: string, live: seq<Live>, now: int)
    requires UniqueIds(rows)
    ensures UniqueIds(Reconciled(rows, user, live, now))
    ensures forall u :: u != user ==> UserRows(Reconciled(rows, user, live, now), u) == UserRows(rows, u)
    ensures forall k :: KeyReconciled(rows, Reconciled(rows, user, live, now), user, live, now, k)
  {
    var keys := LiveKeys(live);
    var start := Progress(DeleteIds(rows, Stale(rows, user, keys)), KnownKeys(rows, user));
    DeleteKeepsUnique(rows, Stale(rows, user, keys));
    PutAllKeeps(start, user, live, now);
    forall u | u != user ensures UserRows(Reconciled(rows, user, live, now), u) == UserRows(rows, u) {
      CleanedOthers(rows, user, keys, u);
    }
    forall k ensures KeyReconciled(rows, Reconciled(rows, user, live, now), user, live, now, k) {
      CleanedKey(rows, user, keys, k);
      KnownIff(rows, user, k);
      LastOpenIsLive(live, k);
      PutAllKey(start, user, live, now, k);
    }
  }

  ghost predicate KeyReconciled(rows: seq<Row>, result: seq<Row>, user: string, live: seq<Live>, now: int, k: Key) {
    var before, after := RowsOf(rows, user, k), RowsOf(result, user, k);
    match LastOpen(live, k)
    case Some(l) => |after| == 1 && after[0].data == DataOf(l, now) && (before != [] ==> after[0].id == before[0].id)
    case None => after == if k in LiveKeys(live) && before != [] then [before[0]] else []
  }

  ghost predicate IsOpen(live: seq<Live>, i: int, k: Key) {
    0 <= i < |live| && live[i].key == k && live[i].contracts * live[i].contractSize != 0.0
  }

  ghost predicate IsLastOpen(live: seq<Live>, i: int, k: Key) {
    IsOpen(live, i, k) && forall j :: IsOpen(live, j, k) ==> j <= i
  }

  lemma {:induction false} LastOpenAt(live: seq<Live>, i: int, k: Key)
    requires IsLastOpen(live, i, k)
    ensures LastOpen(live, k) == Some(live[i])
    decreases |live|
  {
    var n := |live| - 1;
    if i < n {
      assert !IsOpen(live, n, k);
      forall j | IsOpen(live[..n], j, k) ensures j <= i {
        assert IsOpen(live, j, k);
      }
      assert IsOpen(live[..n], i, k);
      LastOpenAt(live[..n], i, k);
    }
  }

  /** In the terms of the report: the last open position of a key becomes its only row, field by field. */
  lemma LastPositionIsStored(rows: seq<Row>, user: string, live: seq<Live>, now: int, k: Key, i: int)
    requires UniqueIds(rows) && IsLastOpen(live, i, k)
    ensures var after := RowsOf(Reconciled(rows, user, live, now), user, k);
            && |after| == 1 && after[0].user == user && after[0].key == k
            && after[0].data.psize == live[i].contracts * live[i].contractSize
            && after[0].data.entry == live[i].entry
            && (live[i].upnl == Some(after[0].data.upnl) || (live[i].upnl.None? && after[0].data.upnl == 0.0))
            && after[0].data.timestamp == (if live[i].timestamp == 0 then now else live[i].timestamp)
  {
    var result := Reconciled(rows, user, live, now);
    ReconciledIsExact(rows, user, live, now);
    LastOpenAt(live, i, k);
    assert KeyReconciled(rows, result, user, live, now, k);
    RowsOfMembers(result, user, k, RowsOf(result, user, k)[0]);
  }

  /** A key without any reported contracts loses all its rows. */
  lemma ClosedPositionIsRemoved(rows: seq<Row>, user: string, live: seq<Live>, now: int, k: Key)
    requires UniqueIds(rows) && forall i :: 0 <= i < |live| && live[i].key == k ==> live[i].contracts == 0.0
    ensures RowsOf(Reconciled(rows, user, live, now), user, k) == []
  {
    ReconciledIsExact(rows, user, live, now);
    LastOpenIsLive(live, k);
    assert KeyReconciled(rows, Reconciled(rows, user, live, now), user, live, now, k);
  }

  lemma {:induction false} NoneOpen(live: seq<Live>, k: Key)
    requires forall i :: !IsOpen(live, i, k)
    ensures LastOpen(live, k).None?
    decreases |live|
  {
    if live != [] {
      var n := |live| - 1;
      assert !IsOpen(live, n, k);
      forall i ensures !IsOpen(live[..n], i, k) {
        assert !IsOpen(live, i, k);
      }
      NoneOpen(live[..n], k);
    }
  }

  /** A key reported with contracts, but without a size, keeps its first row as it was, if it had one. */
  lemma SizelessPositionKeepsRow(rows: seq<Row>, user: string, live: seq<Live>, now: int, k: Key, i: int)
    requires UniqueIds(rows) && (forall j :: !IsOpen(live, j, k))
    requires 0 <= i < |live| && live[i].key == k && live[i].contracts != 0.0
    ensures var before, after := RowsOf(rows, user, k), RowsOf(Reconciled(rows, user, live, now), user, k);
            after == if before == [] then [] else [before[0]]
  {
    ReconciledIsExact(rows, user, live, now);
    NoneOpen(live, k);
    assert KeyReconciled(rows, Reconciled(rows, user, live, now), user, live, now, k);
  }

  // ---------------------------------------------------------------- repeating a reconciliation

  /** A row with the data of its key's last open position, if there is one. */
  function Refreshed(r: Row, user: string, live: seq<Live>, now: int): Row {
    if r.user == user && LastOpen(live, r.key).Some? then r.(data := DataOf(LastOpen(live, r.key).value, now)) else r
  }

  /** When every key to write is known, only data changes, and each row gets its key's last position. */
  lemma {:induction false} PutAllKnown(p: Progress, user: string, live: seq<Live>, now: int)
    requires forall l :: l in live && Size(l) != 0.0 ==> l.key in p.known
    ensures var q := PutAll(p, user, live, now);
            && q.known == p.known && |q.rows| == |p.rows|
            && forall i :: 0 <= i < |p.rows| ==>
                 q.rows[i] == Refreshed(p.rows[i], user, live, now)
    decreases |live|
  {
    if live != [] {
      var n := |live| - 1;
      assert live == live[..n] + [live[n]];
      PutAllKnown(p, user, live[..n], now);
      var q := PutAll(p, user, live[..n], now);
      UpdateAt(q.rows, user, live[n].key, DataOf(live[n], now));
    }
  }

  /** The table already is what the exchange reports. */
  ghost predicate Settled(rows: seq<Row>, user: string, live: seq<Live>, now: int) {
    forall k :: KeySettled(rows, user, live, now, k)
  }

  ghost predicate KeySettled(rows: seq<Row>, user: string, live: seq<Live>, now: int, k: Key) {
    var own := RowsOf(rows, user, k);
    match LastOpen(live, k)
    case Some(l) => |own| == 1 && own[0].data == DataOf(l, now)
    case None => own == [] || (k in LiveKeys(live) && |own| == 1)
  }

  lemma SettledHasNoStale(rows: seq<Row>, user: string, live: seq<Live>, now: int)
    requires UniqueIds(rows) && Settled(rows, user, live, now)
    ensures DeleteIds(rows, Stale(rows, user, LiveKeys(live))) == rows
  {
    var keys := LiveKeys(live);
    forall i | 0 <= i < |rows| ensures rows[i].id !in Stale(rows, user, keys) {
      var r := rows[i];
      StaleIdIff(rows, user, keys, r);
      RowsOfMembers(rows, r.user, r.key, r);
      LastOpenIsLive(live, r.key);
      assert KeySettled(rows, user, live, now, r.key);
    }
    DeleteNone(rows, Stale(rows, user, keys));
  }

  lemma SettledIsFixed(rows: seq<Row>, user: string, live: seq<Live>, now: int)
    requires UniqueIds(rows) && Settled(rows, user, live, now)
    ensures Reconciled(rows, user, live, now) == rows
  {
    SettledHasNoStale(rows, user, live, now);
    var p := Progress(rows, KnownKeys(rows, user));
    forall l | l in live && Size(l) != 0.0 ensures l.key in p.known {
      LastOpenIsLive(live, l.key);
      KnownIff(rows, user, l.key);
      assert KeySettled(rows, user, live, now, l.key);
    }
    PutAllKnown(p, user, live, now);
    forall i | 0 <= i < |rows| ensures Refreshed(rows[i], user, live, now) == rows[i] {
      SettledRowStays(rows, user, live, now, rows[i]);
    }
  }

  lemma SettledRowStays(rows: seq<Row>, user: string, live: seq<Live>, now: int, r: Row)
    requires Settled(rows, user, live, now) && r in rows
    ensures Refreshed(r, user, live, now) == r
  {
    RowsOfMembers(rows, r.user, r.key, r);
    assert KeySettled(rows, user, live, now, r.key);
  }

  lemma StampsAgree(live: seq<Live>, now: int, later: int, k: Key)
    requires now == later || forall l :: l in live ==> l.timestamp != 0
    ensures LastOpen(live, k).Some? ==> DataOf(LastOpen(live, k).value, now) == DataOf(LastOpen(live, k).value, later)
  {
    LastOpenIsLive(live, k);
  }

  /** Reconciling again with the same positions changes nothing, at any later time when every
      position carries a timestamp. */
  lemma RepeatingChangesNothing(rows: seq<Row>, user: string, live: seq<Live>, now: int, later: int)
    requires UniqueIds(rows)
    requires now == later || forall l :: l in live ==> l.timestamp != 0
    ensures var once := Reconciled(rows, user, live, now); Reconciled(once, user, live, later) == once
  {
    ReconciledIsExact(rows, user, live, now);
    var once := Reconciled(rows, user, live, now);
    forall k ensures KeySettled(once, user, live, later, k) {
      assert KeyReconciled(rows, once, user, live, now, k);
      StampsAgree(live, now, later, k);
    }
    SettledIsFixed(once, user, live, later);
  }

  // ---------------------------------------------------------------- the updating code

  lemma {:induction false} UserRowsUnique(rows: seq<Row>, u: string)
    requires UniqueIds(rows)
    ensures UniqueIds(UserRows(rows, u))
    decreases |rows|
  {
    if rows != [] {
      UniqueRest(rows);
      UserRowsUnique(rows[1..], u);
      UserRowsFacts(rows[1..], u);
      var tail := UserRows(rows[1..], u);
      if rows[0].user == u {
        forall i, j ensures !SameId([rows[0]] + tail, i, j) {
          assert !SameId(tail, i - 1, j - 1);
          assert 0 < j <= |tail| ==> tail[j - 1] in rows[1..];
        }
      } else {
        assert UserRows(rows, u) == tail;
      }
    }
  }

  ghost predicate FirstAt(own: seq<Row>, j: nat) {
    j < |own| && forall k :: 0 <= k < j ==> own[k].key != own[j].key
  }

  lemma {:induction false} FirstAtIff(own: seq<Row>, user: string, j: nat)
    requires UniqueIds(own) && j < |own| && forall r :: r in own ==> r.user == user
    ensures FirstAt(own, j) <==> IsFirst(own, own[j])
    decreases |own|
  {
    if j > 0 {
      UniqueRest(own);
      FirstAtIff(own[1..], user, j - 1);
      assert own[1..][j - 1] == own[j];
      if own[0].key == own[j].key {
        assert !SameId(own, 0, j);
      } else {
        assert RowsOf(own, user, own[j].key) == RowsOf(own[1..], user, own[j].key);
        assert forall k :: 0 < k < j ==> own[k] == own[1..][k - 1];
        assert forall k :: 0 <= k < j - 1 ==> own[k + 1] == own[1..][k];
      }
    }
  }

  ghost function FirstRows(own: seq<Row>, n: nat): set<Row>
    requires n <= |own|
  {
    set j | 0 <= j < n && FirstAt(own, j) :: own[j]
  }

  ghost function LaterIds(own: seq<Row>, n: nat): set<nat>
    requires n <= |own|
  {
    set j | 0 <= j < n && !FirstAt(own, j) :: own[j].id
  }

  function KeySet(own: seq<Row>): set<Key> {
    set j | 0 <= j < |own| :: own[j].key
  }

  lemma ScanStep(own: seq<Row>, n: nat)
    requires n < |own|
    ensures FirstAt(own, n) <==> own[n].key !in KeySet(own[..n])
    ensures KeySet(own[..n + 1]) == KeySet(own[..n]) + {own[n].key}
  {
    assert own[..n + 1] == own[..n] + [own[n]];
    assert forall k :: 0 <= k < n ==> own[..n][k] == own[k];
  }

  method FindDuplicates(own: seq<Row>) returns (first: seq<Row>, later: seq<nat>, known: set<Key>)
    ensures known == KeySet(own)
    ensures ToSet(first) == FirstRows(own, |own|)
    ensures ToSet(later) == LaterIds(own, |own|)
  {
    first, later, known := [], [], {};
    for i := 0 to |own|
      invariant known == KeySet(own[..i])
      invariant ToSet(first) == FirstRows(own, i)
      invariant ToSet(later) == LaterIds(own, i)
    {
      ScanStep(own, i);
      if own[i].key in known {
        assert ToSet(later + [own[i].id]) == ToSet(later) + {own[i].id};
        later := later + [own[i].id];
      } else {
        assert ToSet(first + [own[i]]) == ToSet(first) + {own[i]};
        first := first + [own[i]];
        known := known + {own[i].key};
      }
    }
    assert own[..|own|] == own;
  }

  method LiveKeysOf(live: seq<Live>) returns (keys: set<Key>)
    ensures keys == LiveKeys(live)
  {
    keys := {};
    for i := 0 to |live|
      invariant keys == LiveKeys(live[..i])
    {
      assert live[..i + 1] == live[..i] + [live[i]];
      if live[i].contracts != 0.0 {
        keys := keys + {live[i].key};
      }
    }
    assert live[..|live|] == live;
  }

  class PositionTable {
    var rows: seq<Row>

    method RemovePosition(id: nat)
      modifies this
      ensures rows == DeleteIds(old(rows), {id})
    {
      rows := DeleteIds(rows, {id});
    }

    method RemoveAll(ids: seq<nat>)
      modifies this
      ensures rows == DeleteIds(old(rows), ToSet(ids))
    {
      DeleteNone(rows, {});
      assert ToSet(ids[..0]) == {};
      for i := 0 to |ids|
        invariant rows == DeleteIds(old(rows), ToSet(ids[..i]))
      {
        DeleteTwice(old(rows), ToSet(ids[..i]), {ids[i]});
        RemovePosition(ids[i]);
        assert ToSet(ids[..i + 1]) == ToSet(ids[..i]) + {ids[i]};
      }
      assert ids[..|ids|] == ids;
    }

    /** Deletes the first row of every key that is not live. */
    method RemoveClosed(first: seq<Row>, keys: set<Key>)
      modifies this
      ensures rows == DeleteIds(old(rows), ClosedIds(ToSet(first), keys))
    {
      DeleteNone(rows, {});
      assert ClosedIds(ToSet(first[..0]), keys) == {};
      for i := 0 to |first|
        invariant rows == DeleteIds(old(rows), ClosedIds(ToSet(first[..i]), keys))
      {
        var closed := first[i].key !in keys;
        ghost var gone := ClosedIds(ToSet(first[..i]), keys);
        assert ToSet(first[..i + 1]) == ToSet(first[..i]) + {first[i]};
        assert ClosedIds(ToSet(first[..i + 1]), keys) == if closed then gone + {first[i].id} else gone;
        if closed {
          DeleteTwice(old(rows), gone, {first[i].id});
          RemovePosition(first[i].id);
        }
      }
      assert first[..|first|] == first;
    }

    method UpdatePositions(user: string, live: seq<Live>, now: int)
      requires UniqueIds(rows)
      modifies this
      ensures rows == Reconciled(old(rows), user, live, now)
    {
      var keys := LiveKeysOf(live);
      var own := UserRows(rows, user);
      var first, later, known := FindDuplicates(own);
      RemoveAll(later);
      RemoveClosed(first, keys);
      DeleteTwice(old(rows), ToSet(later), ClosedIds(ToSet(first), keys));
      DeletedAreStale(old(rows), user, keys);
      var start := Progress(rows, known);
      for i := 0 to |live|
        invariant Progress(rows, known) == PutAll(start, user, live[..i], now)
      {
        var l := live[i];
        assert live[..i + 1][..i] == live[..i];
        if Size(l) != 0.0 {
          var data := DataOf(l, now);
          if l.key in known {
            rows := UpdateRows(rows, user, l.key, data);
          } else {
            rows := rows + [Row(NextId(rows), l.key, user, data)];
            known := known + {l.key};
          }
        }
      }
      assert live[..|live|] == live;
    }
  }

  ghost function ClosedIds(first: set<Row>, keys: set<Key>): set<nat> {
    set r | r in first && r.key !in keys :: r.id
  }

  /** The two deleting loops together delete the stale rows. */
  lemma DeletedAreStale(rows: seq<Row>, user: string, keys: set<Key>)
    requires UniqueIds(rows)
    ensures var own := UserRows(rows, user);
            && KeySet(own) == KnownKeys(rows, user)
            && LaterIds(own, |own|) + ClosedIds(FirstRows(own, |own|), keys) == Stale(rows, user, keys)
  {
    var own := UserRows(rows, user);
    UserRowsFacts(rows, user);
    UserRowsUnique(rows, user);
    forall j | 0 <= j < |own| ensures own[j] in rows && (FirstAt(own, j) <==> IsFirst(rows, own[j])) {
      assert own[j] in own;
      FirstAtIff(own, user, j);
    }
    forall k ensures k in KeySet(own) <==> k in KnownKeys(rows, user) {
      KnownIff(rows, user, k);
      KnownIff(own, user, k);
    }
    StaleOfOwn(rows, own, user, keys);
  }

  lemma StaleOfOwn(rows: seq<Row>, own: seq<Row>, user: string, keys: set<Key>)
    requires forall r :: r in own <==> r in rows && r.user == user
    requires forall j :: 0 <= j < |own| ==> (FirstAt(own, j) <==> IsFirst(rows, own[j]))
    ensures LaterIds(own, |own|) + ClosedIds(FirstRows(own, |own|), keys) == Stale(rows, user, keys)
  {
    var gone := LaterIds(own, |own|) + ClosedIds(FirstRows(own, |own|), keys);
    forall id | id in Stale(rows, user, keys) ensures id in gone {
      var i :| 0 <= i < |rows| && IsStale(rows, user, keys, rows[i]) && rows[i].id == id;
      assert rows[i] in own;
    }
    forall id | id in gone ensures id in Stale(rows, user, keys) {
      if id in LaterIds(own, |own|) {
        var j :| 0 <= j < |own| && !FirstAt(own, j) && own[j].id == id;
        assert own[j] in own;
      } else {
        var r :| r in FirstRows(own, |own|) && r.key !in keys && r.id == id;
        assert r in own;
      }
    }
  }
}
