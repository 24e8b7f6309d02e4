/** The incremental history import: a table with a unique id column, written together with the
    checkpoint of the scan, and the six-hour overlap of consecutive scans. */
module HistoryStore {
  import opened Common
  import opened Feed
  import IncomeRescan

  const LOOKBACK := 6 * 60 * 60 * 1000

  /** A stored row: an event and the user it was imported for. */
  datatype Row = Row(event: Fill, user: string)

  /** A user on an exchange, the key of the checkpoint table. */
  datatype Account = Account(user: string, exchange: string)

  function RowIds(rows: seq<Row>): set<string> {
    set i | 0 <= i < |rows| :: rows[i].event.id
  }

  /** INSERT ... ON CONFLICT(uniqueid) DO NOTHING for a batch. */
  function InsertIgnore(rows: seq<Row>, batch: seq<Row>): (r: seq<Row>)
    ensures rows <= r
    decreases |batch|
  {
    if batch == [] then rows
    else InsertIgnore(if batch[0].event.id in RowIds(rows) then rows else rows + [batch[0]], batch[1..])
  }

  function Tag(events: seq<Fill>, user: string): (rows: seq<Row>)
    ensures |rows| == |events| && forall i :: 0 <= i < |rows| ==> rows[i] == Row(events[i], user)
  {
    seq(|events|, i requires 0 <= i < |events| => Row(events[i], user))
  }

  /** MAX(timestamp) over the user's rows, 0 without any. */
  function LastTimestamp(rows: seq<Row>, user: string): int {
    if rows == [] then 0
    else
      var last := rows[|rows| - 1];
      var before := LastTimestamp(rows[..|rows| - 1], user);
      if last.user == user && (last.event.ts > before || NoRows(rows[..|rows| - 1], user))
      then last.event.ts else before
  }

  predicate NoRows(rows: seq<Row>, user: string) {
    forall i :: 0 <= i < |rows| ==> rows[i].user != user
  }

  /** It is the newest of the user's own timestamps. */
  lemma {:induction false} LastTimestampIsNewest(rows: seq<Row>, user: string)
    ensures NoRows(rows, user) ==> LastTimestamp(rows, user) == 0
    ensures !NoRows(rows, user) ==> exists r :: r in rows && r.user == user && r.event.ts == LastTimestamp(rows, user)
    ensures forall r :: r in rows && r.user == user ==> r.event.ts <= LastTimestamp(rows, user)
    decreases |rows|
  {
    if rows != [] {
      var n := |rows| - 1;
      LastTimestampIsNewest(rows[..n], user);
      assert rows == rows[..n] + [rows[n]];
      if !NoRows(rows[..n], user) {
        var r :| r in rows[..n] && r.user == user && r.event.ts == LastTimestamp(rows[..n], user);
        assert r in rows;
      }
    }
  }

  /** Where the next scan of an account starts; a checkpoint that cannot be read counts as none. */
  function ScanStart(rows: seq<Row>, checkpoints: map<Account, int>, account: Account, readable: bool): int {
    if readable && account in checkpoints then Max(0, checkpoints[account] - LOOKBACK)
    else LastTimestamp(rows, account.user)
  }

  /** What the exchange and the disk do to one update. */
  datatype Weather = Fetched(history: seq<Fill>) | FetchFails | WriteFails(attempted: seq<Fill>)

  datatype Db = Db(rows: seq<Row>, checkpoints: map<Account, int>)

  /** One update: rows and checkpoint change together, or not at all. */
  function Updated(db: Db, account: Account, startedAt: int, weather: Weather): Db {
    match weather
    case FetchFails => db
    case WriteFails(_) => db
    case Fetched(history) =>
      Db(InsertIgnore(db.rows, Tag(history, account.user)), db.checkpoints[account := startedAt])
  }

  class HistoryTable {
    var rows: seq<Row>
    var checkpoints: map<Account, int>

    constructor ()
      ensures rows == [] && checkpoints == map[]
    {
      rows, checkpoints := [], map[];
    }

    ghost function View(): Db
      reads this
    {
      Db(rows, checkpoints)
    }

    /** The rows one after the other; a duplicate id is skipped. */
    method InsertRows(batch: seq<Row>)
      modifies this`rows
      ensures rows == InsertIgnore(old(rows), batch)
    {
      assert batch[0..] == batch;
      for i := 0 to |batch|
        invariant InsertIgnore(rows, batch[i..]) == InsertIgnore(old(rows), batch)
      {
        if batch[i].event.id !in RowIds(rows) {
          rows := rows + [batch[i]];
        }
      }
    }

    /** The update inside one transaction: after a fetch the rows are those of StoredIffFirst and the
        checkpoint is the start of the scan; a failed fetch or write leaves everything as it was. */
    method UpdateHistory(account: Account, startedAt: int, weather: Weather)
      modifies this
      ensures View() == Updated(old(View()), account, startedAt, weather)
      ensures weather.Fetched? ==> checkpoints == old(checkpoints)[account := startedAt]
      ensures old(rows) <= rows
      ensures weather.Fetched? ==>
                forall r :: r in rows <==> IsStored(old(rows), Tag(weather.history, account.user), r)
      ensures !weather.Fetched? ==> rows == old(rows) && checkpoints == old(checkpoints)
    {
      if weather.FetchFails? {
        return;
      }
      var saved := rows;
      if weather.Fetched? {
        forall r ensures r in InsertIgnore(rows, Tag(weather.history, account.user))
                    <==> IsStored(rows, Tag(weather.history, account.user), r)
        {
          StoredIffFirst(rows, Tag(weather.history, account.user), r);
        }
      }
      InsertRows(Tag(if weather.Fetched? then weather.history else weather.attempted, account.user));
      if weather.WriteFails? {
        rows := saved;
      } else {
        checkpoints := checkpoints[account := startedAt];
      }
    }
  }

  // ---------------------------------------------------------------- what an insert keeps

  ghost predicate SameId(rows: seq<Row>, i: int, j: int) {
    0 <= i < j < |rows| && rows[i].event.id == rows[j].event.id
  }

  /** One row per uniqueid, as the table constraint demands. */
  ghost predicate UniqueRows(rows: seq<Row>) {
    forall i, j :: !SameId(rows, i, j)
  }

  lemma {:induction false} InsertKeepsUnique(rows: seq<Row>, batch: seq<Row>)
    requires UniqueRows(rows)
    ensures UniqueRows(InsertIgnore(rows, batch))
    decreases |batch|
  {
    if batch != [] {
      var next := if batch[0].event.id in RowIds(rows) then rows else rows + [batch[0]];
      forall i, j ensures !SameId(next, i, j) {
        assert !SameId(rows, i, j);
        if 0 <= i < |rows| {
          assert rows[i].event.id in RowIds(rows);
        }
      }
      InsertKeepsUnique(next, batch[1..]);
    }
  }

  lemma {:induction false} InsertMembers(rows: seq<Row>, batch: seq<Row>, r: Row)
    requires r in InsertIgnore(rows, batch)
    ensures r in rows || r in batch
    decreases |batch|
  {
    if batch != [] {
      InsertMembers(if batch[0].event.id in RowIds(rows) then rows else rows + [batch[0]], batch[1..], r);
    }
  }

  /** The ids of a table after an import are the old ones and those of the batch. */
  lemma {:induction false} InsertIds(rows: seq<Row>, batch: seq<Row>)
    ensures RowIds(InsertIgnore(rows, batch)) == RowIds(rows) + RowIds(batch)
    decreases |batch|
  {
    if batch != [] {
      var b := batch[0];
      var next := if b.event.id in RowIds(rows) then rows else rows + [b];
      InsertIds(next, batch[1..]);
      RowIdsConcat(rows, [b]);
      RowIdsConcat([b], batch[1..]);
      assert batch == [b] + batch[1..];
    }
  }

  lemma RowWithId(rows: seq<Row>, batch: seq<Row>, i: nat) returns (q: Row)
    requires i < |batch|
    ensures q in InsertIgnore(rows, batch) && q.event.id == batch[i].event.id
  {
    var after := InsertIgnore(rows, batch);
    InsertIds(rows, batch);
    assert batch[i].event.id in RowIds(batch);
    var k :| 0 <= k < |after| && after[k].event.id == batch[i].event.id;
    q := after[k];
  }

  lemma RowIdsConcat(a: seq<Row>, b: seq<Row>)
    ensures RowIds(a + b) == RowIds(a) + RowIds(b)
  {
    forall id | id in RowIds(a) ensures id in RowIds(a + b) {
      var i :| 0 <= i < |a| && a[i].event.id == id;
      assert (a + b)[i] == a[i];
    }
    forall id | id in RowIds(b) ensures id in RowIds(a + b) {
      var i :| 0 <= i < |b| && b[i].event.id == id;
      assert (a + b)[|a| + i] == b[i];
    }
  }

  /** Row `i` of a batch is the first one there with its id. */
  ghost predicate FirstOfId(batch: seq<Row>, i: int) {
    0 <= i < |batch| && forall j :: 0 <= j < i ==> batch[j].event.id != batch[i].event.id
  }

  /** The row was there, or its id was not and it is the first row of the batch with that id. */
  ghost predicate IsStored(rows: seq<Row>, batch: seq<Row>, r: Row) {
    r in rows || (r.event.id !in RowIds(rows) && exists i :: FirstOfId(batch, i) && batch[i] == r)
  }

  /** Whether a row is stored after an import, told from the inputs. */
  lemma {:induction false} StoredIffFirst(rows: seq<Row>, batch: seq<Row>, r: Row)
    ensures r in InsertIgnore(rows, batch) <==> IsStored(rows, batch, r)
    decreases |batch|
  {
    if batch != [] {
      var b, rest := batch[0], batch[1..];
      var next := if b.event.id in RowIds(rows) then rows else rows + [b];
      StoredIffFirst(next, rest, r);
      RowIdsConcat(rows, [b]);
      assert [b][0] == b && b.event.id in RowIds([b]);
      if b.event.id == r.event.id {
        FirstIsHead(batch, r);
      } else {
        FirstIsBehind(batch, r);
      }
    }
  }

  lemma FirstIsHead(batch: seq<Row>, r: Row)
    requires batch != [] && batch[0].event.id == r.event.id
    ensures (exists i :: FirstOfId(batch, i) && batch[i] == r) <==> r == batch[0]
  {
    assert FirstOfId(batch, 0);
  }

  lemma FirstIsBehind(batch: seq<Row>, r: Row)
    requires batch != [] && batch[0].event.id != r.event.id
    ensures (exists i :: FirstOfId(batch, i) && batch[i] == r)
       <==> (exists i :: FirstOfId(batch[1..], i) && batch[1..][i] == r)
  {
    var rest := batch[1..];
    if i :| FirstOfId(batch, i) && batch[i] == r {
      assert forall j :: 0 <= j < i - 1 ==> rest[j] == batch[j + 1];
      assert FirstOfId(rest, i - 1) && rest[i - 1] == r;
    }
    if i :| FirstOfId(rest, i) && rest[i] == r {
      forall j | 0 <= j < i + 1 ensures batch[j].event.id != batch[i + 1].event.id {
        assert j > 0 ==> batch[j] == rest[j - 1];
      }
      assert FirstOfId(batch, i + 1) && batch[i + 1] == r;
    }
  }

  // ---------------------------------------------------------------- the no-gap checkpoint

  /** An event of a user, and when the exchange started to report it. */
  datatype Listing = Listing(user: string, event: Fill, visibleAt: int)

  /** Events have non-negative timestamps, become visible within six hours, and share no id. */
  ghost predicate Orderly(world: set<Listing>) {
    && (forall l :: l in world ==> 0 <= l.event.ts <= l.visibleAt <= l.event.ts + LOOKBACK)
    && (forall l, m :: l in world && m in world && l.event.id == m.event.id ==> l == m)
  }

  /** A full fetch from `since`: every event visible when it started, and only real ones. */
  ghost predicate FullFetch(world: set<Listing>, user: string, since: int, startedAt: int, history: seq<Fill>) {
    && (forall l :: l in world && l.user == user && since <= l.event.ts && l.visibleAt <= startedAt
         ==> l.event in history)
    && (forall e :: e in history ==> exists v :: Listing(user, e, v) in world)
  }

  /** Every event of the user that was visible at `at` is stored. */
  ghost predicate NoGap(world: set<Listing>, rows: seq<Row>, user: string, at: int) {
    forall l :: l in world && l.user == user && l.visibleAt <= at ==> Row(l.event, user) in rows
  }

  ghost predicate RowsAreReal(world: set<Listing>, rows: seq<Row>) {
    forall r :: r in rows ==> exists v :: Listing(r.user, r.event, v) in world
  }

  ghost predicate Inv(world: set<Listing>, db: Db) {
    && UniqueRows(db.rows) && RowsAreReal(world, db.rows)
    && (forall a :: a in db.checkpoints ==> NoGap(world, db.rows, a.user, db.checkpoints[a]))
  }

  lemma InsertKeepsReal(world: set<Listing>, rows: seq<Row>, user: string, history: seq<Fill>)
    requires RowsAreReal(world, rows) && (forall e :: e in history ==> exists v :: Listing(user, e, v) in world)
    ensures RowsAreReal(world, InsertIgnore(rows, Tag(history, user)))
  {
    var batch := Tag(history, user);
    forall r | r in InsertIgnore(rows, batch) ensures exists v :: Listing(r.user, r.event, v) in world {
      InsertMembers(rows, batch, r);
      if r in batch {
        assert r.event in history;
      }
    }
  }

  /** With globally unique ids every fetched event ends up in its own row. */
  lemma FetchedIsStored(world: set<Listing>, rows: seq<Row>, user: string, history: seq<Fill>, e: Fill)
    requires Orderly(world) && RowsAreReal(world, rows) && UniqueRows(rows) && e in history
    requires forall f :: f in history ==> exists v :: Listing(user, f, v) in world
    ensures Row(e, user) in InsertIgnore(rows, Tag(history, user))
  {
    var batch := Tag(history, user);
    var after := InsertIgnore(rows, batch);
    InsertKeepsReal(world, rows, user, history);
    var i :| 0 <= i < |history| && history[i] == e;
    var q := RowWithId(rows, batch, i);
    var v :| Listing(q.user, q.event, v) in world;
    var w :| Listing(user, e, w) in world;
  }

  /** The first scan starts at the newest stored row: it is complete exactly when everything
      visible before that row is stored already. */
  ghost predicate NothingMissedBefore(world: set<Listing>, rows: seq<Row>, user: string, since: int, at: int) {
    forall l :: l in world && l.user == user && l.visibleAt <= at && l.event.ts < since ==> Row(l.event, user) in rows
  }

  /** After a full fetch, wherever it started and whether or not the checkpoint could be read, the table has
      no gap if and only if nothing older than its start was missing. */
  lemma UpdateHasNoGapIff(world: set<Listing>, db: Db, account: Account, readable: bool, startedAt: int,
                          history: seq<Fill>)
    requires Orderly(world) && UniqueRows(db.rows) && RowsAreReal(world, db.rows)
    requires FullFetch(world, account.user, ScanStart(db.rows, db.checkpoints, account, readable), startedAt, history)
    requires forall e :: e in history ==> ScanStart(db.rows, db.checkpoints, account, readable) <= e.ts
    ensures NoGap(world, Updated(db, account, startedAt, Fetched(history)).rows, account.user, startedAt)
       <==> NothingMissedBefore(world, db.rows, account.user,
                                ScanStart(db.rows, db.checkpoints, account, readable), startedAt)
  {
    var user, since := account.user, ScanStart(db.rows, db.checkpoints, account, readable);
    var after := InsertIgnore(db.rows, Tag(history, user));
    if NothingMissedBefore(world, db.rows, user, since, startedAt) {
      StoredFromStart(world, db.rows, user, since, startedAt, history);
    }
    if NoGap(world, after, user, startedAt) {
      forall l | l in world && l.user == user && l.visibleAt <= startedAt && l.event.ts < since
        ensures Row(l.event, user) in db.rows
      {
        InsertMembers(db.rows, Tag(history, user), Row(l.event, user));
        assert Row(l.event, user) in Tag(history, user) ==> l.event in history;
      }
    }
  }

  lemma StoredFromStart(world: set<Listing>, rows: seq<Row>, user: string, since: int, startedAt: int,
                        history: seq<Fill>)
    requires Orderly(world) && UniqueRows(rows) && RowsAreReal(world, rows)
    requires FullFetch(world, user, since, startedAt, history)
    requires NothingMissedBefore(world, rows, user, since, startedAt)
    ensures NoGap(world, InsertIgnore(rows, Tag(history, user)), user, startedAt)
  {
    var after := InsertIgnore(rows, Tag(history, user));
    forall l | l in world && l.user == user && l.visibleAt <= startedAt ensures Row(l.event, user) in after {
      if since <= l.event.ts {
        FetchedIsStored(world, rows, user, history, l.event);
      } else {
        assert Row(l.event, user) in rows;
      }
    }
  }

  /** Behind a checkpoint that is read the six-hour overlap misses nothing, even if the clock went back. */
  lemma OverlapMissesNothing(world: set<Listing>, db: Db, account: Account, startedAt: int)
    requires Orderly(world) && Inv(world, db) && account in db.checkpoints
    ensures NothingMissedBefore(world, db.rows, account.user,
                                ScanStart(db.rows, db.checkpoints, account, true), startedAt)
  {
    assert NoGap(world, db.rows, account.user, db.checkpoints[account]);
  }

  // ---------------------------------------------------------------- runs

  datatype Update = Update(account: Account, readable: bool, startedAt: int, weather: Weather)

  function AfterUpdate(db: Db, u: Update): Db {
    Updated(db, u.account, u.startedAt, u.weather)
  }

  function StartOf(db: Db, u: Update): int {
    ScanStart(db.rows, db.checkpoints, u.account, u.readable)
  }

  /** Fetches that succeed are full, and one that does not start behind a checkpoint misses nothing. */
  ghost predicate Faithful(world: set<Listing>, db: Db, u: Update) {
    u.weather.Fetched? ==>
      && FullFetch(world, u.account.user, StartOf(db, u), u.startedAt, u.weather.history)
      && (!u.readable || u.account !in db.checkpoints ==>
            NothingMissedBefore(world, db.rows, u.account.user, StartOf(db, u), u.startedAt))
  }

  function Replay(db: Db, updates: seq<Update>): Db
    decreases |updates|
  {
    if updates == [] then db
    else Replay(AfterUpdate(db, updates[0]), updates[1..])
  }

  ghost predicate AllFaithful(world: set<Listing>, db: Db, updates: seq<Update>)
    decreases |updates|
  {
    updates != [] ==>
      && Faithful(world, db, updates[0])
      && AllFaithful(world, AfterUpdate(db, updates[0]), updates[1..])
  }

  /** One update keeps every account free of gaps up to its checkpoint. */
  lemma UpdateKeepsInv(world: set<Listing>, db: Db, u: Update)
    requires Orderly(world) && Inv(world, db) && Faithful(world, db, u)
    ensures Inv(world, AfterUpdate(db, u))
  {
    if u.weather.Fetched? {
      var user, history := u.account.user, u.weather.history;
      var since := StartOf(db, u);
      var batch := Tag(history, user);
      if u.readable && u.account in db.checkpoints {
        OverlapMissesNothing(world, db, u.account, u.startedAt);
      }
      StoredFromStart(world, db.rows, user, since, u.startedAt, history);
      InsertKeepsUnique(db.rows, batch);
      InsertKeepsReal(world, db.rows, user, history);
      var next := AfterUpdate(db, u);
      forall a | a in next.checkpoints ensures NoGap(world, next.rows, a.user, next.checkpoints[a]) {
        if a != u.account {
          assert NoGap(world, db.rows, a.user, db.checkpoints[a]);
        }
      }
    }
  }

  /** When the last successful update of an account started, told from the list of updates alone. */
  function LastSuccess(updates: seq<Update>, account: Account): Option<int> {
    if updates == [] then None
    else
      var later, u := LastSuccess(updates[1..], account), updates[0];
      if later.Some? then later
      else if u.account == account && u.weather.Fetched? then Some(u.startedAt)
      else None
  }

  /** An account's checkpoint after a run is the start of its last success, or what it was without any. */
  lemma {:induction false} CheckpointIsLastSuccess(db: Db, updates: seq<Update>, account: Account)
    ensures var after, last := Replay(db, updates).checkpoints, LastSuccess(updates, account);
            if last.Some? then account in after && after[account] == last.value
            else (account in after <==> account in db.checkpoints)
                 && (account in after ==> after[account] == db.checkpoints[account])
    decreases |updates|
  {
    if updates != [] {
      CheckpointIsLastSuccess(AfterUpdate(db, updates[0]), updates[1..], account);
    }
  }

  /** What a run leaves for an account that was updated in it: no gap at the start of its last success, and
      a next readable scan that starts six hours before it and misses nothing older. */
  ghost predicate UpToDate(world: set<Listing>, db: Db, updates: seq<Update>, account: Account) {
    var last := LastSuccess(updates, account);
    last.Some? ==>
      && NoGap(world, db.rows, account.user, last.value)
      && ScanStart(db.rows, db.checkpoints, account, true) == Max(0, last.value - LOOKBACK)
      && forall l :: l in world && l.user == account.user && l.event.ts < Max(0, last.value - LOOKBACK)
           ==> Row(l.event, l.user) in db.rows
  }

  lemma InvIsUpToDate(world: set<Listing>, db: Db, updates: seq<Update>, account: Account)
    requires Orderly(world) && Inv(world, Replay(db, updates))
    ensures UpToDate(world, Replay(db, updates), updates, account)
  {
    CheckpointIsLastSuccess(db, updates, account);
    if LastSuccess(updates, account).Some? {
      forall l | l in world && l.user == account.user
                 && l.event.ts < Max(0, LastSuccess(updates, account).value - LOOKBACK)
        ensures Row(l.event, l.user) in Replay(db, updates).rows
      {
        OverlapMissesNothing(world, Replay(db, updates), account, l.visibleAt);
      }
    }
  }

  lemma {:induction false} RunKeepsInv(world: set<Listing>, db: Db, updates: seq<Update>)
    requires Orderly(world) && Inv(world, db) && AllFaithful(world, db, updates)
    ensures Inv(world, Replay(db, updates))
    decreases |updates|
  {
    if updates != [] {
      UpdateKeepsInv(world, db, updates[0]);
      RunKeepsInv(world, AfterUpdate(db, updates[0]), updates[1..]);
    }
  }

  /** Over any run of updates, failed or not and of any accounts, every account's table is complete up to
      its checkpoint, which is the start of its last success. */
  lemma NoGapOverRuns(world: set<Listing>, db: Db, updates: seq<Update>)
    requires Orderly(world) && Inv(world, db) && AllFaithful(world, db, updates)
    ensures Inv(world, Replay(db, updates))
    ensures forall account :: UpToDate(world, Replay(db, updates), updates, account)
  {
    RunKeepsInv(world, db, updates);
    forall account ensures UpToDate(world, Replay(db, updates), updates, account) {
      InvIsUpToDate(world, db, updates, account);
    }
  }

  // ---------------------------------------------------------------- ids

  /** A funding payment as the exchange reports it. */
  datatype Payment = Payment(time: string, coin: string, ts: int)

  /** Hyperliquid ids are built from the time and the coin of a payment alone. */
  function FundingId(p: Payment): string {
    p.time + "_" + p.coin
  }

  function FundingEvents(payments: seq<Payment>): (events: seq<Fill>)
    ensures |events| == |payments|
    ensures forall i :: 0 <= i < |events| ==> events[i] == Fill(FundingId(payments[i]), payments[i].ts)
  {
    seq(|payments|, i requires 0 <= i < |payments| => Fill(FundingId(payments[i]), payments[i].ts))
  }

  /** A time is written as a number. */
  predicate PlainTime(p: Payment) {
    forall i :: 0 <= i < |p.time| ==> p.time[i] != '_'
  }

  predicate Collides(p: Payment, q: Payment) {
    p.time == q.time && p.coin == q.coin
  }

  lemma SameFundingIdIff(p: Payment, q: Payment)
    requires PlainTime(p) && PlainTime(q)
    ensures FundingId(p) == FundingId(q) <==> Collides(p, q)
  {
    var a, b := FundingId(p), FundingId(q);
    assert a[..|p.time|] == p.time && a[|p.time| + 1..] == p.coin;
    assert b[..|q.time|] == q.time && b[|q.time| + 1..] == q.coin;
    assert forall i :: 0 <= i < |p.time| ==> a[i] == p.time[i];
    assert forall i :: 0 <= i < |q.time| ==> b[i] == q.time[i];
    UnderscoreIs(a, |p.time|);
    UnderscoreIs(b, |q.time|);
  }

  /** Where the first underscore is. */
  function Underscore(s: string): nat {
    if s == "" || s[0] == '_' then 0 else 1 + Underscore(s[1..])
  }

  lemma {:induction false} UnderscoreIs(s: string, n: nat)
    requires n < |s| && s[n] == '_' && forall i :: 0 <= i < n ==> s[i] != '_'
    ensures Underscore(s) == n
    decreases n
  {
    if n > 0 {
      UnderscoreIs(s[1..], n - 1);
    }
  }

  ghost predicate NoneCollides(payments: seq<Payment>, n: nat, p: Payment)
    requires n <= |payments|
  {
    forall j :: 0 <= j < n ==> !Collides(payments[j], p)
  }

  lemma FundingIdIsNew(payments: seq<Payment>, user: string, p: Payment)
    requires PlainTime(p) && forall i :: 0 <= i < |payments| ==> PlainTime(payments[i])
    ensures FundingId(p) !in RowIds(Tag(FundingEvents(payments), user)) <==> NoneCollides(payments, |payments|, p)
  {
    var rows := Tag(FundingEvents(payments), user);
    forall j | 0 <= j < |payments| ensures rows[j].event.id == FundingId(p) <==> Collides(payments[j], p) {
      SameFundingIdIff(payments[j], p);
    }
    if !NoneCollides(payments, |payments|, p) {
      var j :| 0 <= j < |payments| && Collides(payments[j], p);
      assert rows[j].event.id == FundingId(p);
    }
  }

  lemma FirstPaymentIff(payments: seq<Payment>, user: string, i: nat)
    requires i < |payments| && forall j :: 0 <= j < |payments| ==> PlainTime(payments[j])
    ensures FirstOfId(Tag(FundingEvents(payments), user), i) <==> NoneCollides(payments, i, payments[i])
  {
    forall j | 0 <= j < i
      ensures FundingId(payments[j]) == FundingId(payments[i]) <==> Collides(payments[j], payments[i])
    {
      SameFundingIdIff(payments[j], payments[i]);
    }
  }

  /** One user's payments are imported after another's. The second user's payment, the first of its time
      and coin in that import, is stored if and only if its id was not in the table and the first user was
      not paid on the same coin at the same time. */
  lemma SecondPaymentStoredIff(rows: seq<Row>, alices: seq<Payment>, alice: string, bobs: seq<Payment>, bob: string,
                               i: nat)
    requires alice != bob && i < |bobs| && NoneCollides(bobs, i, bobs[i])
    requires forall j :: 0 <= j < |alices| ==> PlainTime(alices[j])
    requires forall j :: 0 <= j < |bobs| ==> PlainTime(bobs[j])
    ensures var first := InsertIgnore(rows, Tag(FundingEvents(alices), alice));
            var paid := Row(Fill(FundingId(bobs[i]), bobs[i].ts), bob);
            paid in InsertIgnore(first, Tag(FundingEvents(bobs), bob))
            <==> paid in rows || (FundingId(bobs[i]) !in RowIds(rows) && NoneCollides(alices, |alices|, bobs[i]))
  {
    var batch, own := Tag(FundingEvents(alices), alice), Tag(FundingEvents(bobs), bob);
    var first := InsertIgnore(rows, batch);
    var paid := Row(Fill(FundingId(bobs[i]), bobs[i].ts), bob);
    StoredIffFirst(first, own, paid);
    StoredIffFirst(rows, batch, paid);
    InsertIds(rows, batch);
    FundingIdIsNew(alices, alice, bobs[i]);
    FirstPaymentIff(bobs, bob, i);
    assert own[i] == paid && FirstOfId(own, i);
    assert paid !in batch;
  }

  /** The smallest case: one payment reported for two users. */
  lemma SharedFundingIdDropsARow(rows: seq<Row>, p: Payment, alice: string, bob: string)
    requires UniqueRows(rows) && alice != bob && FundingId(p) !in RowIds(rows)
    ensures var e := Fill(FundingId(p), p.ts);
            var first := InsertIgnore(rows, Tag([e], alice));
            Row(e, alice) in first && Row(e, bob) !in InsertIgnore(first, Tag([e], bob))
  {
    var e := Fill(FundingId(p), p.ts);
    var hers := Tag([e], alice);
    StoredIffFirst(rows, hers, Row(e, alice));
    StoredIffFirst(rows, hers, Row(e, bob));
    StoredIffFirst(InsertIgnore(rows, hers), Tag([e], bob), Row(e, bob));
    InsertIds(rows, hers);
    assert FirstOfId(hers, 0) && hers[0].event.id in RowIds(hers);
    forall i | 0 <= i < |rows| ensures rows[i].event.id != e.id {
      assert rows[i].event.id in RowIds(rows);
    }
  }

  // ---------------------------------------------------------------- from pages to rows

  /** The overlapping pages of a rescan that skips nothing leave exactly one row per event of the range. */
  lemma RescanStoredOnce(feed: seq<Fill>, plan: IncomeRescan.RescanPlan, since: int, now: int, all: seq<Fill>,
                         user: string, e: Fill)
    requires Chronological(feed) && DistinctIds(feed) && plan.Valid()
    requires IncomeRescan.Returns(feed, plan, since, now, all)
    requires IncomeRescan.NeverSkips(feed, plan, now, IncomeRescan.Start(plan, since))
    ensures var rows := InsertIgnore([], Tag(all, user));
            && UniqueRows(rows)
            && (Row(e, user) in rows ==> e in feed && since <= e.ts)
            && (e in feed && since <= e.ts <= now ==> Row(e, user) in rows)
  {
    IncomeRescan.RunCollects(feed, plan, since, now, all);
    IncomeRescan.CollectedEvents(feed, since, now, all, e);
    var rows := InsertIgnore([], Tag(all, user));
    InsertKeepsUnique([], Tag(all, user));
    if Row(e, user) in rows {
      InsertMembers([], Tag(all, user), Row(e, user));
    }
    if e in all {
      var i :| 0 <= i < |all| && all[i] == e;
      var q := RowWithId([], Tag(all, user), i);
      InsertMembers([], Tag(all, user), q);
      IncomeRescan.CollectedEvents(feed, since, now, all, q.event);
      SameIdSameFill(feed, q.event, e);
    }
  }

  lemma SameIdSameFill(feed: seq<Fill>, f: Fill, g: Fill)
    requires DistinctIds(feed) && f in feed && g in feed && f.id == g.id
    ensures f == g
  {
    var i :| 0 <= i < |feed| && feed[i] == f;
    var j :| 0 <= j < |feed| && feed[j] == g;
    assert Apart(feed, i, j) && Apart(feed, j, i);
  }

  /** The feed a reader queries for a user: what was visible when the scan started, perhaps more, and
      only real events. */
  ghost predicate Lists(world: set<Listing>, user: string, startedAt: int, feed: seq<Fill>) {
    && Chronological(feed)
    && (forall l :: l in world && l.user == user && l.visibleAt <= startedAt ==> l.event in feed)
    && (forall e :: e in feed ==> exists v :: Listing(user, e, v) in world)
  }

  /** A fetch whose history is what the rescanning reader returned, started no later than the scan and
      skipping nothing. Where the cap of an answer is the compared length, nothing is ever skipped. */
  ghost predicate Read(world: set<Listing>, plan: IncomeRescan.RescanPlan, db: Db, u: Update, feed: seq<Fill>,
                       from: int, now: int)
    requires u.weather.Fetched?
  {
    && plan.Valid() && u.startedAt <= now && from <= StartOf(db, u)
    && Lists(world, u.account.user, u.startedAt, feed)
    && IncomeRescan.Returns(feed, plan, from, now, u.weather.history)
    && (plan.cap != plan.limit ==> IncomeRescan.NeverSkips(feed, plan, now, IncomeRescan.Start(plan, from)))
  }

  /** The rescanning reader delivers a full fetch: what update runs take for granted, the reader keeps. */
  lemma ReaderIsFull(world: set<Listing>, plan: IncomeRescan.RescanPlan, db: Db, u: Update, feed: seq<Fill>,
                     from: int, now: int)
    requires Orderly(world) && u.weather.Fetched? && Read(world, plan, db, u, feed, from, now)
    ensures FullFetch(world, u.account.user, StartOf(db, u), u.startedAt, u.weather.history)
  {
    if plan.cap == plan.limit {
      IncomeRescan.CappedNeverSkips(feed, plan, from, now);
    }
    IncomeRescan.RunCollects(feed, plan, from, now, u.weather.history);
    forall l | l in world && l.user == u.account.user && StartOf(db, u) <= l.event.ts && l.visibleAt <= u.startedAt
      ensures l.event in u.weather.history
    {
      IncomeRescan.CollectedEvents(feed, from, now, u.weather.history, l.event);
    }
    forall e | e in u.weather.history ensures exists v :: Listing(u.account.user, e, v) in world {
      IncomeRescan.CollectedEvents(feed, from, now, u.weather.history, e);
    }
  }

  /** Updates that really use a reader, each with a feed of its own; a scan that does not start behind a
      checkpoint misses nothing older. */
  ghost predicate UsesReader(world: set<Listing>, db: Db, u: Update) {
    u.weather.Fetched? ==>
      && (exists plan, feed, from, now :: Read(world, plan, db, u, feed, from, now))
      && (!u.readable || u.account !in db.checkpoints ==>
            NothingMissedBefore(world, db.rows, u.account.user, LastTimestamp(db.rows, u.account.user), u.startedAt))
  }

  ghost predicate AllUseReader(world: set<Listing>, db: Db, updates: seq<Update>)
    decreases |updates|
  {
    updates != [] ==>
      && UsesReader(world, db, updates[0])
      && AllUseReader(world, AfterUpdate(db, updates[0]), updates[1..])
  }

  lemma ReaderIsFaithful(world: set<Listing>, db: Db, u: Update)
    requires Orderly(world) && UsesReader(world, db, u)
    ensures Faithful(world, db, u)
  {
    if u.weather.Fetched? {
      var plan, feed, from, now :| Read(world, plan, db, u, feed, from, now);
      ReaderIsFull(world, plan, db, u, feed, from, now);
    }
  }

  lemma {:induction false} ReadersAreFaithful(world: set<Listing>, db: Db, updates: seq<Update>)
    requires Orderly(world) && AllUseReader(world, db, updates)
    ensures AllFaithful(world, db, updates)
    decreases |updates|
  {
    if updates != [] {
      ReaderIsFaithful(world, db, updates[0]);
      ReadersAreFaithful(world, AfterUpdate(db, updates[0]), updates[1..]);
    }
  }

  /** From pages to checkpoints: over any run of updates through the rescanning reader, failed ones
      included, every account's table is complete up to its checkpoint, the start of its last success. */
  lemma NoGapThroughReader(world: set<Listing>, db: Db, updates: seq<Update>)
    requires Orderly(world) && Inv(world, db) && AllUseReader(world, db, updates)
    ensures Inv(world, Replay(db, updates))
    ensures forall account :: UpToDate(world, Replay(db, updates), updates, account)
  {
    ReadersAreFaithful(world, db, updates);
    NoGapOverRuns(world, db, updates);
  }
}
