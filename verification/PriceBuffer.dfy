/** The write-behind price buffer: ticks are buffered per user and symbol, a flusher takes the
    whole buffer and writes it in one transaction, and a failed write is merged back under
    newer ticks. */
module PriceBuffer {
  import opened Common

  datatype Key = Key(user: string, symbol: string)
  datatype Tick = Tick(timestamp: int, price: real)
  datatype Row = Row(key: Key, tick: Tick)

  type Ticks = map<Key, Tick>

  // ---------------------------------------------------------------- the price table

  predicate HasKey(rows: seq<Row>, key: Key) {
    exists i :: 0 <= i < |rows| && rows[i].key == key
  }

  /** UPDATE prices SET ... WHERE symbol = ? AND user = ?: every matching row changes. */
  function UpdateRows(rows: seq<Row>, key: Key, tick: Tick): (r: seq<Row>)
    ensures |r| == |rows|
    ensures forall i :: 0 <= i < |rows| ==> r[i] == if rows[i].key == key then Row(key, tick) else rows[i]
  {
    seq(|rows|, i requires 0 <= i < |rows| => if rows[i].key == key then Row(key, tick) else rows[i])
  }

  /** The update, or an insert when it matched no row. */
  function Upsert(rows: seq<Row>, key: Key, tick: Tick): seq<Row> {
    if HasKey(rows, key) then UpdateRows(rows, key, tick) else rows + [Row(key, tick)]
  }

  /** The table as a map from keys to ticks. */
  function AsMap(rows: seq<Row>): (m: Ticks)
    ensures forall k :: k in m <==> HasKey(rows, k)
  {
    if rows == [] then map[]
    else
      var n := |rows| - 1;
      assert forall k :: HasKey(rows, k) <==> HasKey(rows[..n], k) || k == rows[n].key by {
        forall k ensures HasKey(rows, k) <==> HasKey(rows[..n], k) || k == rows[n].key {
          HasKeyLast(rows, k);
        }
      }
      AsMap(rows[..n])[rows[n].key := rows[n].tick]
  }

  ghost predicate SameKey(rows: seq<Row>, i: int, j: int) {
    0 <= i < j < |rows| && rows[i].key == rows[j].key
  }

  ghost predicate OneRowPerKey(rows: seq<Row>) {
    forall i, j :: !SameKey(rows, i, j)
  }

  lemma HasKeyLast(rows: seq<Row>, key: Key)
    requires rows != []
    ensures HasKey(rows, key) <==> HasKey(rows[..|rows| - 1], key) || rows[|rows| - 1].key == key
  {
    var n := |rows| - 1;
    if HasKey(rows[..n], key) {
      var i :| 0 <= i < n && rows[..n][i].key == key;
      assert rows[i].key == key;
    }
  }

  lemma {:induction false} UpdateAsMap(rows: seq<Row>, key: Key, tick: Tick)
    ensures AsMap(UpdateRows(rows, key, tick)) == if HasKey(rows, key) then AsMap(rows)[key := tick] else AsMap(rows)
    decreases |rows|
  {
    if rows != [] {
      var n := |rows| - 1;
      assert UpdateRows(rows, key, tick)[..n] == UpdateRows(rows[..n], key, tick);
      UpdateAsMap(rows[..n], key, tick);
      HasKeyLast(rows, key);
    }
  }

  /** An upsert is a map update, even on a table with duplicate rows. */
  lemma UpsertAsMap(rows: seq<Row>, key: Key, tick: Tick)
    ensures AsMap(Upsert(rows, key, tick)) == AsMap(rows)[key := tick]
  {
    if HasKey(rows, key) {
      UpdateAsMap(rows, key, tick);
    } else {
      assert (rows + [Row(key, tick)])[..|rows|] == rows;
    }
  }

  lemma UpsertKeepsOneRow(rows: seq<Row>, key: Key, tick: Tick)
    requires OneRowPerKey(rows)
    ensures OneRowPerKey(Upsert(rows, key, tick))
  {
    var after := Upsert(rows, key, tick);
    forall i, j ensures !SameKey(after, i, j) {
      assert !SameKey(rows, i, j);
    }
  }

  // ---------------------------------------------------------------- the buffer as a system

  /** The write in progress: taken from the buffer, then committed by the worker thread. */
  datatype Flight = Grounded | Writing(snapshot: Ticks) | Written(snapshot: Ticks)

  /** `orphans` are writes whose flush was cancelled while the worker thread went on. */
  datatype System = System(buffer: Ticks, flight: Flight, db: Ticks, orphans: seq<Ticks>, latest: Ticks)

  datatype Action =
    | Buffer(key: Key, tick: Tick)
    | Take
    | Commit
    | Return
    | Fail
    | Cancel
    | OrphanCommit

  /** The failed snapshot goes back into the buffer, under whatever is there already. */
  function Restored(buffer: Ticks, failed: Ticks): Ticks {
    failed + buffer
  }

  function Next(s: System, a: Action): System {
    match (a, s.flight)
    case (Buffer(k, t), _) => s.(buffer := s.buffer[k := t], latest := s.latest[k := t])
    case (Take, Grounded) => if s.buffer == map[] then s else s.(buffer := map[], flight := Writing(s.buffer))
    case (Commit, Writing(snap)) => s.(db := s.db + snap, flight := Written(snap))
    case (Return, Written(_)) => s.(flight := Grounded)
    case (Fail, Writing(snap)) => s.(buffer := Restored(s.buffer, snap), flight := Grounded)
    case (Cancel, Writing(snap)) =>
      s.(buffer := Restored(s.buffer, snap), flight := Grounded, orphans := s.orphans + [snap])
    case (OrphanCommit, _) =>
      if s.orphans == [] then s else s.(db := s.db + s.orphans[0], orphans := s.orphans[1..])
    case _ => s
  }

  function Exec(s: System, actions: seq<Action>): System
    decreases |actions|
  {
    if actions == [] then s else Exec(Next(s, actions[0]), actions[1..])
  }

  function Start(db: Ticks): System {
    System(map[], Grounded, db, [], map[])
  }

  /** Where a reader of everything would find a key's tick: buffer, then flight, then database. */
  ghost predicate Finds(s: System, k: Key, t: Tick) {
    if k in s.buffer then s.buffer[k] == t
    else if s.flight.Writing? && k in s.flight.snapshot then s.flight.snapshot[k] == t
    else k in s.db && s.db[k] == t
  }

  ghost predicate NewestKept(s: System) {
    forall k :: k in s.latest ==> Finds(s, k, s.latest[k])
  }

  lemma {:induction false} RunKeepsNewest(s: System, actions: seq<Action>)
    requires NewestKept(s) && s.orphans == [] && forall i :: 0 <= i < |actions| ==> !actions[i].Cancel?
    ensures NewestKept(Exec(s, actions))
    decreases |actions|
  {
    if actions != [] {
      RunKeepsNewest(Next(s, actions[0]), actions[1..]);
    }
  }

  /** The last tick buffered for a key, told from the actions alone. */
  function LastTick(actions: seq<Action>, k: Key): Option<Tick> {
    if actions == [] then None
    else
      var later, a := LastTick(actions[1..], k), actions[0];
      if later.Some? then later else if a.Buffer? && a.key == k then Some(a.tick) else None
  }

  lemma {:induction false} LatestIsLastTick(s: System, actions: seq<Action>, k: Key)
    ensures var after, last := Exec(s, actions).latest, LastTick(actions, k);
            if last.Some? then k in after && after[k] == last.value
            else (k in after <==> k in s.latest) && (k in after ==> after[k] == s.latest[k])
    decreases |actions|
  {
    if actions != [] {
      LatestIsLastTick(Next(s, actions[0]), actions[1..], k);
    }
  }

  /** No write holds the key. */
  ghost predicate Untouched(s: System, k: Key) {
    && k !in s.buffer && (s.flight.Writing? ==> k !in s.flight.snapshot)
    && forall i :: 0 <= i < |s.orphans| ==> k !in s.orphans[i]
  }

  ghost predicate SameAt(a: Ticks, b: Ticks, k: Key) {
    (k in a <==> k in b) && (k in a ==> a[k] == b[k])
  }

  /** A key without ticks keeps what the database has of it, whatever happens. */
  lemma {:induction false} UntouchedStays(s: System, actions: seq<Action>, k: Key)
    requires Untouched(s, k) && LastTick(actions, k).None?
    ensures Untouched(Exec(s, actions), k) && SameAt(Exec(s, actions).db, s.db, k)
    decreases |actions|
  {
    if actions != [] {
      UntouchedStays(Next(s, actions[0]), actions[1..], k);
    }
  }

  /** Over every interleaving of ticks and flushes, failed ones included, the last tick of each key is in the
      buffer, else in flight, else in the database. */
  lemma NoTickIsLost(db: Ticks, actions: seq<Action>)
    requires forall i :: 0 <= i < |actions| ==> !actions[i].Cancel?
    ensures NewestKept(Exec(Start(db), actions))
    ensures forall k :: LastTick(actions, k).Some? ==>
              Finds(Exec(Start(db), actions), k, LastTick(actions, k).value)
  {
    RunKeepsNewest(Start(db), actions);
    forall k | LastTick(actions, k).Some? ensures Finds(Exec(Start(db), actions), k, LastTick(actions, k).value) {
      LatestIsLastTick(Start(db), actions, k);
    }
  }

  /** Once the last flush has returned and nothing new arrived, the database has the last tick of each key, and
      of a key without ticks what it had before. */
  lemma QuietMeansStored(db: Ticks, actions: seq<Action>, k: Key)
    requires forall i :: 0 <= i < |actions| ==> !actions[i].Cancel?
    requires var s := Exec(Start(db), actions); s.buffer == map[] && !s.flight.Writing?
    ensures var s, last := Exec(Start(db), actions), LastTick(actions, k);
            if last.Some? then k in s.db && s.db[k] == last.value else SameAt(s.db, db, k)
  {
    NoTickIsLost(db, actions);
    if LastTick(actions, k).None? {
      UntouchedStays(Start(db), actions, k);
    }
  }

  /** After any run without a cancellation, one undisturbed flush brings that about. */
  lemma FlushStoresAll(db: Ticks, actions: seq<Action>, k: Key)
    requires forall i :: 0 <= i < |actions| ==> !actions[i].Cancel?
    requires Exec(Start(db), actions).flight.Grounded? && LastTick(actions, k).Some?
    ensures var s := Exec(Start(db), actions);
            && (s.buffer != map[] ==> Flushed(s).buffer == map[])
            && k in Flushed(s).db && Flushed(s).db[k] == LastTick(actions, k).value
  {
    var s := Exec(Start(db), actions);
    NoTickIsLost(db, actions);
    if s.buffer != map[] {
      NewerTickWritten(s);
    }
  }

  function Flushed(s: System): System {
    Next(Next(Next(s, Take), Commit), Return)
  }

  /** With a cancelled flush the property fails: the abandoned write lands after a newer one. */
  lemma CancelledFlushCanRevert(db: Ticks, k: Key, t1: Tick, t2: Tick)
    requires t1 != t2
    ensures var s1 := Next(Next(Next(Start(db), Buffer(k, t1)), Take), Cancel);
            var s2 := Flushed(Next(s1, Buffer(k, t2)));
            NewestKept(s2) && !NewestKept(Next(s2, OrphanCommit))
  {
    var s0 := Next(Start(db), Buffer(k, t1));
    assert k in s0.buffer;
    var s1 := Next(Next(s0, Take), Cancel);
    var s := Next(s1, Buffer(k, t2));
    assert k in s.buffer && s.latest == map[k := t2] && s.buffer == map[k := t2];
    var s2 := Flushed(s);
    assert s2.orphans[0] == map[k := t1];
    assert k in Next(s2, OrphanCommit).latest && !Finds(Next(s2, OrphanCommit), k, t2);
  }

  // ---------------------------------------------------------------- cancelled flushes

  ghost predicate Uncancelled(actions: seq<Action>) {
    forall i :: 0 <= i < |actions| ==> !actions[i].Cancel?
  }

  /** An abandoned write lands that holds an older tick of a key not buffered or in flight again. */
  ghost predicate Reverts(s: System, a: Action) {
    a.OrphanCommit? && s.orphans != [] && exists k :: LandsOnNewer(s, k)
  }

  ghost predicate LandsOnNewer(s: System, k: Key)
    requires s.orphans != []
  {
    && k in s.orphans[0] && k in s.latest && s.orphans[0][k] != s.latest[k]
    && k !in s.buffer && !(s.flight.Writing? && k in s.flight.snapshot)
  }

  /** Any step, a cancellation included, keeps the newest ticks unless it is such a landing. */
  lemma StepKeepsNewestIff(s: System, a: Action)
    requires NewestKept(s)
    ensures NewestKept(Next(s, a)) <==> !Reverts(s, a)
  {
    var t := Next(s, a);
    if Reverts(s, a) {
      var k :| LandsOnNewer(s, k);
      assert !Finds(t, k, t.latest[k]);
    } else {
      forall k | k in t.latest ensures Finds(t, k, t.latest[k]) {
        if k in s.latest {
          assert Finds(s, k, s.latest[k]);
        }
        if a.OrphanCommit? && s.orphans != [] {
          assert !LandsOnNewer(s, k);
        }
      }
    }
  }

  ghost predicate KeptThroughout(s: System, actions: seq<Action>)
    decreases |actions|
  {
    NewestKept(s) && (actions != [] ==> KeptThroughout(Next(s, actions[0]), actions[1..]))
  }

  ghost predicate NeverReverts(s: System, actions: seq<Action>)
    decreases |actions|
  {
    actions != [] ==> !Reverts(s, actions[0]) && NeverReverts(Next(s, actions[0]), actions[1..])
  }

  /** Over every run, cancellations included, the newest ticks are kept throughout if and only if no
      abandoned write lands on a newer tick. */
  lemma {:induction false} KeptIffNeverReverts(s: System, actions: seq<Action>)
    requires NewestKept(s)
    ensures KeptThroughout(s, actions) <==> NeverReverts(s, actions)
    decreases |actions|
  {
    if actions != [] {
      StepKeepsNewestIff(s, actions[0]);
      if !Reverts(s, actions[0]) {
        KeptIffNeverReverts(Next(s, actions[0]), actions[1..]);
      }
    }
  }

  /** Whatever happens next, short of another cancellation, the newest ticks are kept. */
  ghost predicate KeepsNewestFrom(s: System) {
    forall more :: Uncancelled(more) ==> NewestKept(Exec(s, more))
  }

  /** Only non-empty buffers are taken, so no write is empty. */
  ghost predicate WritesSomething(s: System) {
    && (s.flight.Writing? ==> s.flight.snapshot != map[])
    && forall i :: 0 <= i < |s.orphans| ==> s.orphans[i] != map[]
  }

  lemma {:induction false} RunWritesSomething(s: System, actions: seq<Action>)
    requires WritesSomething(s)
    ensures WritesSomething(Exec(s, actions))
    decreases |actions|
  {
    if actions != [] {
      RunWritesSomething(Next(s, actions[0]), actions[1..]);
    }
  }

  lemma ExecCons(s: System, a: Action, rest: seq<Action>)
    ensures Exec(s, [a] + rest) == Exec(Next(s, a), rest)
  {
    assert ([a] + rest)[1..] == rest;
  }

  /** After the write in progress, if any, a newer tick is buffered. */
  lemma NewerTickBuffered(s: System, key: Key, newer: Tick) returns (t: System)
    ensures t == Next(Next(Next(s, Commit), Return), Buffer(key, newer))
    ensures t.flight.Grounded? && t.orphans == s.orphans && key in t.buffer && key in t.latest && t.latest[key] == newer
  {
    t := Next(Next(Next(s, Commit), Return), Buffer(key, newer));
  }

  lemma NewerTickWritten(s: System)
    requires s.flight.Grounded? && s.buffer != map[]
    ensures Flushed(s) == s.(buffer := map[], db := s.db + s.buffer)
  {
  }

  /** The run that settles the write in progress, buffers and writes a tick, and lets an abandoned write land. */
  lemma LandingRun(s: System, key: Key, newer: Tick) returns (more: seq<Action>)
    ensures Uncancelled(more)
    ensures var t := Next(Next(Next(s, Commit), Return), Buffer(key, newer));
            Exec(s, more) == Next(Flushed(t), OrphanCommit)
  {
    var write := [Take] + ([Commit] + ([Return] + ([OrphanCommit] + [])));
    var settle := [Return] + ([Buffer(key, newer)] + write);
    more := [Commit] + settle;
    var t := Next(Next(Next(s, Commit), Return), Buffer(key, newer));
    ExecCons(s, Commit, settle);
    ExecCons(Next(s, Commit), Return, [Buffer(key, newer)] + write);
    ExecCons(Next(Next(s, Commit), Return), Buffer(key, newer), write);
    ExecCons(t, Take, [Commit] + ([Return] + ([OrphanCommit] + [])));
    ExecCons(Next(t, Take), Commit, [Return] + ([OrphanCommit] + []));
    ExecCons(Next(Next(t, Take), Commit), Return, [OrphanCommit] + []);
    ExecCons(Flushed(t), OrphanCommit, []);
  }

  /** The newer tick is stored, and then the abandoned write lands. */
  lemma AbandonedWriteLands(s: System) returns (more: seq<Action>)
    requires WritesSomething(s) && s.orphans != []
    ensures Uncancelled(more) && !NewestKept(Exec(s, more))
  {
    assert s.orphans[0].Keys != {};
    var key :| key in s.orphans[0].Keys;
    var newer := Tick(s.orphans[0][key].timestamp + 1, s.orphans[0][key].price);
    more := LandingRun(s, key, newer);
    var t := NewerTickBuffered(s, key, newer);
    NewerTickWritten(t);
    assert !Finds(Next(Flushed(t), OrphanCommit), key, newer);
  }

  /** The exact reach, on every run with cancellations: the newest ticks are safe from here on if and
      only if they are kept now and no abandoned write is still outstanding. */
  lemma SafeIffNoAbandonedWrite(db: Ticks, actions: seq<Action>)
    ensures var s := Exec(Start(db), actions);
            KeepsNewestFrom(s) <==> NewestKept(s) && s.orphans == []
  {
    var s := Exec(Start(db), actions);
    RunWritesSomething(Start(db), actions);
    if NewestKept(s) && s.orphans == [] {
      forall more | Uncancelled(more) ensures NewestKept(Exec(s, more)) {
        RunKeepsNewest(s, more);
      }
    } else if s.orphans != [] {
      var more := AbandonedWriteLands(s);
    } else {
      assert Uncancelled([]) && Exec(s, []) == s;
    }
  }

  // ---------------------------------------------------------------- the object

  lemma MergedStep(start: Ticks, batch: Ticks, todo: set<Key>, key: Key)
    requires key in todo && todo <= batch.Keys
    ensures Merged(start, batch, todo)[key := batch[key]] == Merged(start, batch, todo - {key})
  {
  }

  lemma MergedEnds(start: Ticks, batch: Ticks)
    ensures Merged(start, batch, batch.Keys) == start && Merged(start, batch, {}) == start + batch
  {
    assert batch - batch.Keys == map[] && batch - {} == batch;
  }

  /** A failed tick is back in the buffer, unless a newer one of its key was there. */
  ghost predicate Restores(buffer: Ticks, before: Ticks, failed: Ticks) {
    && (forall k :: k in before ==> k in buffer && buffer[k] == before[k])
    && (forall k :: k in failed && k !in before ==> k in buffer && buffer[k] == failed[k])
    && (forall k :: k in buffer ==> k in before || k in failed)
  }

  lemma MergedRestores(before: Ticks, failed: Ticks)
    ensures Restores(Restored(before, failed), before, failed)
  {
  }

  /** `start` overridden by the part of `batch` that is done. */
  ghost function Merged(start: Ticks, batch: Ticks, todo: set<Key>): Ticks {
    start + (batch - todo)
  }

  class PriceWriter {
    var buffer: Ticks
    var flight: Flight
    var rows: seq<Row>
    ghost var latest: Ticks

    constructor (table: seq<Row>)
      ensures View() == Start(AsMap(table)) && rows == table
    {
      buffer, flight, rows, latest := map[], Grounded, table, map[];
    }

    ghost function View(): System
      reads this
    {
      System(buffer, flight, AsMap(rows), [], latest)
    }

    method BufferPrice(key: Key, tick: Tick)
      modifies this`buffer, this`latest
      ensures View() == Next(old(View()), Buffer(key, tick))
      ensures buffer == old(buffer)[key := tick] && latest == old(latest)[key := tick]
    {
      buffer, latest := buffer[key := tick], latest[key := tick];
    }

    /** UPDATE, and INSERT when no row was hit. */
    method UpsertPrice(key: Key, tick: Tick)
      modifies this`rows
      ensures AsMap(rows) == AsMap(old(rows))[key := tick]
      ensures OneRowPerKey(old(rows)) ==> OneRowPerKey(rows)
    {
      UpsertAsMap(rows, key, tick);
      if OneRowPerKey(rows) {
        UpsertKeepsOneRow(rows, key, tick);
      }
      if HasKey(rows, key) {
        rows := UpdateRows(rows, key, tick);
      } else {
        rows := rows + [Row(key, tick)];
      }
    }

    /** One transaction: each row is updated or inserted, and an error undoes all of it. */
    method BatchUpsert(batch: Ticks, fails: bool)
      modifies this`rows
      ensures fails ==> rows == old(rows)
      ensures !fails ==> AsMap(rows) == AsMap(old(rows)) + batch
      ensures OneRowPerKey(old(rows)) ==> OneRowPerKey(rows)
    {
      var saved := rows;
      WriteRows(batch);
      if fails {
        rows := saved;
      }
    }

    /** The rows of a batch, one after the other. */
    method WriteRows(batch: Ticks)
      modifies this`rows
      ensures AsMap(rows) == AsMap(old(rows)) + batch
      ensures OneRowPerKey(old(rows)) ==> OneRowPerKey(rows)
    {
      ghost var start, sound := AsMap(rows), OneRowPerKey(rows);
      var todo := batch.Keys;
      MergedEnds(start, batch);
      while todo != {}
        invariant todo <= batch.Keys
        invariant AsMap(rows) == Merged(start, batch, todo)
        invariant sound ==> OneRowPerKey(rows)
        decreases |todo|
      {
        var key :| key in todo;
        MergedStep(start, batch, todo, key);
        UpsertPrice(key, batch[key]);
        todo := todo - {key};
      }
    }

    /** The first half of a flush, under the buffer lock. */
    method TakeBuffer() returns (any: bool)
      requires flight.Grounded?
      modifies this`buffer, this`flight
      ensures View() == Next(old(View()), Take) && any == (old(buffer) != map[])
      ensures if any then buffer == map[] && flight == Writing(old(buffer))
              else buffer == old(buffer) && flight == old(flight)
    {
      any := buffer != map[];
      if any {
        flight, buffer := Writing(buffer), map[];
      }
    }

    /** The worker thread's write and the end of the flush: done, or everything merged back. */
    method WriteTaken(fails: bool)
      requires flight.Writing?
      modifies this`rows, this`buffer, this`flight
      ensures View() == if fails then Next(old(View()), Fail) else Next(Next(old(View()), Commit), Return)
      ensures OneRowPerKey(old(rows)) ==> OneRowPerKey(rows)
      ensures fails ==> rows == old(rows) && Restores(buffer, old(buffer), old(flight.snapshot))
      ensures !fails ==> buffer == old(buffer) && AsMap(rows) == AsMap(old(rows)) + old(flight.snapshot)
    {
      BatchUpsert(flight.snapshot, fails);
      if fails {
        MergeBack(flight.snapshot);
      }
      flight := Grounded;
    }

    /** Puts failed ticks back, except where a newer tick has been buffered. */
    method MergeBack(failed: Ticks)
      modifies this`buffer
      ensures buffer == Restored(old(buffer), failed) && Restores(buffer, old(buffer), failed)
    {
      var todo := failed.Keys;
      while todo != {}
        invariant todo <= failed.Keys
        invariant buffer == (failed - todo) + old(buffer)
        decreases |todo|
      {
        var key :| key in todo;
        if key !in buffer {
          buffer := buffer[key := failed[key]];
        }
        todo := todo - {key};
      }
      assert failed - {} == failed;
      MergedRestores(old(buffer), failed);
    }
  }
}
