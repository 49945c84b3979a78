/** The database side of the ingestion path (Data/db_conn.py): the module-level
    connection pool that `connect_to_db` creates once, `create_tables`, and
    `insert_data`, which executes rows chunk by chunk against the table. */
module DbConn {
  import opened Records
  import opened Batching
  import opened Store

  /** A pool handle; `serial` tells apart pools created by different calls. */
  datatype Pool = Pool(serial: nat, minSize: nat, maxSize: nat)

  /** The messages `db_logger` receives. */
  datatype LogEntry = PoolConnected | TableCreated | TableNotCreated | InsertFailed(failure: Failure)

  /** What `insert_data` does for its caller: raise because no pool exists,
      return None after a logged failure, or return the number of rows attempted. */
  datatype InsertOutcome = PoolMissing | Swallowed | Attempted(count: nat)

  /** The effect of `insert_data(conn, rows, batch_size)` once a pool exists:
      the table afterwards, what it returns, the failure it logs, and the
      slices it executed, one connection acquisition each. */
  datatype Effect = Effect(table: Table, outcome: InsertOutcome, failure: Option<Failure>, batches: seq<seq<Row>>)

  function InsertEffect(t: Table, rows: seq<Row>, batchSize: int): Effect
  {
    if batchSize == 0 then Effect(t, Swallowed, Some(ZeroBatchSize), [])
    else if batchSize < 0 then Effect(t, Attempted(0), None, [])
    else
      var e := ExecuteRows(t, rows);
      if e.failure.None? then
        ChunksCover(rows, batchSize);
        Effect(e.table, Attempted(|rows|), None, Chunks(rows, batchSize))
      else Effect(e.table, Swallowed, e.failure, ChunksThrough(rows, batchSize, e.done))
  }

  /** A failure is logged exactly when None is returned; a call that returns
      a count with a positive batch size attempted every row, in slices that
      cover them in order; a batch size below one executes nothing. */
  lemma InsertEffectOutcome(t: Table, rows: seq<Row>, batchSize: int)
    ensures var eff := InsertEffect(t, rows, batchSize);
      && (eff.failure.Some? <==> eff.outcome == Swallowed)
      && (eff.outcome.Attempted? && batchSize > 0 ==> eff.outcome.count == |rows| && Flatten(eff.batches) == rows)
      && (batchSize <= 0 ==> eff.table == t && eff.batches == [])
  {
    if batchSize > 0 && ExecuteRows(t, rows).failure.None? {
      ChunksCover(rows, batchSize);
    }
  }

  function FailureLog(f: Option<Failure>): seq<LogEntry>
  {
    if f.Some? then [InsertFailed(f.value)] else []
  }

  /** The module-level state of Data/db_conn.py together with the database it talks to. */
  class Database {
    var pool: Option<Pool>
    var poolsCreated: nat
    var table: Table
    var log: seq<LogEntry>
    /** The row slices `insert_data` executed, one per connection acquisition. */
    var batches: seq<seq<Row>>

    ghost predicate Valid()
      reads this
    {
      && TableValid(table)
      && (pool.Some? ==> pool.value.serial < poolsCreated && pool.value.minSize == 1 && pool.value.maxSize == 5)
    }

    /** A process that has not connected yet, against a database whose table
        has the given unique constraints and may already exist. */
    constructor (keys: UniqueKeys, tableExists: bool)
      ensures Valid()
      ensures pool == None && poolsCreated == 0 && log == [] && batches == []
      ensures table == EmptyTable(keys).(created := tableExists)
    {
      pool := None;
      poolsCreated := 0;
      table := EmptyTable(keys).(created := tableExists);
      log := [];
      batches := [];
    }

    /** `connect_to_db`: create the pool (1 to 5 connections) only when there
        is none, and return the one that exists. `reachable` stands for
        whether `asyncpg.create_pool` succeeds; when it fails the error propagates. */
    method ConnectToDb(reachable: bool) returns (r: Option<Pool>)
      requires Valid()
      modifies this
      ensures Valid()
      ensures table == old(table) && batches == old(batches)
      ensures old(pool).Some? ==> r == old(pool) && pool == old(pool) && poolsCreated == old(poolsCreated) && log == old(log)
      ensures old(pool).None? && reachable ==>
        && r == Some(Pool(old(poolsCreated), 1, 5)) && pool == r
        && poolsCreated == old(poolsCreated) + 1 && log == old(log) + [PoolConnected]
      ensures old(pool).None? && !reachable ==>
        r == None && pool == None && poolsCreated == old(poolsCreated) && log == old(log)
    {
      if pool.None? {
        if !reachable {
          return None;
        }
        pool := Some(Pool(poolsCreated, 1, 5));
        poolsCreated := poolsCreated + 1;
        log := log + [PoolConnected];
      }
      r := pool;
    }

    /** `create_tables`: without a pool the error is caught and logged and no
        table is created; otherwise `CREATE TABLE IF NOT EXISTS` leaves an
        existing table as it is. */
    method CreateTables()
      requires Valid()
      modifies this
      ensures Valid()
      ensures pool == old(pool) && poolsCreated == old(poolsCreated) && batches == old(batches)
      ensures old(pool).None? ==> table == old(table) && log == old(log) + [TableNotCreated]
      ensures old(pool).Some? ==> table == old(table).(created := true) && log == old(log) + [TableCreated]
    {
      if pool.None? {
        log := log + [TableNotCreated];
        return;
      }
      table := table.(created := true);
      log := log + [TableCreated];
    }

    /** `insert_data(conn, rows, batch_size)`: raises before anything else when
        there is no pool (`conn` is ignored either way); slices `rows` at
        0, b, 2b, ... and executes each row of a slice on one acquired
        connection; a failing statement ends the run, is logged and yields None. */
    method InsertData(rows: seq<Row>, batchSize: int) returns (outcome: InsertOutcome)
      requires Valid()
      modifies this
      ensures Valid()
      ensures pool == old(pool) && poolsCreated == old(poolsCreated)
      ensures old(pool).None? ==>
        outcome == PoolMissing && table == old(table) && log == old(log) && batches == old(batches)
      ensures old(pool).Some? ==>
        var eff := InsertEffect(old(table), rows, batchSize);
        && outcome == eff.outcome && table == eff.table
        && batches == old(batches) + eff.batches && log == old(log) + FailureLog(eff.failure)
    {
      if pool.None? {
        return PoolMissing;
      }
      if batchSize == 0 {
        // range() refuses a zero step
        log := log + [InsertFailed(ZeroBatchSize)];
        return Swallowed;
      }
      if batchSize < 0 {
        return Attempted(0);
      }
      var failure, total := ExecuteChunks(rows, batchSize);
      if failure.Some? {
        log := log + [InsertFailed(failure.value)];
        return Swallowed;
      }
      return Attempted(total);
    }

    /** The loop of `insert_data` over `range(0, len(rows), batch_size)`: one
        acquisition per slice, stopping at the first failing statement;
        `total` counts the rows of completed slices. */
    method ExecuteChunks(rows: seq<Row>, batchSize: nat) returns (failure: Option<Failure>, total: nat)
      requires Valid() && batchSize > 0
      modifies this
      ensures Valid()
      ensures pool == old(pool) && poolsCreated == old(poolsCreated) && log == old(log)
      ensures var e := ExecuteRows(old(table), rows);
        && table == e.table && failure == e.failure
        && (failure.None? ==> total == |rows| && batches == old(batches) + Chunks(rows, batchSize))
        && (failure.Some? ==> batches == old(batches) + ChunksThrough(rows, batchSize, e.done))
    {
      failure := None;
      total := 0;
      var i := 0;
      ghost var done: seq<seq<Row>> := [];
      SliceProgressStart(rows, batchSize);
      assert rows[0..] == rows;
      while i < |rows|
        invariant SliceProgress(rows, batchSize, done, i)
        invariant ExecuteRows(old(table), rows) == Shifted(ExecuteRows(table, rows[i..]), i)
        invariant total == i && failure == None
        invariant pool == old(pool) && poolsCreated == old(poolsCreated) && log == old(log)
        invariant batches == old(batches) + done
        decreases |rows| - i
      {
        var hi;
        failure, hi := ExecuteSlice(old(table), rows, batchSize, done, i);
        if failure.Some? {
          ExecuteRowsValid(old(table), rows);
          return;
        }
        total := total + (hi - i);
        done := done + [rows[i..hi]];
        i := hi;
      }
      SliceProgressEnd(rows, batchSize, done);
      assert rows[i..] == [];
      ExecuteRowsValid(old(table), rows);
    }

    /** One iteration of that loop: the slice from `i` executed on its own
        connection, after which either the run has ended inside it or the
        slicing and the run have both moved on to `hi`. */
    method ExecuteSlice(ghost t0: Table, rows: seq<Row>, batchSize: nat, ghost done: seq<seq<Row>>, i: nat)
      returns (failure: Option<Failure>, hi: nat)
      requires batchSize > 0 && i < |rows| && SliceProgress(rows, batchSize, done, i)
      requires ExecuteRows(t0, rows) == Shifted(ExecuteRows(table, rows[i..]), i)
      modifies this
      ensures pool == old(pool) && poolsCreated == old(poolsCreated) && log == old(log)
      ensures hi == SliceEnd(|rows|, batchSize, i) && batches == old(batches) + [rows[i..hi]]
      ensures failure.None? ==>
        && SliceProgress(rows, batchSize, done + [rows[i..hi]], hi)
        && ExecuteRows(t0, rows) == Shifted(ExecuteRows(table, rows[hi..]), hi)
      ensures failure.Some? ==>
        var e0 := ExecuteRows(t0, rows);
        && table == e0.table && failure == e0.failure
        && ChunksThrough(rows, batchSize, e0.done) == done + [rows[i..hi]]
    {
      hi := SliceEnd(|rows|, batchSize, i);
      ghost var before := table;
      failure := ExecuteBatch(rows[i..hi]);
      if failure.Some? {
        SliceFails(t0, rows, batchSize, done, i, before);
      } else {
        SliceSucceeds(t0, rows, batchSize, done, i, before);
      }
    }

    /** One acquired connection executing the rows of a slice in order,
        stopping at the first statement that fails. */
    method ExecuteBatch(batch: seq<Row>) returns (failure: Option<Failure>)
      modifies this
      ensures pool == old(pool) && poolsCreated == old(poolsCreated) && log == old(log)
      ensures batches == old(batches) + [batch]
      ensures table == ExecuteRows(old(table), batch).table && failure == ExecuteRows(old(table), batch).failure
    {
      batches := batches + [batch];
      var k := 0;
      while k < |batch|
        invariant 0 <= k <= |batch|
        invariant pool == old(pool) && poolsCreated == old(poolsCreated) && log == old(log)
        invariant batches == old(batches) + [batch]
        invariant ExecuteRows(old(table), batch) == Shifted(ExecuteRows(table, batch[k..]), k)
        decreases |batch| - k
      {
        assert batch[k..][0] == batch[k] && batch[k..][1..] == batch[k + 1..];
        match InsertRow(table, batch[k])
        case Err(f) =>
          table := AfterFailure(table, f);
          return Some(f);
        case Ok(t') =>
          table := t';
        k := k + 1;
      }
      assert batch[k..] == [];
      return None;
    }
  }

  /** A slice that executes without failure: the slicing and the run both move on to its end. */
  lemma SliceSucceeds(t0: Table, rows: seq<Row>, b: nat, done: seq<seq<Row>>, i: nat, t: Table)
    requires b > 0 && i < |rows| && SliceProgress(rows, b, done, i)
    requires ExecuteRows(t0, rows) == Shifted(ExecuteRows(t, rows[i..]), i)
    requires ExecuteRows(t, rows[i..SliceEnd(|rows|, b, i)]).failure.None?
    ensures var hi := SliceEnd(|rows|, b, i);
      && SliceProgress(rows, b, done + [rows[i..hi]], hi)
      && ExecuteRows(t0, rows) == Shifted(ExecuteRows(ExecuteRows(t, rows[i..hi]).table, rows[hi..]), hi)
  {
    RunSplit(t0, rows, i, SliceEnd(|rows|, b, i), t);
    SliceProgressStep(rows, b, done, i);
  }

  /** A slice that fails: the run ends inside it, with the slices executed
      so far being those through the failing row. */
  lemma SliceFails(t0: Table, rows: seq<Row>, b: nat, done: seq<seq<Row>>, i: nat, t: Table)
    requires b > 0 && i < |rows| && SliceProgress(rows, b, done, i)
    requires ExecuteRows(t0, rows) == Shifted(ExecuteRows(t, rows[i..]), i)
    requires ExecuteRows(t, rows[i..SliceEnd(|rows|, b, i)]).failure.Some?
    ensures var hi := SliceEnd(|rows|, b, i);
      var e0, e := ExecuteRows(t0, rows), ExecuteRows(t, rows[i..hi]);
      && e0.table == e.table && e0.failure == e.failure
      && ChunksThrough(rows, b, e0.done) == done + [rows[i..hi]]
  {
    var hi := SliceEnd(|rows|, b, i);
    RunStops(t0, rows, i, hi, t);
    SliceProgressStop(rows, b, done, i, ExecuteRows(t0, rows).done);
  }

  /** Finishing a run from position `i` is running the next slice and then finishing from its end. */
  lemma RunSplit(t0: Table, rows: seq<Row>, i: nat, hi: nat, t: Table)
    requires i <= hi <= |rows|
    requires ExecuteRows(t0, rows) == Shifted(ExecuteRows(t, rows[i..]), i)
    requires ExecuteRows(t, rows[i..hi]).failure.None?
    ensures ExecuteRows(t0, rows) == Shifted(ExecuteRows(ExecuteRows(t, rows[i..hi]).table, rows[hi..]), hi)
  {
    assert rows[i..] == rows[i..hi] + rows[hi..];
    ExecuteRowsAppend(t, rows[i..hi], rows[hi..]);
  }

  /** When the slice from `i` to `hi` fails, the whole run stops inside it, with its outcome. */
  lemma RunStops(t0: Table, rows: seq<Row>, i: nat, hi: nat, t: Table)
    requires i <= hi <= |rows|
    requires ExecuteRows(t0, rows) == Shifted(ExecuteRows(t, rows[i..]), i)
    requires ExecuteRows(t, rows[i..hi]).failure.Some?
    ensures var e0, e := ExecuteRows(t0, rows), ExecuteRows(t, rows[i..hi]);
      e0.table == e.table && e0.failure == e.failure && i <= e0.done < hi
  {
    assert rows[i..] == rows[i..hi] + rows[hi..];
    ExecuteRowsAppend(t, rows[i..hi], rows[hi..]);
  }

  /** A run's outcome, counted from an earlier position. */
  function Shifted(e: Executed, offset: nat): Executed
  {
    e.(done := offset + e.done)
  }

  // ---------------------------------------------------------------------------
  // Properties of insert_data

  /** How rows are sliced into acquisitions does not change the table or the
      result: every positive batch size gives the same effect on the data. */
  lemma BatchSizeIrrelevant(t: Table, rows: seq<Row>, b1: int, b2: int)
    requires b1 > 0 && b2 > 0
    ensures InsertEffect(t, rows, b1).table == InsertEffect(t, rows, b2).table
    ensures InsertEffect(t, rows, b1).outcome == InsertEffect(t, rows, b2).outcome
  {
  }

  /** The slices executed cover the rows exactly once and in order, every
      slice but the last holds `batch_size` rows, and on a failure they stop
      at the slice holding the failing row. */
  lemma InsertBatches(t: Table, rows: seq<Row>, b: int)
    requires b > 0
    ensures var eff := InsertEffect(t, rows, b);
      && (forall i :: 0 <= i < |eff.batches| ==> 0 < |eff.batches[i]| <= b)
      && (forall i :: 0 <= i < |eff.batches| - 1 ==> |eff.batches[i]| == b)
      && |eff.batches| <= |Chunks(rows, b)| && eff.batches == Chunks(rows, b)[..|eff.batches|]
      && (eff.failure.None? ==> eff.batches == Chunks(rows, b))
  {
    var eff := InsertEffect(t, rows, b);
    ChunksCover(rows, b);
    var e := ExecuteRows(t, rows);
    if e.failure.Some? {
      ChunksThroughPrefix(rows, b, e.done);
    }
  }

  /** A failing row: the rows before it stay stored, the rows after it are
      not attempted, the call returns None and the failure is the one logged;
      the table is the one the earlier rows left, less any id the failed
      statement used up. */
  lemma InsertFailure(t: Table, rows: seq<Row>, b: int)
    requires b > 0
    requires InsertEffect(t, rows, b).outcome == Swallowed
    ensures var e := ExecuteRows(t, rows);
      var before := ExecuteRows(t, rows[..e.done]).table;
      && e.done < |rows|
      && InsertEffect(t, rows, b).failure.Some?
      && InsertEffect(t, rows, b).table == AfterFailure(before, InsertEffect(t, rows, b).failure.value)
      && InsertRow(before, rows[e.done]) == Err(InsertEffect(t, rows, b).failure.value)
      && forall more: seq<Row> {:trigger rows[..e.done + 1] + more} :: InsertEffect(t, rows[..e.done + 1] + more, b).table == InsertEffect(t, rows, b).table
  {
    var e := ExecuteRows(t, rows);
    forall more: seq<Row> {:trigger rows[..e.done + 1] + more}
      ensures InsertEffect(t, rows[..e.done + 1] + more, b).table == InsertEffect(t, rows, b).table
    {
      FailureStopsRun(t, rows, more);
    }
    FailureStopsRun(t, rows, []);
    ExecuteRowsStops(t, rows);
  }

  /** Every stored row's `record_year` is the year of its `record_date`: rows
      written by `insert_data` always carry a date, so never the 0 of the COALESCE. */
  lemma StoredYear(t: Table, rows: seq<Row>, b: int)
    requires TableValid(t)
    requires forall i :: 0 <= i < |t.rows| ==> t.rows[i].content.recordDate.Some?
    ensures var u := InsertEffect(t, rows, b).table;
      forall i :: 0 <= i < |u.rows| ==>
        u.rows[i].content.recordDate.Some? && u.rows[i].recordYear == u.rows[i].content.recordDate.value.year
  {
    if b > 0 {
      var u := ExecuteRows(t, rows).table;
      assert InsertEffect(t, rows, b).table == u;
      ExecuteRowsValid(t, rows);
      assert forall j :: 0 <= j < |t.rows| ==> t.rows[j].content.recordDate.Some?;
      StoredDates(t, rows);
      assert var u2 := ExecuteRows(t, rows).table; forall j :: 0 <= j < |u2.rows| ==> u2.rows[j].content.recordDate.Some?;
      assert forall j :: 0 <= j < |u.rows| ==> u.rows[j].content.recordDate.Some?;
      forall i | 0 <= i < |u.rows|
        ensures u.rows[i].content.recordDate.Some? && u.rows[i].recordYear == u.rows[i].content.recordDate.value.year
      {
        assert u.rows[i].content.recordDate.Some?;
        assert u.rows[i].recordYear == RecordYear(u.rows[i].content.recordDate);
      }
    }
  }

  lemma {:induction false} StoredDates(t: Table, rows: seq<Row>)
    requires forall i :: 0 <= i < |t.rows| ==> t.rows[i].content.recordDate.Some?
    ensures var u := ExecuteRows(t, rows).table;
      forall i :: 0 <= i < |u.rows| ==> u.rows[i].content.recordDate.Some?
    decreases |rows|
  {
    if rows != [] && InsertRow(t, rows[0]).Ok? {
      var t' := InsertRow(t, rows[0]).value;
      forall i | 0 <= i < |t'.rows|
        ensures t'.rows[i].content.recordDate.Some?
      {
        if i >= |t.rows| {
          assert t'.rows[i].content == Coerce(rows[0]).value;
        }
      }
      StoredDates(t', rows[1..]);
      assert ExecuteRows(t, rows).table == ExecuteRows(t', rows[1..]).table;
    }
  }

  /** A statement the CHECK constraint rejects. The row before it is stored,
      the row after it is not attempted, and the call returns None; the
      rejected row used up id 2, so the next row would get id 3. */
  lemma CheckViolationExample()
    ensures var good := Row(Date(2024, 1, 31), JStr("Marketable"), JStr("Treasury Bills"), Decimal(5125, 5));
      var bad := Row(Date(2024, 1, 31), JStr("Bills"), JStr("Treasury Bills"), Decimal(5125, 5));
      var t := EmptyTable(SurrogateKeyOnly).(created := true);
      var eff := InsertEffect(t, [good, bad, good], 200);
      && eff.outcome == Swallowed && eff.failure == Some(CheckViolation)
      && |eff.table.rows| == 1 && eff.table.rows[0].content == Coerce(good).value
      && eff.table.nextId == 3
  {
    var good := Row(Date(2024, 1, 31), JStr("Marketable"), JStr("Treasury Bills"), Decimal(5125, 5));
    var bad := Row(Date(2024, 1, 31), JStr("Bills"), JStr("Treasury Bills"), Decimal(5125, 5));
    var t := EmptyTable(SurrogateKeyOnly).(created := true);
    assert Coerce(good).Ok?;
    assert Coerce(bad) == Err(CheckViolation) by {
      assert "Bills" !in AllowedTypes;
    }
    var t1 := InsertRow(t, good).value;
    assert [good, bad, good][1..] == [bad, good];
    assert ExecuteRows(t1, [bad, good]) == Executed(t1.(nextId := 3), Some(CheckViolation), 0);
  }

  /** The count returned includes rows skipped by ON CONFLICT: under a natural
      key, the same row twice in one call stores one row and reports two. */
  lemma AttemptedCountsSkipped()
    ensures var r := Row(Date(2024, 1, 31), JStr("Marketable"), JStr("Treasury Bills"), Decimal(5125, 5));
      var eff := InsertEffect(EmptyTable(NaturalKey).(created := true), [r, r], 200);
      eff.outcome == Attempted(2) && |eff.table.rows| == 1
  {
    var r := Row(Date(2024, 1, 31), JStr("Marketable"), JStr("Treasury Bills"), Decimal(5125, 5));
    var t := EmptyTable(NaturalKey).(created := true);
    assert Coerce(r).Ok?;
    var t1 := InsertRow(t, r).value;
    assert |t1.rows| == 1 && t1.rows[0].content == Coerce(r).value;
    SameKeyReflexive(Coerce(r).value);
    assert SameKey(t1.rows[0].content, Coerce(r).value);
    assert Conflicts(t1, Coerce(r).value);
    assert [r, r][1..] == [r];
  }

  /** Without a pool `insert_data` raises and the database is untouched;
      `create_tables` without a pool creates nothing. */
  method NoPoolExample() returns (outcome: InsertOutcome, stillMissing: bool)
    ensures outcome == PoolMissing && stillMissing
  {
    var db := new Database(SurrogateKeyOnly, false);
    db.CreateTables();
    var r := Row(Date(2024, 1, 31), JStr("Marketable"), JStr("Treasury Bills"), Decimal(5125, 5));
    outcome := db.InsertData([r], 200);
    stillMissing := !db.table.created && db.table.rows == [];
  }

  /** Repeated `connect_to_db` calls return the same pool and create it once. */
  method ConnectTwiceExample() returns (first: Option<Pool>, second: Option<Pool>, created: nat)
    ensures first.Some? && first == second && created == 1
  {
    var db := new Database(SurrogateKeyOnly, true);
    first := db.ConnectToDb(true);
    second := db.ConnectToDb(true);
    created := db.poolsCreated;
  }
}
