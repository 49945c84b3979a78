/** The table `avg_us_securities_2001_present` as the DDL in Data/db_conn.py
    declares it, and what one `INSERT ... VALUES ($1, $2, $3, $4) ON CONFLICT
    DO NOTHING` does to it (Data/db_conn.py:29-37, 50-57). The rows are kept in
    insertion order with the `record_id` the SERIAL sequence gave them. */
module Store {
  import opened Records

  /** The unique constraints the table carries, which are what `ON CONFLICT
      DO NOTHING` (without a conflict target) tests: the DDL as written declares
      only `record_id SERIAL PRIMARY KEY`; `NaturalKey` adds a UNIQUE constraint
      over (record_date, security_type_desc, security_desc, avg_interest_rate_amt). */
  datatype UniqueKeys = SurrogateKeyOnly | NaturalKey

  /** The four supplied columns of a row as the table holds them. */
  datatype Content = Content(recordDate: Option<Date>, securityType: Option<string>, security: Option<string>, rate: Decimal)

  /** A stored row: the sequence-assigned id, the generated `record_year`, the content. */
  datatype StoredRow = StoredRow(id: nat, recordYear: int, content: Content)

  datatype Table = Table(keys: UniqueKeys, created: bool, rows: seq<StoredRow>, nextId: nat)

  /** Why a statement fails: the table is missing, asyncpg cannot encode a
      text argument, a text is too long for VARCHAR(100), the CHECK on
      `security_type_desc` rejects it, or `range()` was given a zero step. */
  datatype Failure = UndefinedTable | DataError | StringTooLong | CheckViolation | ZeroBatchSize

  const MaxText := 100

  /** CHECK(security_type_desc IN ('Marketable','Non-marketable','Interest-bearing Debt')). */
  const AllowedTypes: set<string> := {"Marketable", "Non-marketable", "Interest-bearing Debt"}

  function EmptyTable(keys: UniqueKeys): Table
  {
    Table(keys, false, [], 1)
  }

  /** `record_year INT GENERATED ALWAYS AS (COALESCE(EXTRACT(YEAR FROM record_date)::INT, 0))`. */
  function RecordYear(d: Option<Date>): int
  {
    if d.Some? then d.value.year else 0
  }

  /** A Python value bound to a text parameter: str is sent as text, None as
      NULL, anything else makes asyncpg raise before the statement runs. */
  function BindText(v: JValue): Result<Option<string>, Failure>
  {
    match v
    case JStr(s) => Ok(Some(s))
    case JNull => Ok(None)
    case JOther(_) => Err(DataError)
  }

  /** Assignment to VARCHAR(100): longer values are an error unless every
      excess character is a space, in which case they are cut off. */
  function Varchar(v: Option<string>): (r: Result<Option<string>, Failure>)
    ensures r.Ok? && r.value.Some? ==> |r.value.value| <= MaxText
  {
    match v
    case None => Ok(None)
    case Some(s) =>
      if |s| <= MaxText then Ok(Some(s))
      else if forall i :: MaxText <= i < |s| ==> s[i] == ' ' then Ok(Some(s[..MaxText]))
      else Err(StringTooLong)
  }

  predicate CheckAllows(t: Option<string>)
  {
    t.None? || t.value in AllowedTypes
  }

  predicate TextFits(t: Option<string>)
  {
    t.None? || |t.value| <= MaxText
  }

  /** The content a buffered row takes in the table, or why its statement fails
      before any row is written: encoding, then assignment, then the CHECK. */
  function Coerce(r: Row): (c: Result<Content, Failure>)
    ensures c.Ok? ==> CheckAllows(c.value.securityType) && TextFits(c.value.securityType) && TextFits(c.value.security)
    ensures c.Ok? ==> c.value.recordDate == Some(r.recordDate) && c.value.rate == r.rate
  {
    match BindText(r.securityType)
    case Err(f) => Err(f)
    case Ok(t0) =>
      match BindText(r.security)
      case Err(f) => Err(f)
      case Ok(s0) =>
        match Varchar(t0)
        case Err(f) => Err(f)
        case Ok(t) =>
          match Varchar(s0)
          case Err(f) => Err(f)
          case Ok(s) =>
            if !CheckAllows(t) then Err(CheckViolation)
            else Ok(Content(Some(r.recordDate), t, s, r.rate))
  }

  /** `u` times ten to the `s`, by repeated multiplication by ten. */
  function Shift(u: int, s: nat): int
  {
    if s == 0 then u else 10 * Shift(u, s - 1)
  }

  lemma {:induction false} ShiftIsProduct(u: int, s: nat)
    ensures Shift(u, s) == u * Pow10(s)
  {
    if s > 0 {
      ShiftIsProduct(u, s - 1);
      assert u * Pow10(s) == 10 * (u * Pow10(s - 1));
    }
  }

  /** Numeric equality of two decimals, as the DECIMAL column compares them:
      the units agree once both are brought to the larger scale. */
  predicate SameValue(a: Decimal, b: Decimal)
  {
    Shift(a.units, b.scale) == Shift(b.units, a.scale)
  }

  /** Two decimals compare equal exactly when they denote the same number. */
  lemma SameValueIsEquality(a: Decimal, b: Decimal)
    ensures SameValue(a, b) <==> Value(a) == Value(b)
  {
    ShiftIsProduct(a.units, b.scale);
    ShiftIsProduct(b.units, a.scale);
    CrossMultiply(a.units, Pow10(a.scale), b.units, Pow10(b.scale));
  }

  lemma CrossMultiply(x: int, p: nat, y: int, q: nat)
    requires p > 0 && q > 0
    ensures x as real / p as real == y as real / q as real <==> x * q == y * p
  {
    var xr, pr, yr, qr := x as real, p as real, y as real, q as real;
    assert xr / pr * (pr * qr) == xr * qr;
    assert yr / qr * (pr * qr) == yr * pr;
    assert (x * q) as real == xr * qr && (y * p) as real == yr * pr;
  }

  /** Two contents collide on the natural-key constraint: every key column is
      non-NULL in both (PostgreSQL treats NULLs as distinct) and equal. */
  predicate SameKey(a: Content, b: Content)
  {
    && a.recordDate.Some? && a.recordDate == b.recordDate
    && a.securityType.Some? && a.securityType == b.securityType
    && a.security.Some? && a.security == b.security
    && SameValue(a.rate, b.rate)
  }

  /** The candidate row about to get id `t.nextId` violates a unique constraint. */
  predicate Conflicts(t: Table, c: Content)
  {
    || (exists i :: 0 <= i < |t.rows| && t.rows[i].id == t.nextId)
    || (t.keys == NaturalKey && exists i :: 0 <= i < |t.rows| && SameKey(t.rows[i].content, c))
  }

  /** One INSERT ... ON CONFLICT DO NOTHING in autocommit mode. The default
      `nextval` is drawn before the conflict test, so a skipped row still uses up an id. */
  function InsertRow(t: Table, r: Row): Result<Table, Failure>
  {
    if !t.created then Err(UndefinedTable)
    else match Coerce(r)
      case Err(f) => Err(f)
      case Ok(c) =>
        if Conflicts(t, c) then Ok(t.(nextId := t.nextId + 1))
        else Ok(t.(rows := t.rows + [StoredRow(t.nextId, RecordYear(c.recordDate), c)], nextId := t.nextId + 1))
  }

  /** Whether a statement that failed with `f` had already drawn its id: the
      missing table and the bind error stop it before execution, while the
      VARCHAR assignment and the CHECK run on a row whose default `nextval`
      was already evaluated, and a sequence increment is never rolled back. */
  predicate DrawsId(f: Failure)
  {
    f == StringTooLong || f == CheckViolation
  }

  /** The table after a statement that failed with `f`: no row changes, and
      the sequence has moved on when the id was drawn. */
  function AfterFailure(t: Table, f: Failure): Table
  {
    if DrawsId(f) then t.(nextId := t.nextId + 1) else t
  }

  /** An INSERT fails exactly when the table is missing or the row cannot be
      stored; a failed one leaves the rows as they were and uses up an id
      exactly when both text arguments were bound and the table exists.
      Otherwise it draws one id, and it adds the row under that id unless the
      row conflicts, in which case the rows stay as they were. */
  lemma InsertRowOutcome(t: Table, r: Row)
    ensures var res := InsertRow(t, r);
      && (res.Err? <==> !t.created || Coerce(r).Err?)
      && (res.Err? ==> var u := AfterFailure(t, res.error);
            && u.rows == t.rows && u.keys == t.keys && u.created == t.created
            && (u.nextId == t.nextId || u.nextId == t.nextId + 1)
            && (u.nextId == t.nextId + 1 <==> t.created && BindText(r.securityType).Ok? && BindText(r.security).Ok?))
      && (res.Ok? ==> res.value.keys == t.keys && res.value.created == t.created && res.value.nextId == t.nextId + 1)
      && (res.Ok? && Conflicts(t, Coerce(r).value) ==> res.value.rows == t.rows)
      && (res.Ok? && !Conflicts(t, Coerce(r).value) ==>
            res.value.rows == t.rows + [StoredRow(t.nextId, RecordYear(Some(r.recordDate)), Coerce(r).value)])
  {
  }

  /** The outcome of executing rows one after another: the table afterwards
      (with the id a failed statement may have used up), the failure that
      stopped the run if any, and how many rows succeeded. */
  datatype Executed = Executed(table: Table, failure: Option<Failure>, done: nat)

  function ExecuteRows(t: Table, rows: seq<Row>): (e: Executed)
    ensures e.done <= |rows|
    ensures e.failure.None? <==> e.done == |rows|
    ensures e.table.keys == t.keys && e.table.created == t.created
    decreases |rows|
  {
    if rows == [] then Executed(t, None, 0)
    else match InsertRow(t, rows[0])
      case Err(f) => Executed(AfterFailure(t, f), Some(f), 0)
      case Ok(t') =>
        var e := ExecuteRows(t', rows[1..]);
        e.(done := e.done + 1)
  }

  /** A run that stops does so at the row with index `done`, whose INSERT fails
      against the table the earlier rows left; the run ends with that table
      as the failed statement left it. */
  lemma {:induction false} ExecuteRowsStops(t: Table, rows: seq<Row>)
    ensures var e := ExecuteRows(t, rows);
      e.failure.Some? ==>
        var before := ExecuteRows(t, rows[..e.done]);
        && before.failure.None? && before.done == e.done
        && InsertRow(before.table, rows[e.done]) == Err(e.failure.value)
        && e.table == AfterFailure(before.table, e.failure.value)
    decreases |rows|
  {
    if rows != [] {
      if InsertRow(t, rows[0]).Ok? {
        var t' := InsertRow(t, rows[0]).value;
        ExecuteRowsStops(t', rows[1..]);
        var e := ExecuteRows(t', rows[1..]);
        if e.failure.Some? {
          assert rows[1..][e.done] == rows[e.done + 1];
          assert rows[..e.done + 1][0] == rows[0] && rows[..e.done + 1][1..] == rows[1..][..e.done];
        }
      } else {
        assert rows[..0] == [];
      }
    }
  }

  /** The table invariant: no rows before the table exists; ids increasing and
      below the sequence's next value; `record_year` derived from the date;
      the CHECK and the VARCHAR bounds hold; the natural key, when declared, unique. */
  ghost predicate TableValid(t: Table)
  {
    && (!t.created ==> t.rows == [])
    && (forall i :: 0 <= i < |t.rows| ==> t.rows[i].id < t.nextId)
    && (forall i, j :: 0 <= i < j < |t.rows| ==> t.rows[i].id < t.rows[j].id)
    && (forall i :: 0 <= i < |t.rows| ==> t.rows[i].recordYear == RecordYear(t.rows[i].content.recordDate))
    && (forall i :: 0 <= i < |t.rows| ==> CheckAllows(t.rows[i].content.securityType))
    && (forall i :: 0 <= i < |t.rows| ==> TextFits(t.rows[i].content.securityType) && TextFits(t.rows[i].content.security))
    && (t.keys == NaturalKey ==>
          forall i, j :: 0 <= i < j < |t.rows| ==> !SameKey(t.rows[i].content, t.rows[j].content))
  }

  function Contents(t: Table): (cs: seq<Content>)
    ensures |cs| == |t.rows| && forall i :: 0 <= i < |t.rows| ==> cs[i] == t.rows[i].content
  {
    seq(|t.rows|, i requires 0 <= i < |t.rows| => t.rows[i].content)
  }

  // ---------------------------------------------------------------------------
  // Properties of the table and of executing rows

  lemma EmptyTableValid(keys: UniqueKeys)
    ensures TableValid(EmptyTable(keys)) && Contents(EmptyTable(keys)) == []
  {
  }

  /** One INSERT keeps the table invariant. */
  lemma InsertRowValid(t: Table, r: Row)
    requires TableValid(t) && InsertRow(t, r).Ok?
    ensures TableValid(InsertRow(t, r).value)
  {
    var c := Coerce(r).value;
    if !Conflicts(t, c) {
      var t' := InsertRow(t, r).value;
      assert t'.rows == t.rows + [StoredRow(t.nextId, RecordYear(c.recordDate), c)];
      if t.keys == NaturalKey {
        forall i, j | 0 <= i < j < |t'.rows|
          ensures !SameKey(t'.rows[i].content, t'.rows[j].content)
        {
          if j == |t.rows| {
            assert !SameKey(t.rows[i].content, c);
          }
        }
      }
    }
  }

  /** Executing rows keeps the table invariant. */
  lemma {:induction false} ExecuteRowsValid(t: Table, rows: seq<Row>)
    requires TableValid(t)
    ensures TableValid(ExecuteRows(t, rows).table)
    decreases |rows|
  {
    if rows != [] && InsertRow(t, rows[0]).Ok? {
      InsertRowValid(t, rows[0]);
      ExecuteRowsValid(InsertRow(t, rows[0]).value, rows[1..]);
    } else if rows != [] {
      FailureValid(t, InsertRow(t, rows[0]).error);
    }
  }

  /** A failed statement keeps the table invariant. */
  lemma FailureValid(t: Table, f: Failure)
    requires TableValid(t)
    ensures TableValid(AfterFailure(t, f))
  {
  }

  /** Rows are only ever appended: what was stored before stays stored,
      unchanged and in place, whatever later statements do or fail to do. */
  lemma {:induction false} ExecuteRowsAppendOnly(t: Table, rows: seq<Row>)
    ensures |ExecuteRows(t, rows).table.rows| >= |t.rows|
    ensures ExecuteRows(t, rows).table.rows[..|t.rows|] == t.rows
    ensures ExecuteRows(t, rows).table.nextId >= t.nextId
    decreases |rows|
  {
    if rows != [] && InsertRow(t, rows[0]).Ok? {
      var t' := InsertRow(t, rows[0]).value;
      ExecuteRowsAppendOnly(t', rows[1..]);
      var u := ExecuteRows(t', rows[1..]).table;
      assert u.rows[..|t'.rows|][..|t.rows|] == u.rows[..|t.rows|];
    }
  }

  /** Running rows then more rows is running them all, unless the first part
      already stopped at a failure. */
  lemma {:induction false} ExecuteRowsAppend(t: Table, a: seq<Row>, b: seq<Row>)
    ensures var ea := ExecuteRows(t, a);
      ExecuteRows(t, a + b) ==
        if ea.failure.Some? then ea
        else var eb := ExecuteRows(ea.table, b); eb.(done := |a| + eb.done)
    decreases |a|
  {
    if a == [] {
      assert a + b == b;
    } else {
      assert (a + b)[0] == a[0] && (a + b)[1..] == a[1..] + b;
      if InsertRow(t, a[0]).Ok? {
        ExecuteRowsAppend(InsertRow(t, a[0]).value, a[1..], b);
      }
    }
  }

  /** A failing row ends the run: the rows before it were all executed and
      the rows after it were not attempted. */
  lemma FailureStopsRun(t: Table, rows: seq<Row>, more: seq<Row>)
    requires ExecuteRows(t, rows).failure.Some?
    ensures var e := ExecuteRows(t, rows);
      var before := ExecuteRows(t, rows[..e.done]);
      && before.failure.None? && before.done == e.done
      && InsertRow(before.table, rows[e.done]).Err?
      && e.table == AfterFailure(before.table, e.failure.value)
      && ExecuteRows(t, rows[..e.done + 1] + more) == e
  {
    var e := ExecuteRows(t, rows);
    var k := e.done;
    ExecuteRowsStops(t, rows);
    assert rows[..k + 1] + more == rows[..k] + ([rows[k]] + more);
    ExecuteRowsAppend(t, rows[..k], [rows[k]] + more);
    assert ([rows[k]] + more)[0] == rows[k];
  }

  /** With only the surrogate key every id is new, so nothing ever conflicts. */
  lemma NoConflictUnderSurrogateKey(t: Table, c: Content)
    requires TableValid(t) && t.keys == SurrogateKeyOnly
    ensures !Conflicts(t, c)
  {
  }

  function StoredContents(rows: seq<Row>): seq<Content>
    requires forall i :: 0 <= i < |rows| ==> Coerce(rows[i]).Ok?
  {
    if rows == [] then [] else [Coerce(rows[0]).value] + StoredContents(rows[1..])
  }

  /** With only the surrogate key, every row that executes is appended:
      the table ends with exactly the contents of the executed rows added. */
  lemma {:induction false} SurrogateKeyAppendsAll(t: Table, rows: seq<Row>)
    requires TableValid(t) && t.keys == SurrogateKeyOnly && t.created
    requires forall i :: 0 <= i < |rows| ==> Coerce(rows[i]).Ok?
    ensures ExecuteRows(t, rows).failure.None?
    ensures Contents(ExecuteRows(t, rows).table) == Contents(t) + StoredContents(rows)
    decreases |rows|
  {
    if rows != [] {
      var c := Coerce(rows[0]).value;
      NoConflictUnderSurrogateKey(t, c);
      var t' := InsertRow(t, rows[0]).value;
      InsertRowValid(t, rows[0]);
      assert Contents(t') == Contents(t) + [c];
      SurrogateKeyAppendsAll(t', rows[1..]);
    }
  }

  // ---------------------------------------------------------------------------
  // Re-ingestion: ON CONFLICT DO NOTHING is idempotent only with a natural key

  /** As the DDL is written, running the same rows a second time stores every
      one of them again: the table holds each content twice. */
  lemma {:induction false} ReingestDuplicates(t: Table, rows: seq<Row>)
    requires TableValid(t) && t.keys == SurrogateKeyOnly && t.created
    requires forall i :: 0 <= i < |rows| ==> Coerce(rows[i]).Ok?
    ensures var once := ExecuteRows(t, rows).table;
      var twice := ExecuteRows(once, rows).table;
      && Contents(twice) == Contents(t) + StoredContents(rows) + StoredContents(rows)
      && (rows != [] ==> |twice.rows| > |once.rows|)
  {
    var once := ExecuteRows(t, rows).table;
    SurrogateKeyAppendsAll(t, rows);
    ExecuteRowsValid(t, rows);
    SurrogateKeyAppendsAll(once, rows);
    if rows != [] {
      assert |StoredContents(rows)| > 0;
    }
  }

  /** A concrete row that the as-written table stores twice when ingested twice. */
  lemma ReingestDuplicatesExample()
    ensures var r := Row(Date(2024, 1, 31), JStr("Marketable"), JStr("Treasury Bills"), Decimal(5125, 5));
      var once := ExecuteRows(EmptyTable(SurrogateKeyOnly).(created := true), [r]).table;
      var twice := ExecuteRows(once, [r]).table;
      |once.rows| == 1 && |twice.rows| == 2 && twice.rows[0].content == twice.rows[1].content
  {
    var r := Row(Date(2024, 1, 31), JStr("Marketable"), JStr("Treasury Bills"), Decimal(5125, 5));
    var t := EmptyTable(SurrogateKeyOnly).(created := true);
    assert Coerce(r).Ok?;
    ReingestDuplicates(t, [r]);
    assert StoredContents([r]) == [Coerce(r).value];
  }

  /** The row's content was stored under the natural key (some stored row collides with it). */
  ghost predicate Covered(t: Table, c: Content)
  {
    exists i :: 0 <= i < |t.rows| && SameKey(t.rows[i].content, c)
  }

  predicate NoNullKey(r: Row)
  {
    r.securityType.JStr? && r.security.JStr?
  }

  lemma SameKeyReflexive(c: Content)
    requires c.recordDate.Some? && c.securityType.Some? && c.security.Some?
    ensures SameKey(c, c)
  {
  }

  /** After a run under the natural key, every row it executed is covered. */
  lemma {:induction false} FirstRunCovers(t: Table, rows: seq<Row>)
    requires TableValid(t) && t.keys == NaturalKey
    requires forall i :: 0 <= i < |rows| ==> NoNullKey(rows[i])
    ensures var e := ExecuteRows(t, rows);
      forall j :: 0 <= j < e.done ==> Coerce(rows[j]).Ok? && Covered(e.table, Coerce(rows[j]).value)
    decreases |rows|
  {
    var e := ExecuteRows(t, rows);
    if rows != [] && InsertRow(t, rows[0]).Ok? {
      var t' := InsertRow(t, rows[0]).value;
      var e' := ExecuteRows(t', rows[1..]);
      assert e.table == e'.table && e.done == e'.done + 1;
      InsertRowValid(t, rows[0]);
      InsertCovers(t, rows[0]);
      FirstRunCovers(t', rows[1..]);
      ExecuteRowsAppendOnly(t', rows[1..]);
      CoveredGrows(t', e'.table, Coerce(rows[0]).value);
      forall j | 0 <= j < e.done
        ensures Coerce(rows[j]).Ok? && Covered(e.table, Coerce(rows[j]).value)
      {
        if j > 0 {
          assert rows[1..][j - 1] == rows[j];
        }
      }
    }
  }

  /** A row that was inserted, or skipped for conflicting, has its key in the table. */
  lemma InsertCovers(t: Table, r: Row)
    requires TableValid(t) && t.keys == NaturalKey && NoNullKey(r) && InsertRow(t, r).Ok?
    ensures Coerce(r).Ok? && Covered(InsertRow(t, r).value, Coerce(r).value)
  {
    var t' := InsertRow(t, r).value;
    var c := Coerce(r).value;
    if Conflicts(t, c) {
      assert !exists i :: 0 <= i < |t.rows| && t.rows[i].id == t.nextId;
      var k :| 0 <= k < |t.rows| && SameKey(t.rows[k].content, c);
      assert SameKey(t'.rows[k].content, c);
    } else {
      SameKeyReflexive(c);
      assert t'.rows[|t.rows|].content == c;
    }
  }

  /** Rows only ever get appended, so a covered key stays covered. */
  lemma CoveredGrows(t1: Table, t2: Table, c: Content)
    requires |t2.rows| >= |t1.rows| && t2.rows[..|t1.rows|] == t1.rows
    requires Covered(t1, c)
    ensures Covered(t2, c)
  {
    var i :| 0 <= i < |t1.rows| && SameKey(t1.rows[i].content, c);
    assert t2.rows[i] == t2.rows[..|t1.rows|][i];
  }


  /** Under the natural key, replaying rows that are all covered, up to one
      that fails, changes no stored row. */
  lemma {:induction false} ReplayChangesNothing(u: Table, rows: seq<Row>, k: nat)
    requires u.keys == NaturalKey && k <= |rows|
    requires forall j :: 0 <= j < k ==> Coerce(rows[j]).Ok? && Covered(u, Coerce(rows[j]).value)
    requires k < |rows| ==> InsertRow(u, rows[k]).Err?
    ensures ExecuteRows(u, rows).table.rows == u.rows
    decreases |rows|
  {
    if rows != [] && k > 0 && u.created {
      var c := Coerce(rows[0]).value;
      assert Conflicts(u, c);
      var u' := InsertRow(u, rows[0]).value;
      assert u'.rows == u.rows;
      forall j | 0 <= j < k - 1
        ensures Coerce(rows[1..][j]).Ok? && Covered(u', Coerce(rows[1..][j]).value)
      {
        assert rows[1..][j] == rows[j + 1];
      }
      if k < |rows| {
        assert rows[1..][k - 1] == rows[k];
      }
      ReplayChangesNothing(u', rows[1..], k - 1);
    }
  }

  /** With a natural-key constraint, ingesting the same rows a second time
      leaves every stored row as the first run left it, even when the first
      run stopped at a failing row; only the id sequence moves on. */
  lemma {:induction false} ReingestIdempotent(t: Table, rows: seq<Row>)
    requires TableValid(t) && t.keys == NaturalKey
    requires forall i :: 0 <= i < |rows| ==> NoNullKey(rows[i])
    ensures var once := ExecuteRows(t, rows).table;
      ExecuteRows(once, rows).table.rows == once.rows
  {
    var e := ExecuteRows(t, rows);
    FirstRunCovers(t, rows);
    ExecuteRowsStops(t, rows);
    ReplayChangesNothing(e.table, rows, e.done);
  }
}
