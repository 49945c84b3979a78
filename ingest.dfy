/** `api_insertion` (Data/data.py:8-62): fetch pages of 100 items from page 1
    on, normalise every item into the buffer, hand the buffer to `insert_data`
    in slices of exactly `batch_size` rows whenever it holds that many, and
    flush what is left once pagination ends. The upstream is a given sequence
    of responses, the i-th answering the i-th request. */
module Ingest {
  import opened Records
  import opened Batching
  import opened Normalize
  import opened Store
  import opened DbConn

  /** What `response.json()` gives, as the loop reads it: `Page(items)` when
      `data` is a non-empty array of objects, and `Page([])` whenever `data`
      is falsy (absent, null, an empty array, object or string, 0, false),
      since `not items` then ends the run normally; `Unparsable` when the
      body is not a JSON object, or `data` is truthy but not an array of
      objects, so that `.get`, the iteration or `item[...]` raises and the
      run aborts. */
  datatype Body = Unparsable | Page(items: seq<RawItem>)

  /** One HTTP exchange: the request raised (timeout, connection), or a reply. */
  datatype Response = RequestFailed | Reply(status: int, body: Body)

  const PageSize: nat := 100

  /** The conversion of one item into a row (Data/data.py:32-40); every
      `Ingestion` uses `NormalizeItem`, and the loop is proved for any. */
  type Normalizer = RawItem -> Result<Row, ItemError>

  /** The rows of a page's items up to the first that cannot be normalised, and that item's error. */
  function NormalizePage(items: seq<RawItem>, norm: Normalizer): (r: (seq<Row>, Option<ItemError>))
    ensures |r.0| <= |items| && (r.1.None? <==> |r.0| == |items|)
  {
    if items == [] then ([], None)
    else match norm(items[0])
      case Err(e) => ([], Some(e))
      case Ok(row) =>
        var rest := NormalizePage(items[1..], norm);
        ([row] + rest.0, rest.1)
  }

  /** The reply ends pagination normally: a status other than 200, or an empty `data`. */
  predicate EndsNormally(r: Response)
  {
    r.Reply? && (r.status != 200 || (r.body.Page? && r.body.items == []))
  }

  /** The reply is a page whose items all normalise, so the loop goes on to the next page. */
  predicate Continues(r: Response, norm: Normalizer)
  {
    r.Reply? && r.status == 200 && r.body.Page? && r.body.items != [] && NormalizePage(r.body.items, norm).1.None?
  }

  function PageRows(r: Response, norm: Normalizer): seq<Row>
    requires Continues(r, norm)
  {
    NormalizePage(r.body.items, norm).0
  }

  /** The rows of consecutive continuing pages, in page-then-item order. */
  function RowsOf(rs: seq<Response>, n: nat, norm: Normalizer): seq<Row>
    requires n <= |rs| && forall i :: 0 <= i < n ==> Continues(rs[i], norm)
  {
    if n == 0 then [] else RowsOf(rs, n - 1, norm) + PageRows(rs[n - 1], norm)
  }

  /** The position of the response that ends the loop. */
  function StopIndex(rs: seq<Response>, norm: Normalizer): (k: nat)
    requires rs != [] && !Continues(rs[|rs| - 1], norm)
    ensures k < |rs| && !Continues(rs[k], norm)
    ensures forall i :: 0 <= i < k ==> Continues(rs[i], norm)
  {
    if !Continues(rs[0], norm) then 0
    else
      var k := StopIndex(rs[1..], norm);
      assert forall i :: 0 < i <= k ==> rs[i] == rs[1..][i - 1];
      1 + k
  }

  /** The query parameters of the first `n` requests: page size 100, pages 1 to n. */
  function Requests(n: nat): (q: seq<(nat, nat)>)
    ensures |q| == n && forall i :: 0 <= i < n ==> q[i] == (PageSize, i + 1)
  {
    if n == 0 then [] else Requests(n - 1) + [(PageSize, n)]
  }

  /** What a sequence of `insert_data` calls with a pool does to the database:
      the table after them, the failures they log, the slices they execute. */
  datatype Applied = Applied(table: Table, log: seq<LogEntry>, batches: seq<seq<Row>>)

  /** The first `n` of `calls` applied one after another, each by `step`. */
  function Fold(t: Table, calls: seq<seq<Row>>, n: nat, step: (Table, seq<Row>) -> Effect): Applied
    requires n <= |calls|
  {
    if n == 0 then Applied(t, [], [])
    else
      var a := Fold(t, calls, n - 1, step);
      var e := step(a.table, calls[n - 1]);
      Applied(e.table, a.log + FailureLog(e.failure), a.batches + e.batches)
  }

  /** One `insert_data(db_pool, rows, batch_size=b)` call once a pool exists. */
  function Step(b: int): (Table, seq<Row>) -> Effect
  {
    (t, rows) => InsertEffect(t, rows, b)
  }

  function ApplyCalls(t: Table, calls: seq<seq<Row>>, b: int): Applied
  {
    Fold(t, calls, |calls|, Step(b))
  }

  datatype Outcome = Running | Finished | Aborted

  /** The local state of one `api_insertion` run. */
  class Ingestion {
    /** The per-item conversion of lines 32-40: `NormalizeItem` for every instance. */
    const normalize: Normalizer
    /** `insertion_size`, the rows normalised and not yet handed on. */
    var buffer: seq<Row>
    var pageNum: nat
    var totalInserted: nat
    /** The (page[size], page[number]) parameters of every request sent. */
    var requests: seq<(nat, nat)>
    /** The rows of every `insert_data` call, in call order. */
    var calls: seq<seq<Row>>
    /** Finished: "FINISHED" was logged; Aborted: the outer handler caught an exception. */
    var outcome: Outcome

    constructor ()
      ensures normalize == NormalizeItem
      ensures buffer == [] && pageNum == 1 && totalInserted == 0
      ensures requests == [] && calls == [] && outcome == Running
    {
      normalize := NormalizeItem;
      buffer := [];
      pageNum := 1;
      totalInserted := 0;
      requests := [];
      calls := [];
      outcome := Running;
    }

    /** The database is what the `insert_data` calls so far made of the
        table `t0`, the log `log0` and the batches `batches0`. */
    ghost predicate Applies(db: Database, t0: Table, log0: seq<LogEntry>, batches0: seq<seq<Row>>, b: int)
      reads this, db
    {
      var a := ApplyCalls(t0, calls, b);
      db.table == a.table && db.log == log0 + a.log && db.batches == batches0 + a.batches
    }

    /** `api_insertion(batch_size)`. The run needs a response that ends the
        loop; a `batch_size` below 1 would make the drain loop spin forever. */
    method ApiInsertion(db: Database, responses: seq<Response>, batchSize: nat)
      requires db.Valid() && batchSize > 0
      requires responses != [] && !Continues(responses[|responses| - 1], normalize)
      modifies this, db
      ensures db.Valid()
      ensures db.pool == old(db.pool) && db.poolsCreated == old(db.poolsCreated)
      ensures outcome != Running
      ensures var k := StopIndex(responses, normalize);
        var rows := RowsOf(responses, k, normalize);
        old(db.pool).Some? ==>
          && requests == Requests(k + 1) && pageNum == k + 1
          && (EndsNormally(responses[k]) ==>
                outcome == Finished && calls == Chunks(rows, batchSize) && totalInserted == |rows|
                && buffer == Remainder(rows, batchSize))
          && (!EndsNormally(responses[k]) ==>
                && outcome == Aborted && calls == FullChunks(rows, batchSize)
                && totalInserted == |rows| - |Remainder(rows, batchSize)|
                && buffer == Remainder(rows, batchSize) + AbortedPageRows(responses[k], normalize))
          && var a := ApplyCalls(old(db.table), calls, batchSize);
             db.table == a.table && db.log == old(db.log) + a.log && db.batches == old(db.batches) + a.batches
      ensures old(db.pool).None? ==>
        && db.table == old(db.table) && db.log == old(db.log) && db.batches == old(db.batches)
        && totalInserted == 0 && |calls| <= 1 && (calls != [] ==> outcome == Aborted)
        && |requests| <= StopIndex(responses, normalize) + 1 && requests == Requests(|requests|)
    {
      buffer := [];
      pageNum := 1;
      totalInserted := 0;
      requests := [];
      calls := [];
      outcome := Running;
      ghost var t0, log0, batches0 := db.table, db.log, db.batches;
      assert log0 + [] == log0 && batches0 + [] == batches0;
      ghost var k := Paginate(db, responses, batchSize, t0, log0, batches0);
      if outcome == Running {
        Flush(db, batchSize, responses, k, t0, log0, batches0);
      }
    }

    /** The pagination loop (Data/data.py:20-51), from page 1 until the
        response at `k`, the one that ends it. */
    method Paginate(db: Database, responses: seq<Response>, b: nat,
                    ghost t0: Table, ghost log0: seq<LogEntry>, ghost batches0: seq<seq<Row>>)
      returns (ghost k: nat)
      requires db.Valid() && b > 0
      requires responses != [] && !Continues(responses[|responses| - 1], normalize)
      requires outcome == Running && requests == [] && pageNum == 1
      requires calls == [] && buffer == [] && totalInserted == 0
      requires db.table == t0 && db.log == log0 && db.batches == batches0
      requires db.pool.Some? ==> Applies(db, t0, log0, batches0, b)
      modifies this, db
      ensures k == StopIndex(responses, normalize)
      ensures db.Valid() && db.pool == old(db.pool) && db.poolsCreated == old(db.poolsCreated)
      ensures Paginated(db, responses, k, b, t0, log0, batches0)
    {
      k := StopIndex(responses, normalize);
      var i := 0;
      var stop := false;
      while !stop
        invariant 0 <= i <= k && (stop ==> i == k && EndsNormally(responses[k]))
        invariant outcome == Running
        invariant db.Valid() && db.pool == old(db.pool) && db.poolsCreated == old(db.poolsCreated)
        invariant requests == Requests(i + (if stop then 1 else 0)) && pageNum == i + 1
        invariant Progress(db, responses, i, b, t0, log0, batches0)
        decreases k - i, if stop then 0 else 1
      {
        stop := Turn(db, responses, i, k, b, t0, log0, batches0);
        if outcome != Running {
          return;
        }
        if !stop {
          i := i + 1;
        }
      }
      assert i == k && requests == Requests(k + 1);
    }

    /** Where the pagination loop leaves the run once the page at `k` ended
        it: every page up to `k` was requested (when there is no pool the run
        may have stopped earlier, at the first attempted call), and either
        the loop ended normally, with the rows of pages before `k` sent in
        full batches or buffered, or the run aborted. */
    ghost predicate Paginated(db: Database, responses: seq<Response>, k: nat, b: nat,
                              t0: Table, log0: seq<LogEntry>, batches0: seq<seq<Row>>)
      requires b > 0 && k < |responses| && forall j :: 0 <= j < k ==> Continues(responses[j], normalize)
      reads this, db
    {
      && outcome != Finished
      && (db.pool.Some? ==> requests == Requests(k + 1) && pageNum == k + 1)
      && (db.pool.None? ==>
            NoPool(db, t0, log0, batches0) && |requests| <= k + 1 && requests == Requests(|requests|))
      && (outcome == Running ==> EndsNormally(responses[k]) && Progress(db, responses, k, b, t0, log0, batches0))
      && (outcome == Aborted && db.pool.Some? ==> AbortedState(db, responses, k, b, t0, log0, batches0))
    }

    /** What the pagination loop keeps after the pages `done`: every row they
        gave is in a sent batch or in the buffer, the batches are full and the
        buffer is not, and the database holds what the batches did to it. */
    ghost predicate Progress(db: Database, responses: seq<Response>, n: nat, b: nat,
                             t0: Table, log0: seq<LogEntry>, batches0: seq<seq<Row>>)
      requires n <= |responses| && forall j :: 0 <= j < n ==> Continues(responses[j], normalize)
      reads this, db
    {
      && Flatten(calls) + buffer == RowsOf(responses, n, normalize)
      && (forall j :: 0 <= j < |calls| ==> |calls[j]| == b)
      && |buffer| < b && totalInserted == |Flatten(calls)|
      && (db.pool.None? ==> calls == [] && db.table == t0 && db.log == log0 && db.batches == batches0)
      && (db.pool.Some? ==> Applies(db, t0, log0, batches0, b))
    }

    /** Without a pool nothing reaches the database and nothing is counted;
        at most the one call that raised was attempted, and it ended the run. */
    ghost predicate NoPool(db: Database, t0: Table, log0: seq<LogEntry>, batches0: seq<seq<Row>>)
      reads this, db
    {
      && db.table == t0 && db.log == log0 && db.batches == batches0
      && totalInserted == 0 && |calls| <= 1 && (calls != [] ==> outcome == Aborted)
    }

    /** The state after the page at `k` aborted the run: the full batches of
        the earlier pages were sent, their remainder is still buffered with
        whatever the aborted page normalized, and the database holds what
        the batches did to it. */
    ghost predicate AbortedState(db: Database, responses: seq<Response>, k: nat, b: nat,
                                 t0: Table, log0: seq<LogEntry>, batches0: seq<seq<Row>>)
      requires b > 0 && k < |responses| && forall j :: 0 <= j < k ==> Continues(responses[j], normalize)
      reads this, db
    {
      && !EndsNormally(responses[k]) && Applies(db, t0, log0, batches0, b)
      && var rows := RowsOf(responses, k, normalize);
         && calls == FullChunks(rows, b) && totalInserted == |rows| - |Remainder(rows, b)|
         && buffer == Remainder(rows, b) + AbortedPageRows(responses[k], normalize)
    }

    /** One pass through the loop body at page `i + 1`, with what it does to
        the loop's bookkeeping. */
    method Turn(db: Database, responses: seq<Response>, i: nat, ghost k: nat, b: nat,
                ghost t0: Table, ghost log0: seq<LogEntry>, ghost batches0: seq<seq<Row>>)
      returns (stop: bool)
      requires responses != [] && !Continues(responses[|responses| - 1], normalize)
      requires k == StopIndex(responses, normalize) && i <= k
      requires db.Valid() && b > 0 && outcome == Running
      requires requests == Requests(i) && pageNum == i + 1
      requires Progress(db, responses, i, b, t0, log0, batches0)
      modifies this, db
      ensures db.Valid() && db.pool == old(db.pool) && db.poolsCreated == old(db.poolsCreated)
      ensures outcome == Running ==>
        && requests == Requests(i + 1)
        && (stop ==> i == k && EndsNormally(responses[k]) && pageNum == i + 1)
        && (!stop ==> i < k && pageNum == i + 2)
        && Progress(db, responses, if stop then i else i + 1, b, t0, log0, batches0)
      ensures outcome != Running ==> Paginated(db, responses, k, b, t0, log0, batches0)
    {
      ghost var callsBefore, bufferBefore := calls, buffer;
      stop := VisitPage(db, responses[i], b, t0, log0, batches0);
      if outcome != Running {
        if db.pool.Some? {
          assert !Continues(responses[i], normalize);
          assert i == k;
          AbortedAt(responses, i, callsBefore, bufferBefore, b, normalize);
        }
        return;
      }
      if !stop {
        PageDone(responses, i, callsBefore, bufferBefore, b, normalize);
      }
    }

    /** One turn of the pagination loop (Data/data.py:20-51): request page
        `pageNum`, then end the loop on `r`, abort the run, or take the
        page's rows; `stop` is set when the loop does not go on. */
    method VisitPage(db: Database, r: Response, b: nat,
                     ghost t0: Table, ghost log0: seq<LogEntry>, ghost batches0: seq<seq<Row>>)
      returns (stop: bool)
      requires db.Valid() && b > 0 && outcome == Running
      requires db.pool.Some? ==> Applies(db, t0, log0, batches0, b)
      modifies this, db
      ensures db.Valid() && db.pool == old(db.pool) && db.poolsCreated == old(db.poolsCreated)
      ensures requests == old(requests) + [(PageSize, old(pageNum))] && outcome != Finished
      ensures db.pool.Some? ==> Applies(db, t0, log0, batches0, b)
      ensures db.pool.None? ==>
        && db.table == old(db.table) && db.log == old(db.log) && db.batches == old(db.batches)
        && totalInserted == old(totalInserted) && |calls| <= |old(calls)| + 1
        && (outcome == Running ==> calls == old(calls))
      ensures outcome == Aborted ==> stop && pageNum == old(pageNum)
      ensures outcome == Aborted && db.pool.Some? ==>
        && !Continues(r, normalize) && !EndsNormally(r)
        && buffer == old(buffer) + AbortedPageRows(r, normalize)
        && calls == old(calls) && totalInserted == old(totalInserted)
      ensures outcome == Running && stop ==>
        && EndsNormally(r) && pageNum == old(pageNum)
        && buffer == old(buffer) && calls == old(calls) && totalInserted == old(totalInserted)
      ensures outcome == Running && !stop ==>
        && Continues(r, normalize) && pageNum == old(pageNum) + 1
        && var s := old(buffer) + PageRows(r, normalize);
           && calls == old(calls) + FullChunks(s, b) && buffer == Remainder(s, b)
           && totalInserted == old(totalInserted) + |s| - |buffer|
    {
      requests := requests + [(PageSize, pageNum)];
      if r.RequestFailed? || (r.status == 200 && r.body.Unparsable?) {
        // httpx raised, or response.json() / data.get raised
        outcome := Aborted;
        assert buffer + [] == buffer;
        return true;
      }
      if r.status != 200 || r.body.items == [] {
        return true;
      }
      var aborted := ProcessPage(db, r.body.items, b, t0, log0, batches0);
      if aborted {
        outcome := Aborted;
        return true;
      }
      pageNum := pageNum + 1;
      return false;
    }

    /** After the loop (Data/data.py:54-59): hand any leftover rows to
        `insert_data` in one call, then log "FINISHED". */
    method Flush(db: Database, b: nat, ghost responses: seq<Response>, ghost n: nat,
                 ghost t0: Table, ghost log0: seq<LogEntry>, ghost batches0: seq<seq<Row>>)
      requires db.Valid() && b > 0 && outcome == Running
      requires n <= |responses| && forall j :: 0 <= j < n ==> Continues(responses[j], normalize)
      requires Progress(db, responses, n, b, t0, log0, batches0)
      modifies this, db
      ensures db.Valid() && db.pool == old(db.pool) && db.poolsCreated == old(db.poolsCreated)
      ensures outcome != Running && pageNum == old(pageNum) && requests == old(requests)
      ensures old(db.pool).Some? ==>
        && var rows := RowsOf(responses, n, normalize);
           && outcome == Finished && totalInserted == |rows|
           && calls == Chunks(rows, b) && buffer == Remainder(rows, b)
           && Applies(db, t0, log0, batches0, b)
      ensures old(db.pool).None? ==> NoPool(db, t0, log0, batches0)
    {
      FlushFacts(calls, buffer, RowsOf(responses, n, normalize), b);
      assert calls + [] == calls;
      if buffer != [] {
        var raised := SendCall(db, buffer, b, t0, log0, batches0);
        if raised {
          outcome := Aborted;
          return;
        }
        totalInserted := totalInserted + |buffer|;
      }
      outcome := Finished;
    }

    /** One page of items (Data/data.py:31-49): normalise them into the
        buffer, then drain it. `aborted` is an exception the run does not survive. */
    method ProcessPage(db: Database, items: seq<RawItem>, b: nat, ghost t0: Table, ghost log0: seq<LogEntry>, ghost batches0: seq<seq<Row>>)
      returns (aborted: bool)
      requires db.Valid() && b > 0
      requires db.pool.Some? ==> Applies(db, t0, log0, batches0, b)
      modifies this, db
      ensures db.Valid() && db.pool == old(db.pool) && db.poolsCreated == old(db.poolsCreated)
      ensures pageNum == old(pageNum) && requests == old(requests) && outcome == old(outcome)
      ensures var np := NormalizePage(items, normalize);
        var s := old(buffer) + np.0;
        && (np.1.Some? ==> aborted && buffer == s && calls == old(calls) && totalInserted == old(totalInserted))
        && (!aborted ==>
              && np.1.None?
              && calls == old(calls) + FullChunks(s, b) && buffer == Remainder(s, b)
              && totalInserted == old(totalInserted) + |s| - |buffer|)
      ensures db.pool.Some? ==> !aborted || NormalizePage(items, normalize).1.Some?
      ensures db.pool.Some? ==> Applies(db, t0, log0, batches0, b)
      ensures db.pool.None? ==>
        && db.table == old(db.table) && db.log == old(db.log) && db.batches == old(db.batches)
        && totalInserted == old(totalInserted) && |calls| <= |old(calls)| + 1
        && (!aborted ==> calls == old(calls))
    {
      var failed := AppendPage(items);
      if failed.Some? {
        return true;
      }
      aborted := Drain(db, b, t0, log0, batches0);
    }

    /** The item loop of one page (Data/data.py:31-40): normalise each item
        and append its row, stopping at the first item that raises. */
    method AppendPage(items: seq<RawItem>) returns (failed: Option<ItemError>)
      modifies this
      ensures buffer == old(buffer) + NormalizePage(items, normalize).0 && failed == NormalizePage(items, normalize).1
      ensures pageNum == old(pageNum) && totalInserted == old(totalInserted)
      ensures requests == old(requests) && calls == old(calls) && outcome == old(outcome)
    {
      var j := 0;
      ghost var added: seq<Row> := [];
      assert items[0..] == items;
      while j < |items|
        invariant 0 <= j <= |items|
        invariant buffer == old(buffer) + added
        invariant NormalizePage(items, normalize).0 == added + NormalizePage(items[j..], normalize).0
        invariant NormalizePage(items, normalize).1 == NormalizePage(items[j..], normalize).1
        invariant pageNum == old(pageNum) && totalInserted == old(totalInserted)
        invariant requests == old(requests) && calls == old(calls) && outcome == old(outcome)
        decreases |items| - j
      {
        NormalizePageStep(items, j, normalize);
        match normalize(items[j])
        case Err(e) =>
          return Some(e);
        case Ok(row) =>
          buffer := buffer + [row];
          added := added + [row];
        j := j + 1;
      }
      assert items[j..] == [];
      return None;
    }

    /** The drain loop (Data/data.py:44-49): while the buffer holds at least
        `batch_size` rows, hand its first `batch_size` rows to `insert_data`
        and drop them. `raised` is the exception `insert_data` raises without a pool. */
    method Drain(db: Database, b: nat, ghost t0: Table, ghost log0: seq<LogEntry>, ghost batches0: seq<seq<Row>>)
      returns (raised: bool)
      requires db.Valid() && b > 0
      requires db.pool.Some? ==> Applies(db, t0, log0, batches0, b)
      modifies this, db
      ensures db.Valid() && db.pool == old(db.pool) && db.poolsCreated == old(db.poolsCreated)
      ensures pageNum == old(pageNum) && requests == old(requests) && outcome == old(outcome)
      ensures raised <==> db.pool.None? && |old(buffer)| >= b
      ensures !raised ==>
        && calls == old(calls) + FullChunks(old(buffer), b) && buffer == Remainder(old(buffer), b)
        && totalInserted == old(totalInserted) + |old(buffer)| - |buffer|
      ensures db.pool.Some? ==> Applies(db, t0, log0, batches0, b)
      ensures db.pool.None? ==>
        && db.table == old(db.table) && db.log == old(db.log) && db.batches == old(db.batches)
        && totalInserted == old(totalInserted) && |calls| <= |old(calls)| + 1
        && (!raised ==> calls == old(calls))
    {
      raised := false;
      ghost var sent: seq<seq<Row>> := [];
      while |buffer| >= b
        invariant db.Valid() && db.pool == old(db.pool) && db.poolsCreated == old(db.poolsCreated)
        invariant pageNum == old(pageNum) && requests == old(requests) && outcome == old(outcome)
        invariant calls == old(calls) + sent && FullChunks(old(buffer), b) == sent + FullChunks(buffer, b)
        invariant Remainder(old(buffer), b) == Remainder(buffer, b)
        invariant |buffer| <= |old(buffer)| && totalInserted == old(totalInserted) + |old(buffer)| - |buffer|
        invariant db.pool.None? ==> sent == [] && buffer == old(buffer)
        invariant db.pool.None? ==> db.table == old(db.table) && db.log == old(db.log) && db.batches == old(db.batches)
        invariant db.pool.Some? ==> Applies(db, t0, log0, batches0, b)
        decreases |buffer|
      {
        ghost var before := buffer;
        raised := SendBatch(db, b, t0, log0, batches0);
        if raised {
          return;
        }
        DrainStep(old(buffer), before, sent, b);
        sent := sent + [before[..b]];
      }
      RemainderOfShort(buffer, b);
      assert sent + [] == sent;
    }

    /** One turn of the drain loop: `insert_data` on the first `b` rows, then
        dropping them and counting them. */
    method SendBatch(db: Database, b: nat, ghost t0: Table, ghost log0: seq<LogEntry>, ghost batches0: seq<seq<Row>>)
      returns (raised: bool)
      requires db.Valid() && b > 0 && |buffer| >= b
      requires db.pool.Some? ==> Applies(db, t0, log0, batches0, b)
      modifies this, db
      ensures db.Valid() && db.pool == old(db.pool) && db.poolsCreated == old(db.poolsCreated)
      ensures pageNum == old(pageNum) && requests == old(requests) && outcome == old(outcome)
      ensures calls == old(calls) + [old(buffer)[..b]]
      ensures raised == db.pool.None?
      ensures raised ==>
        && buffer == old(buffer) && totalInserted == old(totalInserted)
        && db.table == old(db.table) && db.log == old(db.log) && db.batches == old(db.batches)
      ensures !raised ==> buffer == old(buffer)[b..] && totalInserted == old(totalInserted) + b
      ensures db.pool.Some? ==> Applies(db, t0, log0, batches0, b)
    {
      var batch := buffer[..b];
      raised := SendCall(db, batch, b, t0, log0, batches0);
      if raised {
        return;
      }
      buffer := buffer[b..];
      totalInserted := totalInserted + |batch|;
    }

    /** `insert_data(db_pool, rows, batch_size)`, recorded in `calls`;
        `raised` is its exception when there is no pool. */
    method SendCall(db: Database, rows: seq<Row>, b: nat, ghost t0: Table, ghost log0: seq<LogEntry>, ghost batches0: seq<seq<Row>>)
      returns (raised: bool)
      requires db.Valid()
      requires db.pool.Some? ==> Applies(db, t0, log0, batches0, b)
      modifies this, db
      ensures db.Valid() && db.pool == old(db.pool) && db.poolsCreated == old(db.poolsCreated)
      ensures pageNum == old(pageNum) && requests == old(requests) && outcome == old(outcome)
      ensures buffer == old(buffer) && totalInserted == old(totalInserted)
      ensures calls == old(calls) + [rows]
      ensures raised == db.pool.None?
      ensures raised ==> db.table == old(db.table) && db.log == old(db.log) && db.batches == old(db.batches)
      ensures db.pool.Some? ==> Applies(db, t0, log0, batches0, b)
    {
      ghost var before := calls;
      ghost var a := ApplyCalls(t0, before, b);
      ghost var e := InsertEffect(a.table, rows, b);
      var result := db.InsertData(rows, b);
      calls := calls + [rows];
      if result == PoolMissing {
        return true;
      }
      ApplyCallsSnoc(t0, before, rows, b);
      Associate(log0, a.log, FailureLog(e.failure));
      Associate(batches0, a.batches, e.batches);
      return false;
    }
  }

  /** The rows an item failure left in the buffer past the last drain: those
      of the failing page before the failing item. */
  function AbortedPageRows(r: Response, norm: Normalizer): seq<Row>
  {
    if r.Reply? && r.status == 200 && r.body.Page? then NormalizePage(r.body.items, norm).0 else []
  }

  // ---------------------------------------------------------------------------
  // Lemmas the loop of api_insertion rests on

  /** The rows of a page are its items normalised one by one, in order; when
      an item fails, the rows stop just before it and its error is the page's. */
  lemma {:induction false} NormalizePageItems(items: seq<RawItem>, norm: Normalizer)
    ensures var r := NormalizePage(items, norm);
      && (forall i :: 0 <= i < |r.0| ==> norm(items[i]) == Ok(r.0[i]))
      && (r.1.Some? ==> norm(items[|r.0|]) == Err(r.1.value))
  {
    if items != [] && norm(items[0]).Ok? {
      NormalizePageItems(items[1..], norm);
      var r := NormalizePage(items, norm);
      var rest := NormalizePage(items[1..], norm);
      assert r.0 == [norm(items[0]).value] + rest.0;
      forall i | 0 < i < |r.0|
        ensures norm(items[i]) == Ok(r.0[i])
      {
        assert items[i] == items[1..][i - 1];
      }
      if r.1.Some? {
        assert items[|r.0|] == items[1..][|rest.0|];
      }
    }
  }

  /** Normalising the items from position `j` on: the first of them either
      fails there, or contributes its row ahead of the rest. */
  lemma NormalizePageStep(items: seq<RawItem>, j: nat, norm: Normalizer)
    requires j < |items|
    ensures var np := NormalizePage(items[j..], norm);
      match norm(items[j])
      case Err(e) => np == ([], Some(e))
      case Ok(row) => np == ([row] + NormalizePage(items[j + 1..], norm).0, NormalizePage(items[j + 1..], norm).1)
  {
    assert items[j..][0] == items[j] && items[j..][1..] == items[j + 1..];
  }

  lemma RemainderOfShort<T>(s: seq<T>, b: nat)
    requires b > 0 && |s| < b
    ensures Remainder(s, b) == s && FullChunks(s, b) == []
  {
  }

  /** Taking one full chunk off the buffer in the drain loop. */
  lemma DrainStep<T>(s: seq<T>, buffer: seq<T>, sent: seq<seq<T>>, b: nat)
    requires b > 0 && |buffer| >= b
    requires FullChunks(s, b) == sent + FullChunks(buffer, b)
    requires Remainder(s, b) == Remainder(buffer, b)
    ensures FullChunks(s, b) == (sent + [buffer[..b]]) + FullChunks(buffer[b..], b)
    ensures Remainder(s, b) == Remainder(buffer[b..], b)
  {
    assert FullChunks(buffer, b) == [buffer[..b]] + FullChunks(buffer[b..], b);
  }

  /** `insert_data` calls one after another compose. */
  lemma ApplyCallsAppend(t: Table, c1: seq<seq<Row>>, c2: seq<seq<Row>>, b: int)
    ensures var a1 := ApplyCalls(t, c1, b);
      var a2 := ApplyCalls(a1.table, c2, b);
      ApplyCalls(t, c1 + c2, b) == Applied(a2.table, a1.log + a2.log, a1.batches + a2.batches)
  {
    FoldAppend(t, c1, c2, |c2|, Step(b));
  }

  /** One more `insert_data` call after a sequence of them. */
  lemma ApplyCallsSnoc(t: Table, calls: seq<seq<Row>>, c: seq<Row>, b: int)
    ensures var a := ApplyCalls(t, calls, b);
      var e := InsertEffect(a.table, c, b);
      ApplyCalls(t, calls + [c], b) == Applied(e.table, a.log + FailureLog(e.failure), a.batches + e.batches)
  {
    FoldPrefix(t, calls, [c], |calls|, Step(b));
    assert (calls + [c])[|calls|] == c;
  }

  /** Folding the first `n` calls does not look past them. */
  lemma {:induction false} FoldPrefix(t: Table, c: seq<seq<Row>>, d: seq<seq<Row>>, n: nat, step: (Table, seq<Row>) -> Effect)
    requires n <= |c|
    ensures Fold(t, c + d, n, step) == Fold(t, c, n, step)
  {
    if n > 0 {
      FoldPrefix(t, c, d, n - 1, step);
      assert (c + d)[n - 1] == c[n - 1];
    }
  }

  lemma {:induction false} FoldAppend(t: Table, c1: seq<seq<Row>>, c2: seq<seq<Row>>, m: nat, step: (Table, seq<Row>) -> Effect)
    requires m <= |c2|
    ensures var a1 := Fold(t, c1, |c1|, step);
      var a2 := Fold(a1.table, c2, m, step);
      Fold(t, c1 + c2, |c1| + m, step) == Applied(a2.table, a1.log + a2.log, a1.batches + a2.batches)
  {
    var a1 := Fold(t, c1, |c1|, step);
    if m == 0 {
      FoldPrefix(t, c1, c2, |c1|, step);
      assert a1.log + [] == a1.log && a1.batches + [] == a1.batches;
    } else {
      FoldAppend(t, c1, c2, m - 1, step);
      var a := Fold(t, c1 + c2, |c1| + m - 1, step);
      var a2 := Fold(a1.table, c2, m - 1, step);
      assert a == Applied(a2.table, a1.log + a2.log, a1.batches + a2.batches);
      assert (c1 + c2)[|c1| + m - 1] == c2[m - 1];
      var e := step(a2.table, c2[m - 1]);
      assert Fold(t, c1 + c2, |c1| + m, step)
        == Applied(e.table, (a1.log + a2.log) + FailureLog(e.failure), (a1.batches + a2.batches) + e.batches);
      assert Fold(a1.table, c2, m, step) == Applied(e.table, a2.log + FailureLog(e.failure), a2.batches + e.batches);
      Associate(a1.log, a2.log, FailureLog(e.failure));
      Associate(a1.batches, a2.batches, e.batches);
    }
  }

  /** After a page is appended and drained, the calls and the buffer still
      spell the rows so far, every call holds `b` rows, fewer than `b` stay
      buffered, and the count grows by the rows handed on. */
  lemma PageDone(rs: seq<Response>, i: nat, calls: seq<seq<Row>>, buffer: seq<Row>, b: nat, norm: Normalizer)
    requires b > 0 && i < |rs| && forall j :: 0 <= j <= i ==> Continues(rs[j], norm)
    requires Flatten(calls) + buffer == RowsOf(rs, i, norm)
    requires forall j :: 0 <= j < |calls| ==> |calls[j]| == b
    ensures var s := buffer + PageRows(rs[i], norm);
      var calls' := calls + FullChunks(s, b);
      && Flatten(calls') + Remainder(s, b) == RowsOf(rs, i + 1, norm)
      && (forall j :: 0 <= j < |calls'| ==> |calls'[j]| == b)
      && |Remainder(s, b)| < b
      && |Flatten(calls')| == |Flatten(calls)| + |s| - |Remainder(s, b)|
  {
    var s := buffer + PageRows(rs[i], norm);
    Regroup(calls, buffer, PageRows(rs[i], norm), b);
    FullChunksCover(s, b);
    FlattenConcat(calls, FullChunks(s, b));
  }

  /** Appending rows to the buffer and taking the full chunks off it keeps
      the calls and the buffer spelling everything received. */
  lemma Regroup<T>(calls: seq<seq<T>>, buffer: seq<T>, page: seq<T>, b: nat)
    requires b > 0
    ensures var s := buffer + page;
      Flatten(calls + FullChunks(s, b)) + Remainder(s, b) == (Flatten(calls) + buffer) + page
  {
    var s := buffer + page;
    var fs := FullChunks(s, b);
    FullChunksSpell(s, b);
    FlattenConcat(calls, fs);
    Reassociate(Flatten(calls), Flatten(fs), Remainder(s, b), buffer, page);
  }

  lemma Reassociate<T>(a: seq<T>, f: seq<T>, r: seq<T>, buffer: seq<T>, page: seq<T>)
    requires f + r == buffer + page
    ensures (a + f) + r == (a + buffer) + page
  {
    assert (a + f) + r == a + (f + r);
  }

  lemma {:induction false} FlattenConcat<T>(a: seq<seq<T>>, c: seq<seq<T>>)
    ensures Flatten(a + c) == Flatten(a) + Flatten(c)
    decreases |c|
  {
    if c == [] {
      assert a + c == a;
    } else {
      var init, last := c[..|c| - 1], c[|c| - 1];
      assert (a + c)[..|a + c| - 1] == a + init && (a + c)[|a + c| - 1] == last;
      FlattenConcat(a, init);
      assert Flatten(a + c) == (Flatten(a) + Flatten(init)) + last;
      assert Flatten(c) == Flatten(init) + last;
      Associate(Flatten(a), Flatten(init), last);
    }
  }

  /** When the run aborts at response `i`, the calls so far are the full
      chunks of the rows of the earlier pages and the buffer is their remainder. */
  lemma AbortedAt(rs: seq<Response>, i: nat, calls: seq<seq<Row>>, buffer: seq<Row>, b: nat, norm: Normalizer)
    requires b > 0 && i < |rs| && forall j :: 0 <= j < i ==> Continues(rs[j], norm)
    requires forall j :: 0 <= j < |calls| ==> |calls[j]| == b
    requires |buffer| < b && Flatten(calls) + buffer == RowsOf(rs, i, norm)
    ensures calls == FullChunks(RowsOf(rs, i, norm), b) && buffer == Remainder(RowsOf(rs, i, norm), b)
    ensures |Flatten(calls)| == |RowsOf(rs, i, norm)| - |Remainder(RowsOf(rs, i, norm), b)|
  {
    BatchesDetermined(calls, buffer, RowsOf(rs, i, norm), b);
  }

  /** Before the leftover flush: full batches and a short buffer that spell
      the rows are their full chunks and remainder, so the flush (when the
      buffer is not empty) completes the chunks of the rows. */
  lemma FlushFacts<T>(calls: seq<seq<T>>, buffer: seq<T>, rows: seq<T>, b: nat)
    requires b > 0 && forall j :: 0 <= j < |calls| ==> |calls[j]| == b
    requires |buffer| < b && Flatten(calls) + buffer == rows
    ensures buffer == Remainder(rows, b)
    ensures (if buffer == [] then calls else calls + [buffer]) == Chunks(rows, b)
    ensures |rows| == |Flatten(calls)| + |buffer|
  {
    BatchesDetermined(calls, buffer, rows, b);
    ChunksSplit(rows, b);
  }

}
