# US Treasury average-interest-rate pipeline, modelled in Dafny

This project models the ingestion core of a small pipeline. The pipeline pages through the US Treasury "average interest rates" API and normalises every record. It then writes the records to a PostgreSQL table in batches. The model also covers the one read query whose construction has real logic.

The model has seven modules, one per concept of the source:

- `Records`: shared values.
  - The loosely typed JSON fields of an upstream item.
  - Calendar dates.
  - Exact decimal rates (`units / 10^scale`).
  - The buffered row tuple.
  - Decimal digit strings.
- `Normalize`: what `api_insertion` does to each item (Data/data.py:32-40).
  - The rate string: lower-casing, the `"null"` test, `%` removal, Python's `float()` and the division by 100. All of it is computed exactly.
  - The date: `strptime(..., "%Y-%m-%d")`, with CPython's own patterns for `%Y`, `%m` and `%d` over ASCII digits, followed by `date()`.
- `Batching`: the two ways rows are cut into batches.
  - The slices `rows[i : i + batch_size]` of `insert_data`.
  - The full batches `insertion_size[:batch_size]` that the drain loop of `api_insertion` takes.
- `Store`: the table `avg_us_securities_2001_present`, as its DDL declares it.
  - The SERIAL id.
  - The generated `record_year`.
  - The CHECK on `security_type_desc`.
  - The VARCHAR(100) columns.
  - `DECIMAL` equality.
  - One `INSERT … ON CONFLICT DO NOTHING` in autocommit mode.
  - The table is parametric in its unique constraints. `SurrogateKeyOnly` is the DDL as written. `NaturalKey` adds a UNIQUE constraint over the four supplied columns.
- `DbConn`: a class `Database` holding the module state of Data/db_conn.py.
  - The pool, the number of pools created, the table, the log and the slices executed.
  - Its methods `ConnectToDb`, `CreateTables` and `InsertData`. `InsertData` has loops over slices and rows.
- `Ingest`: a class `Ingestion` holding the local state of one `api_insertion` run.
  - The buffer `insertion_size`, `page_num`, `total_inserted`, the requests sent, the `insert_data` calls made, and the run's outcome.
  - Its methods mirror the loops of the source: pagination, the item loop, the drain loop and the leftover flush.
  - The upstream API is a given sequence of responses; the i-th answers the i-th request.
- `Queries`: `fetch_by_date` (Data/models.py:71-98), up to the call that runs the query.
  - The SQL text is built by concatenation.
  - The parameter list grows by appends.

The headline results:

- `api_insertion` hands `insert_data` exactly the chunks of the normalised rows, in page-then-item order. Every call but the leftover flush holds `batch_size` rows.
- 450 rows in batches of 200 are sent as 200, 200 and 50.
- `insert_data` covers its rows once and in order, and stops at the first failing statement.
- The normalisation of a rendered percentage and of a date round-trips.
- Re-ingestion stores every row twice under the DDL as written. It is idempotent once a natural key is declared (see Findings).
- Every `$k` placeholder of the date query is numbered by its parameter's position.
- `ORDER BY` occurs exactly once, at the end of the query.

Where the system's documented intent and the code disagree, the model follows the code:

- **Per-item errors are fatal.** An item whose date or rate does not convert raises out of the item loop. It is caught by the outer handler at Data/data.py:61-62, so the run aborts. The leftover flush and the "FINISHED" log never happen. The item is not simply skipped.
- **Dates are accepted loosely.** `strptime` accepts a one-digit month or day and a space-padded day (`"2024-2-9"`, `"2024-02- 9"`). It does not demand a strict `YYYY-MM-DD`.
- **Counts are of attempted rows.** `insert_data` returns the number of rows it attempted, skipped conflicts included. `api_insertion` adds `len(batch)` whatever `insert_data` returned, even None after a swallowed failure.
- **Persistence failures are swallowed.** A failing statement inside `insert_data` is logged and yields None, and the run goes on.
- **Ordinary ends are not errors.** A status other than 200 ends pagination like an empty page does: the leftover rows are still flushed and "FINISHED" is logged.
- **Nothing ever conflicts as written.** The only declared unique key is the SERIAL `record_id`, so `ON CONFLICT DO NOTHING` never fires.

## Model

| member | source | states |
|---|---|---|
| Records.NatToString | Data/models.py:87 | the spelling of `len(params)+1` in an f-string is non-empty, all digits, with no leading zero |
| Records.NatToStringValue | Data/models.py:87 | that spelling reads back as the number it spells |
| Records.DigitsValueAppend | Data/data.py:33 | a digit string is worth its first part shifted past its second |
| Batching.ChunksCover | Data/db_conn.py:60-61 | the slices `rows[i:i+b]` for i = 0, b, 2b, … concatenate to the rows. Each is non-empty with at most b rows, and every one but the last has exactly b |
| Batching.FullChunksCover | Data/data.py:44-49 | the full batches the drain loop takes, followed by what stays buffered, spell the input. Every batch holds b rows and fewer than b stay |
| Batching.ChunksSplit | Data/data.py:44-57 | the slices of the rows are the full batches followed by the leftover when it is not empty |
| Batching.BatchesDetermined | Data/data.py:44-49 | full batches followed by a short rest that spell a row stream are forced, whatever the page boundaries were |
| Batching.FourHundredFiftyRows | Data/data.py:44-57 | 450 rows in batches of 200 are three batches of 200, 200 and 50 |
| Batching.ChunksThroughPrefix | Data/db_conn.py:60-66 | the slices started before a run stops at some row are a non-empty prefix of all slices; the last one holds that row |
| Batching.SliceProgressStep | Data/db_conn.py:60-61 | one slice taken at i moves the chunking from i to min(i+b, n) |
| Normalize.RemovePercent | Data/data.py:33 | `s.replace("%", "")` leaves no `%` and is no longer than `s` |
| Normalize.NormalizeItemOutcome | Data/data.py:32-40 | an item yields a row exactly when all four keys are present, the rate converts and strptime accepts the date string. The row then carries the converted rate, that (valid) date and the two text fields unchanged. The missing rate key is raised first |
| Normalize.ParseRender | Data/data.py:33 | `float()` applied to the canonical decimal spelling of any decimal, negative ones included, gives back that decimal exactly |
| Normalize.PercentRate | Data/data.py:33 | a rate field holding a rendered decimal followed by `%` becomes that decimal divided by 100 |
| Normalize.ShiftTwoPlaces | Data/data.py:33 | adding two to the scale is dividing by 100 |
| Normalize.PercentExample | Data/data.py:33 | `"5.125%"` becomes 0.05125 exactly |
| Normalize.NullRateExamples | Data/data.py:33 | `""`, JSON null and every casing of `"null"` become 0 |
| Normalize.BadRateExamples | Data/data.py:33 | `"abc"` and `"%"` raise out of `float()` |
| Normalize.ParseDateSpellings | Data/data.py:34 | strptime with `%Y-%m-%d` gives date d exactly when d is a valid calendar date (years 1-9999) and the string is one of its ASCII-digit spellings |
| Normalize.ParseDateSound | Data/data.py:34 | every accepted string spells the valid date returned |
| Normalize.ParseDateComplete | Data/data.py:34 | every spelling of a valid date is accepted as that date |
| Normalize.MonthFieldSound | Data/data.py:34 | what `%m` matches is a spelling of a month 1-12 followed by a dash |
| Normalize.MonthFieldComplete | Data/data.py:34 | every spelling of a month followed by a dash is matched by `%m` |
| Normalize.DayFieldSound | Data/data.py:34 | what `%d` accepts at the end of the string is a spelling of a day 1-31 |
| Normalize.DayFieldComplete | Data/data.py:34 | every spelling of a day 1-31 is accepted by `%d` |
| Normalize.IsoRoundTrip | Data/data.py:34 | `YYYY-MM-DD` of any valid date parses back to the date |
| Normalize.IsoSpelling | Data/data.py:34 | the ISO spelling of any year, month 1-12 and day 1-31 parses exactly when the date exists |
| Normalize.LeapDayExamples | Data/data.py:34 | 2024-02-29 and 2000-02-29 are accepted |
| Normalize.FebruaryThirtiethExample | Data/data.py:34 | 2024-02-30 is rejected |
| Normalize.CommonYearExample | Data/data.py:34 | 2023-02-29 is rejected |
| Normalize.CenturyAndYearZeroExamples | Data/data.py:34 | 1900-02-29 is rejected, 1900 not being a leap year, and year 0 is rejected by `date` |
| Normalize.SingleDigitFieldsExample | Data/data.py:34 | `"2024-2-9"` is accepted as 9 February 2024 |
| Normalize.UnconvertedDataExample | Data/data.py:34 | a character after the day is rejected as unconverted data |
| Store.Varchar | Data/db_conn.py:34-35 | a value assigned to a VARCHAR(100) column holds at most 100 characters |
| Store.Coerce | Data/db_conn.py:32-36 | a row that can be stored passes the CHECK on `security_type_desc` and the VARCHAR bounds, and keeps its date and rate |
| Store.InsertRowOutcome | Data/db_conn.py:29-37 | an INSERT fails exactly when the table is missing or the row cannot be encoded or assigned. A failed one stores nothing and uses up an id exactly when the table exists and both text arguments bound, since the VARCHAR and CHECK failures come after `nextval`. A successful one draws one id and appends the row under it unless the row conflicts, which leaves the rows as they were |
| Store.ExecuteRows | Data/db_conn.py:64-65 | executing rows one by one stops early exactly when a statement failed. The table keeps its constraints and existence |
| Store.ExecuteRowsStops | Data/db_conn.py:64-65 | a stopped run stopped at the row whose INSERT fails against the table left by the rows before it, and ends with that table as the failed statement left it |
| Store.FailureValid | Data/db_conn.py:29-37 | a failed statement keeps the table invariant |
| Store.EmptyTableValid | Data/db_conn.py:29-37 | a fresh table satisfies the table invariant |
| Store.InsertRowValid | Data/db_conn.py:29-37 | one INSERT keeps the invariant: ids increasing and below the sequence, the derived `record_year`, the CHECK, the VARCHAR bounds, and natural-key uniqueness when declared |
| Store.ExecuteRowsValid | Data/db_conn.py:64-65 | executing rows keeps the table invariant |
| Store.ExecuteRowsAppendOnly | Data/db_conn.py:57 | rows already stored stay stored, in place and unchanged, whatever later statements do |
| Store.ExecuteRowsAppend | Data/db_conn.py:60-66 | running rows then more rows is running them all, unless the first part stopped at a failure |
| Store.FailureStopsRun | Data/db_conn.py:64-71 | a failing statement ends the run: what came before was executed, the table is the one it left less any id the failure used up, and what comes after is never attempted |
| Store.ShiftIsProduct | Data/db_conn.py:36 | shifting units by s places is multiplying by 10^s |
| Store.SameValueIsEquality | Data/db_conn.py:36 | two DECIMAL values compare equal exactly when they denote the same number |
| Store.NoConflictUnderSurrogateKey | Data/db_conn.py:31 | with only the SERIAL key, no row ever conflicts |
| Store.SurrogateKeyAppendsAll | Data/db_conn.py:31 | with only the SERIAL key, every storable row is appended, in order |
| Store.ReingestDuplicates | Data/db_conn.py:29-38 | as written, ingesting the same rows twice stores each of them twice |
| Store.ReingestDuplicatesExample | Data/db_conn.py:57 | one concrete row ingested twice leaves two equal rows |
| Store.FirstRunCovers | Data/db_conn.py:57 | under a natural key, every row a run executed has its key in the table afterwards |
| Store.ReplayChangesNothing | Data/db_conn.py:57 | under a natural key, replaying covered rows changes no stored row |
| Store.ReingestIdempotent | Data/db_conn.py:57 | with a natural-key constraint, ingesting the same rows again leaves every stored row as it was, even after a failed first run |
| DbConn.InsertEffectOutcome | Data/db_conn.py:45-71 | a failure is logged exactly when `insert_data` returns None. A returned count with a positive batch size is `len(rows)`, over slices that cover the rows in order. A batch size below one executes nothing |
| DbConn.Database.constructor | Data/db_conn.py:13 | the process starts with no pool |
| DbConn.Database.ConnectToDb | Data/db_conn.py:16-21 | a pool of 1 to 5 connections is created and logged only when none exists. The existing pool is returned unchanged otherwise. A failing `create_pool` leaves everything as it was |
| DbConn.Database.CreateTables | Data/db_conn.py:23-43 | without a pool the exception is caught and "not created" is logged, and the table is untouched. With a pool the table exists afterwards; an existing one keeps its rows |
| DbConn.Database.InsertData | Data/db_conn.py:45-71 | without a pool it raises before touching anything. Otherwise the table, result, log and executed slices are those of `InsertEffect`, including batch size 0 (`range()` ValueError, swallowed) and negative sizes (empty range, returns 0) |
| DbConn.Database.ExecuteChunks | Data/db_conn.py:60-68 | the loop over `range(0, len(rows), b)` runs the rows in order and stops at the first failure. On success it counts every row and executed every slice; on failure, the slices through the failing row |
| DbConn.Database.ExecuteSlice | Data/db_conn.py:60-66 | one slice on its own connection moves the run and the slicing together to the slice's end, or ends the run inside it |
| DbConn.Database.ExecuteBatch | Data/db_conn.py:63-65 | the rows of one slice executed in order, stopping at the first failing statement |
| DbConn.SliceSucceeds | Data/db_conn.py:60-66 | a slice without failure advances both the slicing and the run |
| DbConn.SliceFails | Data/db_conn.py:60-66 | a failing slice is the last one started |
| DbConn.BatchSizeIrrelevant | Data/db_conn.py:60-66 | every positive batch size gives the same table and result |
| DbConn.InsertBatches | Data/db_conn.py:60-66 | the slices executed are a prefix of the chunking. Each holds 1 to b rows, all but the last b rows; all slices on success |
| DbConn.InsertFailure | Data/db_conn.py:64-71 | on a swallowed failure the earlier rows stay stored, the table is the one they left less any id the failed statement used up, the failing row is the one whose error is logged, and later rows make no difference |
| DbConn.StoredYear | Data/db_conn.py:33 | every row written by `insert_data` has `record_year` equal to its date's year, never the COALESCE 0 |
| DbConn.CheckViolationExample | Data/db_conn.py:34 | a type outside the CHECK list fails its statement: the row before stays stored, the one after is not attempted, None is returned, and the rejected row has used up id 2 |
| DbConn.AttemptedCountsSkipped | Data/db_conn.py:66-68 | the returned count includes rows skipped by conflict |
| DbConn.NoPoolExample | Data/db_conn.py:26-27 | with no pool, `create_tables` creates nothing and `insert_data` raises |
| DbConn.ConnectTwiceExample | Data/db_conn.py:16-21 | two `connect_to_db` calls return the same pool, created once |
| Ingest.NormalizePageItems | Data/data.py:31-40 | a page's rows are its items normalised one by one, in order, up to the first item that raises, whose error is the page's |
| Ingest.StopIndex | Data/data.py:16-29 | the loop ends at the first response that does not yield a fully normalised non-empty page |
| Ingest.Requests | Data/data.py:17 | the n-th request asks for page n with page size 100 |
| Ingest.Ingestion.constructor | Data/data.py:10-13 | a run starts with an empty buffer, page 1 and count 0 |
| Ingest.Ingestion.ApiInsertion | Data/data.py:8-62 | with a pool, pages 1 to k+1 are requested, where k+1 is the page that ends the run. On a normal end the `insert_data` calls are exactly the chunks of the rows of the continuing pages in page-then-item order, and the count is their number. If the run aborts, the calls are the full chunks and the rest is left buffered. The database holds exactly what those calls did. Without a pool nothing reaches the database, the count stays 0, and at most one call (the one that raised) is made |
| Ingest.Ingestion.Paginate | Data/data.py:16-52 | the pagination loop ends at the stop page, with the rows so far sent in full batches or buffered, or with the run aborted there |
| Ingest.Ingestion.Turn | Data/data.py:17-51 | one pass of the loop body keeps the loop's bookkeeping or ends the run in a stated state |
| Ingest.Ingestion.VisitPage | Data/data.py:17-51 | a request for page `page_num` (size 100) is recorded. The loop breaks on a status other than 200 or an empty page, the run aborts on a request, JSON or item failure, or the page's rows are appended and drained and `page_num` moves on |
| Ingest.Ingestion.Flush | Data/data.py:54-59 | with a pool the leftover is flushed in one call, the calls are the chunks of all rows, the count is the number of rows, and "FINISHED" ends the run |
| Ingest.Ingestion.ProcessPage | Data/data.py:31-49 | the page's rows are appended and the buffer drained, or the first failing item aborts with its predecessors left buffered |
| Ingest.Ingestion.AppendPage | Data/data.py:31-40 | the item loop appends exactly the page's normalised rows, up to the first failing item |
| Ingest.Ingestion.Drain | Data/data.py:44-49 | the drain loop hands on exactly the full chunks of the buffer and keeps its remainder. It raises exactly when there is no pool and a batch is due |
| Ingest.Ingestion.SendBatch | Data/data.py:45-49 | one drain turn sends the first b rows, drops them and counts them |
| Ingest.Ingestion.SendCall | Data/data.py:46 | one `insert_data` call is recorded, and the database holds what all calls so far did |
| Ingest.ApplyCallsAppend | Data/data.py:46 | the effects of successive `insert_data` calls compose |
| Ingest.ApplyCallsSnoc | Data/data.py:55 | one more call extends the composed effect by its own |
| Ingest.PageDone | Data/data.py:31-49 | after a page is appended and drained, the calls and buffer still spell the rows so far, with full calls and a short buffer |
| Ingest.AbortedAt | Data/data.py:61-62 | on an abort, the calls so far are the full chunks of the earlier pages' rows and the buffer is their remainder |
| Ingest.FlushFacts | Data/data.py:54-56 | before the flush, the buffer is the remainder of all rows, and flushing it completes their chunks |
| Ingest.FlattenConcat | Data/data.py:44-57 | the rows of two call sequences are the rows of each, in order |
| Queries.Values | Data/models.py:80-92 | the i-th parameter is the value of the i-th filter |
| Queries.FetchByDate | Data/models.py:71-94 | the query is the base SELECT, the conditions of the filters used, then ORDER BY. The parameters are the filter values in order |
| Queries.YearFilter | Data/models.py:74-84 | the year test appends its condition and its value exactly when the year is given and not 0 |
| Queries.NumberedFilter | Data/models.py:86-92 | the month or day test appends its condition, numbered after the parameters so far, and its value exactly when it is given and not 0 |
| Queries.Extend | Data/models.py:86-92 | one more filter adds its condition on the next placeholder, and its value |
| Queries.YearCondition | Data/models.py:83 | the hard-coded `$1` of the year clause is the placeholder of the first filter |
| Queries.Unfiltered | Data/models.py:74-94 | no filter is used exactly when none is given. The query is then the base SELECT directly followed by ORDER BY, with no parameters |
| Queries.FiltersExact | Data/models.py:82-92 | a filter is used exactly when its argument is given and not 0, and carries that argument. The filters come year, month, day, none twice |
| Queries.PlaceholderAt | Data/models.py:83-91 | the i-th filter's condition, with placeholder `$(i+1)`, occurs in the query, and parameter i+1 is that filter's value |
| Queries.PlaceholderCount | Data/models.py:80-94 | the query holds exactly one `$` per parameter |
| Queries.OneOrderBy | Data/models.py:94 | ` ORDER BY record_date DESC` occurs in the query exactly once, at its end |

## Left out

- HTTP, JSON decoding and timing are not modelled. The httpx client, its timeouts, `response.json()` and `asyncio.sleep(1)` (Data/data.py:15-24, 52) become a given sequence of `Response` values: a failed request, or a status with a body that is unparsable or a page of items.
- Logging is partly modelled. `api_logger` messages are left out. `db_logger` messages appear only as the `log` entries of `Database`.
- The loop's termination is assumed, not shown. `Ingest.Ingestion.ApiInsertion` requires a response that ends the loop, because an upstream that never ends it makes the source loop forever. It also requires `batch_size >= 1`. With 0 or a negative size and a pool, the drain loop at Data/data.py:44 never ends once a page has rows; without a pool its first `insert_data` call raises, and a first page that ends the run never reaches it. The only call passes `batch_size=200`.
- Ingest.Ingestion.ApiInsertion: without a pool it states only that nothing reaches the database, the count is 0, at most one call is made and the requests are a prefix of pages 1, 2, …. It does not pin down the exact page where the raised exception stops the run.
- The item normaliser is generic in the loop proofs. They hold for any normaliser, and `Ingestion` is constructed with `Normalize.NormalizeItem`.
- Floating point is not modelled. `float(...) / 100` is computed exactly as a decimal. Binary rounding, and the `DECIMAL(7,5)` rounding and overflow on insert, are left out.
- Normalize.ParseDate: the year digits and the second digit of a `1x`/`2x` day are ASCII only. CPython's `\d` in `%Y` and `%d` also matches other Unicode decimal digits, and `int()` reads them, so the source accepts "٢٠٢٤-01-01" where the model returns None. `%m` and the other day alternatives use explicit ASCII classes and are exact.
- Python string semantics are narrowed. `.lower()` is modelled on ASCII only, which decides the `"null"` test exactly. `float()` is modelled on ASCII decimal literals only: no `inf`, `nan`, underscores or non-ASCII digits.
- Database concurrency is not modelled. Pool acquisition, connection limits and asyncpg statement preparation are left out. Each statement runs in autocommit mode and is the only thing happening.
- asyncpg encoding of the date and rate arguments is not modelled, since those values always bind. Text arguments are modelled: a non-string, non-null value fails the statement.
- Queries.FetchByDate takes its arguments as `Optional[int]`, as the read API passes them, so `int()` of a non-numeric string is not modelled. `conn.fetch` and the connection handling, the other SELECT wrappers and `insert_data` in Data/models.py are left out. So is the `conn=` keyword that Api/main.py passes but `fetch_by_date` does not accept.
- The read API, dashboard and Streamlit front ends are not part of this model.

## Findings

| source | as written | input that shows it | evidently intended | confidence | as-written member | corrected member |
|---|---|---|---|---|---|---|
| Data/db_conn.py:29-38, 57 | the table declares only `record_id SERIAL PRIMARY KEY`, so `ON CONFLICT DO NOTHING` never fires and re-ingesting a page stores its rows again | the row (2024-01-31, "Marketable", "Treasury Bills", 0.05125) ingested twice leaves two equal rows | a UNIQUE constraint over (record_date, security_type_desc, security_desc, avg_interest_rate_amt), so that repeated ingestion skips rows already stored | not executed | Store.ReingestDuplicates | Store.ReingestIdempotent |

`Store.ReingestDuplicatesExample` exhibits the concrete input. The table model is parametric in its unique constraints, and everything above `Store` holds for either choice.
