# clcnt in Dafny

A model of clcnt, a small calorie-tracking web service written in Go. Clients
add food entries (a Unix timestamp, a food name and a calorie count) and ask
for the average daily calories over the last `days` days. The model covers
these parts of the service:

- **the entry registry** (`models/registry.go`): an `entries` table that is
  created once, an insert transaction, a listing loop and a calorie sum;
- **the time helpers** (`time/helper.go`): the timestamp taken from an
  optional path segment, and the start of the day window;
- **the request decisions** (`handlers/handlers.go`): which status and body
  each request gets, and what it does to the registry;
- **the first prototype** (`main.go`): its copy of the timestamp default, its
  own `entryDB`, and its list and add handlers.

Files:

- `go_int.dfy`: `Wrappers.Option`. `GoInt` holds Go's `int64`, two's-complement
  wrap-around (`Wrap`) and the truncating `/` (`Quo`). Dafny's own `/` is
  Euclidean.
- `strconv.dfy`: `strconv.ParseInt(s, 10, 64)`, `strconv.Atoi` (64-bit `int`)
  and `strconv.FormatInt`.
- `time_helper.dfy`: `DefaultTimestamp` and `GetDaysAgoAsUnix`. The current
  time (`now`) and local midnight (`startOfToday`) are parameters.
- `models.dfy`: the registry. The SQLite table is a class with two fields:
  whether the table exists, and its rows in retrieval order. A failure that
  the table's state does not explain (locked file, full disk, lost
  connection) is an injected `Step`, one per storage call. Some errors do
  follow from that state: "no such table", "table entries already exists",
  and a `SUM` over no rows read back as NULL. The model derives those. The
  source tells errors apart by comparing values and message text; the model
  uses a `DbError` kind instead.
- `handlers.dfy`: the three API handlers. Responses are values of
  `Response(status, body)`.
- `prototype.dfy`: the main.go prototype.

The source drops the error of `tx.Commit()` and the error of `db.Query` (see
Findings). Each is modelled twice: once as written (`InsertAsWritten`,
`ListAsWritten`) and once with the error returned (`Insert`, `List`). The
classes and handlers use the corrected versions. `createTableIfNeeded` also
ignores the error of its `Exec`. That is kept as written: a failed `Exec`
reports success and leaves the table missing.

## Model

| member | source | states |
|---|---|---|
| GoInt.Wrap | time/helper.go:32 | the int64 a Go operation yields equals the exact result modulo 2^64, and equals it whenever it fits |
| GoInt.Quo | handlers/handlers.go:121 | Go's `calories / days`: the remainder is smaller than the divisor in magnitude and is zero or has the dividend's sign (truncation toward zero) |
| GoInt.QuoUnique | handlers/handlers.go:121 | those two properties determine the quotient: no other integer satisfies them |
| Strconv.ParseInt | time/helper.go:13 | succeeds exactly on an optional sign followed by one or more digits whose signed value fits in int64, and then returns that signed value (its magnitude is the digits' value, and a leading `-` makes it non-positive) |
| Strconv.ParseIntAccepts | time/helper.go:13 | `""`, `"+"` or `"-"` followed by any digits parses as the digits' value, negated after `-`, when that fits in int64, and is a range error otherwise |
| Strconv.Atoi | handlers/handlers.go:62 | Go's `int` has 64 bits, so `Atoi` accepts exactly the in-range sign-and-digits literals and returns their signed value |
| Strconv.FormatIntRoundTrip | time/helper.go:13-16 | parsing the decimal rendering of any integer returns it exactly when it fits in int64, and fails (range error) otherwise |
| Strconv.ParseIntRejectsNoDigits | time/helper.go:13-18 | the empty string and a bare sign are refused |
| Strconv.ParseIntRejectsNonDigit | handlers/handlers.go:62-66 | any character that is neither a digit nor a leading sign makes the parse fail |
| Strconv.ParseIntLeadingZero | time/helper.go:13 | leading zeros do not change the parsed value, with or without a sign |
| TimeHelper.DefaultTimestamp | time/helper.go:10-19 | when the first character is one byte and the rest parses, the result is the parsed value; in every other case it is `now` |
| TimeHelper.DefaultTimestampLiteral | time/helper.go:11-16 | `"/"` then an optional sign and digits (leading zeros and `+` included) yields that signed value when it fits in int64, and `now` otherwise |
| TimeHelper.DefaultTimestampRoundTrip | time/helper.go:11-16 | for every int64 `n`, `"/" + decimal(n)` yields `n` whatever `now` is |
| TimeHelper.DefaultTimestampBareSlash | time/helper.go:11-18 | a segment that is only "/" (no timestamp given) yields `now` |
| TimeHelper.DefaultTimestampNonDigit | time/helper.go:13-18 | a non-digit anywhere after the slash (other than a leading sign) yields `now` |
| TimeHelper.GetDaysAgoAsUnix | time/helper.go:29-33 | the window start equals `startOfToday - (d-1)*86400` modulo 2^64, the value Go's wrapping 64-bit arithmetic yields |
| TimeHelper.DaysAgoToday | time/helper.go:29-33 | one day starts at today's midnight |
| TimeHelper.DaysAgoExact | time/helper.go:29-33 | when nothing overflows, the window of `d` days starts `(d-1)*86400` seconds before today's midnight |
| TimeHelper.DaysAgoStep | time/helper.go:32 | consecutive day counts start exactly 86400 seconds apart |
| TimeHelper.DaysAgoDecreasing | time/helper.go:32 | within range the window start is at or before today's midnight and strictly earlier for a larger `d` |
| TimeHelper.DaysAgoWrapsIntoFuture | time/helper.go:32 | beyond that range the 64-bit offset wraps, and a huge day count yields a window start in the future |
| Models.EmptyResultByText | models/registry.go:119-124 | for the errors the table state produces, the kind test matches the source's `ErrNoRows`-or-"Scan error" prefix test |
| Models.SumSinceNone | models/registry.go:119-124 | when no row lies in the window the sum is 0 (the NULL that is read back as 0) |
| Models.SumSinceAppend | models/registry.go:113 | adding an entry raises the sum of every window containing its timestamp by its calories and leaves other windows unchanged |
| Models.SumSinceOrderIndependent | models/registry.go:113 | the sum is the same for any order of the same rows, so the table's unspecified order does not matter |
| Models.InsertAsWritten | models/registry.go:59-79 | as written, a row is stored exactly when the table exists and all four steps succeed, but an error is reported only for begin, prepare and exec |
| Models.Insert | models/registry.go:59-79 | with the commit's error returned: no error exactly when the table exists and begin, prepare, exec and commit all succeed |
| Models.CommitFailureUnreported | models/registry.go:76 | a failed commit reports success with nothing stored as written, and reports the commit's error when corrected |
| Models.InsertAgreesUnlessCommitFails | models/registry.go:60-78 | outside the failed-commit case the corrected insert reports and stores exactly as written |
| Models.List | models/registry.go:82-109 | no error exactly when the slice is non-nil; a non-nil slice holds every row in retrieval order; success needs the table and every step |
| Models.ListAsWritten | models/registry.go:83-89 | as written, a failed query (a missing table included) dereferences a nil `*sql.Rows`; otherwise the listing is the corrected one |
| Models.MissingTableListing | models/registry.go:83-86 | listing a missing table panics as written and returns "no such table" when corrected |
| Models.Create | models/registry.go:132-152 | an error leaves the table state alone and is an outside fault; "already exists" is not an error; an existing table is never lost; the table exists afterwards exactly when it did or prepare and exec succeeded |
| Models.CreateIdempotent | models/registry.go:131-146 | once the table exists, a further call that reaches the database changes nothing and reports no error |
| Models.Registry.CreateTableIfNeeded | models/registry.go:132-152 | the new table state and the returned error are those of `Create`; rows are untouched, so a table it creates is empty |
| Models.Registry.AddEntry | models/registry.go:59-79 | on success the rows become the old rows plus exactly `e`; on any error they are unchanged; the error is the first failing step's |
| Models.Registry.GetEntries | models/registry.go:82-109 | the row-by-row copy returns exactly `List`: every row in order in a non-nil slice, or nil and the first error |
| Models.Registry.GetCalories | models/registry.go:112-129 | no error exactly when the table and both steps are fine; then the value is the sum of calories of rows stamped at or after `t` (0 for none); on error the value is -1 |
| Handlers.DaysParam | handlers/handlers.go:99 | the raw `days` query value when given; when absent, a default that parses as one day |
| Handlers.MissingDaysIsOneDay | handlers/handlers.go:99-101 | a request without `days` gets exactly the answer of one with `days=1` |
| Handlers.GetCaloriesHandler | handlers/handlers.go:98-124 | 200 or 400 only; an invalid `days` gives 400 "Illegal parameter"; 200 exactly when `days` is valid and the registry answers; its body echoes the raw `days` and the window sum truncated-divided by `days`; a registry error gives 400 with its text |
| Handlers.AverageOverWindow | handlers/handlers.go:112-123 | when the window fits, the average covers exactly the entries since midnight `days-1` days ago and is the truncation of their true mean |
| Handlers.NonPositiveDaysRejected | handlers/handlers.go:101-110 | every day count below one gives 400 "Illegal parameter" whatever the registry holds |
| Handlers.EmptyTableAverage | clcnt_test.go:48-60 | an empty table gives 200 with days "1" and average 0 |
| Handlers.ThreeMealsToday | clcnt_test.go:62-100 | three 500-calorie entries today give 1500 for the default day and 300 for `days=5` |
| Handlers.NonNumericCalories | handlers/handlers.go:62-66 | "abc" is not an integer for Atoi |
| Handlers.AddEntryHandler | handlers/handlers.go:57-75 | a non-integer `calories` gives 400 "Illegal parameter" and stores nothing; otherwise exactly the entry stamped by DefaultTimestamp is appended with 200 "entry added", or nothing is stored and the error text comes back with 400 |
| Handlers.GetEntriesHandler | handlers/handlers.go:36-44 | 200 with every entry, or 400 with the registry error's text |
| Handlers.EmptyTableListing | clcnt_test.go:37-46 | an empty table lists as an empty, non-nil slice with no error |
| Prototype.DefaultTimestamp | main.go:118-128 | the prototype's copy: the parsed value of the text after the first byte when that parses, `now` otherwise |
| Prototype.DefaultTimestampAgrees | main.go:118-128 | the prototype's `defaultTimestamp` computes the same function as `DefaultTimestamp` in time/helper.go |
| Prototype.EntryDb.CreateTableIfNeeded | main.go:33-51 | skips creation when the table exists; the new table state and the fatal error are those of `Create`; a table it creates is empty |
| Prototype.EntryDb.GetEntries | main.go:54-77 | the row-by-row copy returns a non-nil slice of every row unless a storage error ends the process |
| Prototype.EntryDb.AddEntry | main.go:80-102 | `added` holds exactly when no error is returned, and then exactly `e` was appended; otherwise the rows are unchanged |
| Prototype.AddEntryHandler | main.go:130-153 | a non-integer `calories` gives 400 "Illegal parameter" and stores nothing; otherwise 200 "entry added" with `e` appended or 400 with the error value; the "entry not added" answer never occurs |
| Prototype.GetEntriesHandler | main.go:104-114 | 200 with every entry or process exit on a storage error; the "No entries" answer never occurs |

## Left out

- Opening the database: `NewRegistry` and the prototype's `init`. These check,
  create and open the database file through `os.Stat`, `os.Create` and
  `sql.Open`, which is file I/O. Each class constructor instead takes the
  table state as it is found on disk.
- The wall clock: `getStartOfTodayAsUnix` and `time.Now()`. Their results
  depend on the clock and the local time zone. They enter the model as the
  `startOfToday` and `now` parameters.
- The HTTP layer: Gin routing, JSON and HTML rendering, logging, `main()`,
  and the OPTIONS, NotFound, Liveness, Readiness and Index handlers. They
  have no decision logic beyond the route. `reg.IsReady()` is not defined in
  models/registry.go, so Readiness is not part of this model.
- The SQL layer: SQL text, statement and row handles, `defer ... Close()`,
  and the table's `id` column. No operation reads the `id` column.
- Concurrency between writers: SQLite serialises writers. The model runs
  one request at a time.
- Rollback: after a failed step the source leaves the transaction open
  instead of rolling it back. The model shows only what a later read sees:
  the rows are unchanged.
- Models.Registry.GetCalories: SQLite raises an "integer overflow" error
  when a sum leaves 64 bits. The model's sum is unbounded, and that error is
  one of the injected query failures.
- Models.Registry.GetCalories: an injected failure always counts as a real
  error. In the source, a failure whose message happens to start with
  "sql: Scan error on column" would be read back as 0.
- Models.Registry.GetEntries: a cursor that stops early appears in the model
  as the failure of the final `Err()` check, because the source reports it
  there.
- Models.Registry.GetEntries: the rows' order is the order of the `rows`
  sequence. SQLite gives no order guarantee, and
  `SumSinceOrderIndependent` shows that the sums do not depend on it.
- Prototype.AddEntryHandler: the JSON encoding of the error value it sends
  is not modelled; the body carries the error itself.
- Strings: they are sequences of Unicode characters, while Go works on
  bytes. `DefaultTimestamp` drops the first byte, so the model returns
  `now` when the first character is not ASCII. Invalid UTF-8 is not
  represented.
- Go's `entry` type in main.go has the same fields as `models.Entry`, so it
  shares the `Entry` datatype.

## Findings

| source | as written | input that shows it | evidently intended | confidence | as-written member | corrected member |
|---|---|---|---|---|---|---|
| models/registry.go:76 | `tx.Commit()`'s error is ignored and `AddEntry` returns nil | begin, prepare and exec succeed, and the commit fails (e.g. the database is busy): success is reported and no row is stored | return the commit's error, as for the other three steps | medium, not executed | Models.InsertAsWritten | Models.Insert |
| main.go:99-101 | `tx.Commit()`'s error is ignored and `addEntry` returns `(true, nil)` | the same failed commit: "entry added" is answered and no row is stored | return `(false, err)` on a failed commit | medium, not executed | Models.InsertAsWritten | Models.Insert |
| models/registry.go:83-86 | `db.Query`'s error is discarded, and `r.Err()` is called on the nil `*sql.Rows` | a failed query, e.g. listing before the table exists: nil dereference (panic) | return the query's error | medium, not executed | Models.ListAsWritten | Models.List |
| main.go:56-61 | `db.Query`'s error is discarded, and `rows.Err()` is called on the nil `*sql.Rows` | the same failed query: panic instead of `log.Fatal` with the error | check the query's error | medium, not executed | Models.ListAsWritten | Models.List |
