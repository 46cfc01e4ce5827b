/**
 * The entry registry of models/registry.go over an abstract `entries` table.
 *
 * The SQLite table is its existence flag and its rows in retrieval order.
 * Every storage call that can fail for reasons outside the table's own
 * state (a locked file, a full disk, a lost connection) takes a Step
 * saying whether it succeeds; the errors that the table's state itself
 * causes (no such table, table already exists, SUM over no rows scanned
 * as NULL) follow from that state.
 */
module Models {
  import opened Wrappers
  import opened GoInt

  /** One stored food entry. */
  datatype Entry = Entry(timestamp: int64, food: string, calories: int64)

  /** The outcome of one storage call whose failure does not follow from the table's state. */
  datatype Step = Ok | Fails(text: string)

  /**
   * The storage errors the code can see, told apart by kind where the
   * source tells them apart by value or by message text.
   */
  datatype DbError =
    | ErrNoRows        // sql.ErrNoRows
    | ScanNullSum      // Scan of SUM(calories) = NULL into an int
    | TableExists      // "table entries already exists"
    | NoSuchTable      // "no such table: entries"
    | Fault(text: string)

  const ScanErrorPrefix: string := "sql: Scan error on column"

  /** `err.Error()`. */
  function Text(e: DbError): string {
    match e
    case ErrNoRows => "sql: no rows in result set"
    case ScanNullSum => ScanErrorPrefix + " index 0, name \"SUM(calories)\": converting NULL to int is unsupported"
    case TableExists => "table entries already exists"
    case NoSuchTable => "no such table: entries"
    case Fault(t) => t
  }

  /** The check at models/registry.go:121 for "the sum matched no rows". */
  predicate IsEmptyResult(e: DbError) {
    e == ErrNoRows || e.ScanNullSum?
  }

  predicate HasPrefix(s: string, p: string) {
    |p| <= |s| && s[..|p|] == p
  }

  /** For the errors the table state produces, the kind test agrees with the source's value-or-prefix test. */
  lemma EmptyResultByText(e: DbError)
    requires !e.Fault?
    ensures IsEmptyResult(e) <==> e == ErrNoRows || HasPrefix(Text(e), ScanErrorPrefix)
  {
    if e.ScanNullSum? {
      assert Text(e)[..|ScanErrorPrefix|] == ScanErrorPrefix;
    } else if e != ErrNoRows {
      assert Text(e)[0] != ScanErrorPrefix[0];
    }
  }

  function Failure(s: Step): DbError
    requires s.Fails?
  {
    Fault(s.text)
  }

  /**
   * `Prepare` or `Query` on the entries table: the injected failure, else
   * "no such table" if it is missing.
   */
  function Prepared(hasTable: bool, s: Step): Option<DbError> {
    if s.Fails? then Some(Failure(s))
    else if !hasTable then Some(NoSuchTable)
    else None
  }

  // ---------------------------------------------------------------------
  // Sum of calories since a timestamp (GetCalories)
  // ---------------------------------------------------------------------

  /** The calories an entry contributes to a window starting at t. */
  function Contribution(e: Entry, t: int64): int {
    if e.timestamp >= t then e.calories as int else 0
  }

  /** `SUM(calories) WHERE timestamp >= t`, with the empty sum as 0. */
  function SumSince(rows: seq<Entry>, t: int64): int {
    if rows == [] then 0 else Contribution(rows[0], t) + SumSince(rows[1..], t)
  }

  /** Some row lies in the window, so SUM is not NULL. */
  predicate AnySince(rows: seq<Entry>, t: int64) {
    exists i | 0 <= i < |rows| :: rows[i].timestamp >= t
  }

  lemma {:induction false} SumSinceNone(rows: seq<Entry>, t: int64)
    requires !AnySince(rows, t)
    ensures SumSince(rows, t) == 0
  {
    if rows != [] {
      assert !AnySince(rows[1..], t) by {
        forall i | 0 <= i < |rows| - 1 ensures rows[1..][i].timestamp < t {
          assert rows[1..][i] == rows[i + 1];
        }
      }
      SumSinceNone(rows[1..], t);
    }
  }

  lemma {:induction false} SumSinceConcat(a: seq<Entry>, b: seq<Entry>, t: int64)
    ensures SumSince(a + b, t) == SumSince(a, t) + SumSince(b, t)
  {
    if a != [] {
      assert (a + b)[1..] == a[1..] + b;
      SumSinceConcat(a[1..], b, t);
    } else {
      assert a + b == b;
    }
  }

  /** Adding an entry raises the sum of every window that contains its timestamp by its calories, and leaves the others alone. */
  lemma SumSinceAppend(rows: seq<Entry>, e: Entry, t: int64)
    ensures SumSince(rows + [e], t) == SumSince(rows, t) + Contribution(e, t)
  {
    SumSinceConcat(rows, [e], t);
  }

  /** Taking row k out of the table removes exactly its contribution. */
  lemma SumSinceRemove(b: seq<Entry>, k: nat, t: int64)
    requires k < |b|
    ensures SumSince(b, t) == Contribution(b[k], t) + SumSince(b[..k] + b[k + 1..], t)
  {
    assert b == b[..k] + [b[k]] + b[k + 1..];
    SumSinceConcat(b[..k] + [b[k]], b[k + 1..], t);
    SumSinceConcat(b[..k], [b[k]], t);
    SumSinceConcat(b[..k], b[k + 1..], t);
  }

  lemma MultisetRemove(a: seq<Entry>, b: seq<Entry>, k: nat)
    requires a != [] && k < |b| && b[k] == a[0]
    requires multiset(a) == multiset(b)
    ensures multiset(a[1..]) == multiset(b[..k] + b[k + 1..])
  {
    assert a == [a[0]] + a[1..];
    assert b == b[..k] + [b[k]] + b[k + 1..];
    assert multiset(a[1..]) == multiset(a) - multiset{a[0]};
    assert multiset(b[..k] + b[k + 1..]) == multiset(b) - multiset{b[k]};
  }

  /** The sum does not depend on the order in which the table returns its rows. */
  lemma {:induction false} SumSinceOrderIndependent(a: seq<Entry>, b: seq<Entry>, t: int64)
    requires multiset(a) == multiset(b)
    ensures SumSince(a, t) == SumSince(b, t)
  {
    if a != [] {
      assert a[0] in multiset(b);
      var k :| 0 <= k < |b| && b[k] == a[0];
      MultisetRemove(a, b, k);
      SumSinceRemove(b, k, t);
      SumSinceOrderIndependent(a[1..], b[..k] + b[k + 1..], t);
    } else {
      assert b == [];
    }
  }

  /** The two steps of GetCalories that can fail for outside reasons. */
  datatype QueryFaults = QueryFaults(prepare: Step, query: Step)

  /** GetCalories' `(int, error)`: value -1 accompanies an error. */
  datatype Sum = Sum(value: int, err: Option<DbError>)

  // ---------------------------------------------------------------------
  // Inserting one entry (AddEntry)
  // ---------------------------------------------------------------------

  /** The four steps of an insert transaction that can fail for outside reasons. */
  datatype TxFaults = TxFaults(begin: Step, prepare: Step, exec: Step, commit: Step)

  /** The insert transaction as the source runs it. */
  datatype Inserted = Inserted(persisted: bool, err: Option<DbError>)

  /**
   * AddEntry as written: begin, prepare and exec return their errors, but
   * the error of `tx.Commit()` is dropped, so a failed commit reports
   * success while no row is stored.
   */
  function InsertAsWritten(hasTable: bool, f: TxFaults): (r: Inserted)
    ensures r.persisted <==> hasTable && f.begin.Ok? && f.prepare.Ok? && f.exec.Ok? && f.commit.Ok?
    ensures r.err.None? <==> hasTable && f.begin.Ok? && f.prepare.Ok? && f.exec.Ok?
  {
    if f.begin.Fails? then Inserted(false, Some(Failure(f.begin)))
    else if Prepared(hasTable, f.prepare).Some? then Inserted(false, Prepared(hasTable, f.prepare))
    else if f.exec.Fails? then Inserted(false, Some(Failure(f.exec)))
    else Inserted(f.commit.Ok?, None)
  }

  /**
   * AddEntry with the commit's error returned: the error of the first step
   * that fails, or none when the row was committed.
   */
  function Insert(hasTable: bool, f: TxFaults): (err: Option<DbError>)
    ensures err.None? <==> hasTable && f.begin.Ok? && f.prepare.Ok? && f.exec.Ok? && f.commit.Ok?
  {
    if f.begin.Fails? then Some(Failure(f.begin))
    else if Prepared(hasTable, f.prepare).Some? then Prepared(hasTable, f.prepare)
    else if f.exec.Fails? then Some(Failure(f.exec))
    else if f.commit.Fails? then Some(Failure(f.commit))
    else None
  }

  /** A failed commit: the source reports success though nothing is stored; the corrected insert reports the commit's error. */
  lemma CommitFailureUnreported(text: string)
    ensures InsertAsWritten(true, TxFaults(Ok, Ok, Ok, Fails(text))) == Inserted(false, None)
    ensures Insert(true, TxFaults(Ok, Ok, Ok, Fails(text))) == Some(Fault(text))
  {
  }

  /** The correction changes nothing but the failed-commit case: otherwise both store and report alike. */
  lemma InsertAgreesUnlessCommitFails(hasTable: bool, f: TxFaults)
    requires f.commit.Ok? || !(hasTable && f.begin.Ok? && f.prepare.Ok? && f.exec.Ok?)
    ensures InsertAsWritten(hasTable, f).err == Insert(hasTable, f)
    ensures InsertAsWritten(hasTable, f).persisted <==> Insert(hasTable, f).None?
  {
  }

  // ---------------------------------------------------------------------
  // Listing every entry (GetEntries)
  // ---------------------------------------------------------------------

  /**
   * The storage calls of a listing that can fail for outside reasons: the
   * query, `Err()` before the loop, the `Scan` of each row (a row past the
   * end of `scans` scans fine) and `Err()` after the loop (which also
   * reports a cursor that stopped early).
   */
  datatype ReadFaults = ReadFaults(query: Step, before: Step, scans: seq<Step>, after: Step)

  function ScanStep(scans: seq<Step>, i: nat): Step {
    if i < |scans| then scans[i] else Ok
  }

  /** The text of the first failing scan among rows i .. n-1. */
  function FirstScanFailure(scans: seq<Step>, i: nat, n: nat): (r: Option<string>)
    decreases n - i
    ensures r.None? <==> forall j | i <= j < n :: ScanStep(scans, j).Ok?
  {
    if i >= n then None
    else if ScanStep(scans, i).Fails? then Some(ScanStep(scans, i).text)
    else FirstScanFailure(scans, i + 1, n)
  }

  /** GetEntries' `([]Entry, error)`; None is Go's nil slice. */
  datatype Listing = Listing(entries: Option<seq<Entry>>, err: Option<DbError>)

  /**
   * GetEntries with the query's error returned: every row in retrieval
   * order in a non-nil slice, or a nil slice and the first error.
   */
  function List(hasTable: bool, rows: seq<Entry>, f: ReadFaults): (r: Listing)
    ensures r.err.None? <==> r.entries.Some?
    ensures r.entries.Some? ==> r.entries.value == rows
    ensures r.err.None? <==> hasTable && f.query.Ok? && f.before.Ok? && f.after.Ok?
                             && forall j | 0 <= j < |rows| :: ScanStep(f.scans, j).Ok?
  {
    if Prepared(hasTable, f.query).Some? then Listing(None, Prepared(hasTable, f.query))
    else if f.before.Fails? then Listing(None, Some(Failure(f.before)))
    else match FirstScanFailure(f.scans, 0, |rows|)
      case Some(text) => Listing(None, Some(Fault(text)))
      case None =>
        if f.after.Fails? then Listing(None, Some(Failure(f.after)))
        else Listing(Some(rows), None)
  }

  /** GetEntries as the source runs it. */
  datatype ListOutcome = Listed(listing: Listing) | NilRowsPanic

  /**
   * GetEntries as written: the query's error is discarded (`r, _ :=`), and a
   * failed query leaves a nil `*sql.Rows` whose `Err()` dereferences nil.
   */
  function ListAsWritten(hasTable: bool, rows: seq<Entry>, f: ReadFaults): (r: ListOutcome)
    ensures r.NilRowsPanic? <==> Prepared(hasTable, f.query).Some?
    ensures r.Listed? ==> r.listing == List(hasTable, rows, f)
  {
    if Prepared(hasTable, f.query).Some? then NilRowsPanic
    else Listed(List(hasTable, rows, f))
  }

  /** Listing a table that does not exist: the source dereferences nil; the corrected listing returns the error. */
  lemma MissingTableListing(rows: seq<Entry>, f: ReadFaults)
    requires f.query.Ok?
    ensures ListAsWritten(false, rows, f) == NilRowsPanic
    ensures List(false, rows, f) == Listing(None, Some(NoSuchTable))
  {
  }

  // ---------------------------------------------------------------------
  // Creating the table (createTableIfNeeded)
  // ---------------------------------------------------------------------

  /** The steps of createTableIfNeeded that can fail for outside reasons. */
  datatype CreateFaults = CreateFaults(prepare: Step, exec: Step)

  /** Whether the table exists afterwards, and the returned error. */
  datatype Created = Created(hasTable: bool, err: Option<DbError>)

  /**
   * createTableIfNeeded: preparing CREATE TABLE fails with "table entries
   * already exists" when it does, which is skipped; any other prepare error
   * is returned. The error of the `Exec` that follows is not checked.
   */
  function Create(hasTable: bool, f: CreateFaults): (r: Created)
    ensures r.err.Some? ==> r.hasTable == hasTable && r.err.value.Fault?
    ensures r.err.None? <==> f.prepare.Ok?
    ensures hasTable ==> r.hasTable
    ensures r.hasTable <==> hasTable || (f.prepare.Ok? && f.exec.Ok?)
  {
    var prepared := if f.prepare.Fails? then Some(Failure(f.prepare))
                    else if hasTable then Some(TableExists) else None;
    match prepared
    case Some(e) => if e == TableExists then Created(hasTable, None) else Created(hasTable, Some(e))
    case None => Created(f.exec.Ok?, None)
  }

  /** Idempotence: once the table exists, a further call that reaches the database is a no-op that reports no error. */
  lemma CreateIdempotent(hasTable: bool, f1: CreateFaults, f2: CreateFaults)
    requires Create(hasTable, f1).hasTable && f2.prepare.Ok?
    ensures Create(Create(hasTable, f1).hasTable, f2) == Created(true, None)
  {
  }

  // ---------------------------------------------------------------------
  // The registry
  // ---------------------------------------------------------------------

  /**
   * The registry and the database it owns (the package-level `rdb`): whether
   * the entries table exists and its rows in retrieval order.
   */
  class Registry {
    var hasTable: bool
    var rows: seq<Entry>

    /** Rows live in the table, so there are none while it does not exist. */
    ghost predicate Valid()
      reads this
    {
      !hasTable ==> rows == []
    }

    /** A registry over a database file found with the given table state. */
    constructor (hasTable: bool, rows: seq<Entry>)
      requires !hasTable ==> rows == []
      ensures Valid() && this.hasTable == hasTable && this.rows == rows
    {
      this.hasTable := hasTable;
      this.rows := rows;
    }

    /** createTableIfNeeded. */
    method CreateTableIfNeeded(f: CreateFaults) returns (err: Option<DbError>)
      requires Valid()
      modifies this
      ensures Valid()
      ensures Created(hasTable, err) == Create(old(hasTable), f)
      ensures rows == old(rows)
      ensures !old(hasTable) && hasTable ==> rows == []
    {
      if f.prepare.Fails? {
        return Some(Failure(f.prepare));
      }
      if hasTable {
        // prepare failed with "table entries already exists": skip creation
        return None;
      }
      if f.exec.Ok? {
        hasTable := true;
      }
      return None;
    }

    /**
     * AddEntry, with the commit's error returned: on success the table holds
     * exactly one more row, `e`, after the old ones; on any error it is
     * unchanged.
     */
    method AddEntry(e: Entry, f: TxFaults) returns (err: Option<DbError>)
      requires Valid()
      modifies this
      ensures Valid()
      ensures err == Insert(old(hasTable), f)
      ensures hasTable == old(hasTable)
      ensures rows == if err.None? then old(rows) + [e] else old(rows)
    {
      if f.begin.Fails? {
        return Some(Failure(f.begin));
      }
      if f.prepare.Fails? {
        return Some(Failure(f.prepare));
      }
      if !hasTable {
        return Some(NoSuchTable);
      }
      if f.exec.Fails? {
        return Some(Failure(f.exec));
      }
      if f.commit.Fails? {
        return Some(Failure(f.commit));
      }
      rows := rows + [e];
      return None;
    }

    /**
     * GetEntries, with the query's error returned: copies the rows one by one
     * into a fresh, non-nil slice.
     */
    method GetEntries(f: ReadFaults) returns (entries: Option<seq<Entry>>, err: Option<DbError>)
      ensures Listing(entries, err) == List(hasTable, rows, f)
    {
      var q := Prepared(hasTable, f.query);
      if q.Some? {
        return None, q;
      }
      if f.before.Fails? {
        return None, Some(Failure(f.before));
      }
      var acc: seq<Entry> := [];
      var i := 0;
      while i < |rows|
        invariant 0 <= i <= |rows|
        invariant acc == rows[..i]
        invariant FirstScanFailure(f.scans, 0, |rows|) == FirstScanFailure(f.scans, i, |rows|)
      {
        var s := ScanStep(f.scans, i);
        if s.Fails? {
          return None, Some(Failure(s));
        }
        acc := acc + [rows[i]];
        i := i + 1;
      }
      if f.after.Fails? {
        return None, Some(Failure(f.after));
      }
      assert acc == rows;
      return Some(acc), None;
    }

    /**
     * GetCalories: the sum of calories over the rows stamped at or after t;
     * a window with no rows (SUM is NULL) gives 0; any other failure gives
     * -1 and the error.
     */
    function GetCalories(t: int64, f: QueryFaults): (r: Sum)
      reads this
      ensures r.err.None? <==> hasTable && f.prepare.Ok? && f.query.Ok?
      ensures r.err.None? ==> r.value == SumSince(rows, t)
      ensures r.err.Some? ==> r.value == -1
    {
      match Prepared(hasTable, f.prepare)
      case Some(e) => Sum(-1, Some(e))
      case None =>
        var scanned := if f.query.Fails? then Some(Failure(f.query))
                       else if !AnySince(rows, t) then Some(ScanNullSum)
                       else None;
        match scanned
        case Some(e) =>
          if IsEmptyResult(e) then
            SumSinceNone(rows, t);
            Sum(0, None)
          else Sum(-1, Some(e))
        case None => Sum(SumSince(rows, t), None)
    }
  }
}
