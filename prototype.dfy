/**
 * The first prototype of the service in main.go: its own copy of the
 * timestamp default, an `entryDB` over the same `entries` table, and the
 * list and add handlers. Where the registry returns errors, the prototype
 * mostly ends the process with `log.Fatal`.
 */
module Prototype {
  import opened Wrappers
  import opened GoInt
  import opened Strconv
  import TimeHelper
  import opened Models
  import opened Handlers

  /** defaultTimestamp: the same code as DefaultTimestamp in time/helper.go. */
  function DefaultTimestamp(s: string, now: int64): (t: int64)
    requires |s| >= 1
    ensures t != now ==> TimeHelper.IsAscii(s[0]) && ParseInt(s[1..]) == Some(t)
    ensures TimeHelper.IsAscii(s[0]) && ParseInt(s[1..]).Some? ==> t == ParseInt(s[1..]).value
  {
    if !TimeHelper.IsAscii(s[0]) then now
    else
      match ParseInt(s[1..])
      case Some(n) => n
      case None => now
  }

  /** The prototype's timestamp default computes the same function as the helper package's. */
  lemma DefaultTimestampAgrees(s: string, now: int64)
    requires |s| >= 1
    ensures DefaultTimestamp(s, now) == TimeHelper.DefaultTimestamp(s, now)
  {
  }

  /** A handler either replies or ends the process through `log.Fatal`. */
  datatype Reply = Replied(response: Response) | Exited(cause: DbError)

  const EntryNotAdded: string := "entry not added"
  const NoEntries: string := "No entries"

  /** The prototype's `entryDB` (the package-level `edb`) over the entries table. */
  class EntryDb {
    var hasTable: bool
    var rows: seq<Entry>

    ghost predicate Valid()
      reads this
    {
      !hasTable ==> rows == []
    }

    constructor (hasTable: bool, rows: seq<Entry>)
      requires !hasTable ==> rows == []
      ensures Valid() && this.hasTable == hasTable && this.rows == rows
    {
      this.hasTable := hasTable;
      this.rows := rows;
    }

    /**
     * createTableIfNeeded: skips creation when the table already exists; any
     * other prepare error ends the process.
     */
    method CreateTableIfNeeded(f: CreateFaults) returns (fatal: Option<DbError>)
      requires Valid()
      modifies this
      ensures Valid()
      ensures Created(hasTable, fatal) == Create(old(hasTable), f)
      ensures rows == old(rows)
      ensures !old(hasTable) && hasTable ==> rows == []
    {
      if f.prepare.Fails? {
        return Some(Failure(f.prepare));
      }
      if hasTable {
        // prepare failed with "table entries already exists": skip creation
        return None;
      }
      if f.exec.Ok? {
        hasTable := true;
      }
      return None;
    }

    /**
     * getEntries: copies every row into a fresh, non-nil slice; a storage
     * error ends the process (the query's own error is checked here, where
     * the source dereferences a nil `*sql.Rows`).
     */
    method GetEntries(f: ReadFaults) returns (entries: Option<seq<Entry>>, fatal: Option<DbError>)
      ensures fatal == List(hasTable, rows, f).err
      ensures fatal.None? ==> entries == Some(rows)
    {
      var q := Prepared(hasTable, f.query);
      if q.Some? {
        return None, q;
      }
      if f.before.Fails? {
        return None, Some(Failure(f.before));
      }
      var acc: seq<Entry> := [];
      var i := 0;
      while i < |rows|
        invariant 0 <= i <= |rows|
        invariant acc == rows[..i]
        invariant FirstScanFailure(f.scans, 0, |rows|) == FirstScanFailure(f.scans, i, |rows|)
      {
        var s := ScanStep(f.scans, i);
        if s.Fails? {
          return None, Some(Failure(s));
        }
        acc := acc + [rows[i]];
        i := i + 1;
      }
      if f.after.Fails? {
        return None, Some(Failure(f.after));
      }
      assert acc == rows;
      return Some(acc), None;
    }

    /**
     * addEntry, with the commit's error returned: `(true, nil)` exactly when
     * the row was appended, `(false, err)` with the table unchanged otherwise.
     */
    method AddEntry(e: Entry, f: TxFaults) returns (added: bool, err: Option<DbError>)
      requires Valid()
      modifies this
      ensures Valid() && hasTable == old(hasTable)
      ensures err == Insert(old(hasTable), f)
      ensures added <==> err.None?
      ensures rows == if added then old(rows) + [e] else old(rows)
    {
      if f.begin.Fails? {
        return false, Some(Failure(f.begin));
      }
      if f.prepare.Fails? {
        return false, Some(Failure(f.prepare));
      }
      if !hasTable {
        return false, Some(NoSuchTable);
      }
      if f.exec.Fails? {
        return false, Some(Failure(f.exec));
      }
      if f.commit.Fails? {
        return false, Some(Failure(f.commit));
      }
      rows := rows + [e];
      return true, None;
    }
  }

  /**
   * The addEntry handler: refuses a non-integer `calories`; otherwise adds
   * the entry and answers with the error value itself, "entry added", or
   * "entry not added" (a branch no call reaches).
   */
  method AddEntryHandler(db: EntryDb, food: string, calories: string, timestamp: string, now: int64, f: TxFaults)
    returns (r: Response)
    requires |timestamp| >= 1
    requires db.Valid()
    modifies db
    ensures db.Valid() && db.hasTable == old(db.hasTable)
    ensures Atoi(calories).None? ==> r == Response(StatusBadRequest, Error(IllegalParameter)) && db.rows == old(db.rows)
    ensures Atoi(calories).Some? ==>
              var e := Entry(DefaultTimestamp(timestamp, now), food, Atoi(calories).value);
              var err := Insert(old(db.hasTable), f);
              r == (if err.None? then Response(StatusOK, Message(EntryAdded)) else Response(StatusBadRequest, ErrorValue(err.value))) &&
              db.rows == if err.None? then old(db.rows) + [e] else old(db.rows)
    ensures r.body != Error(EntryNotAdded)
  {
    var ts := DefaultTimestamp(timestamp, now);
    var entryCalories := Atoi(calories);
    if entryCalories.None? {
      return Response(StatusBadRequest, Error(IllegalParameter));
    }
    var added, err := db.AddEntry(Entry(ts, food, entryCalories.value), f);
    if err.Some? {
      return Response(StatusBadRequest, ErrorValue(err.value));
    }
    r := if added then Response(StatusOK, Message(EntryAdded)) else Response(StatusBadRequest, Error(EntryNotAdded));
  }

  /**
   * The getEntries handler: lists every entry, or ends the process on a
   * storage error; its "No entries" answer is never given.
   */
  method GetEntriesHandler(db: EntryDb, f: ReadFaults) returns (r: Reply)
    ensures var l := List(db.hasTable, db.rows, f);
            r == if l.err.Some? then Exited(l.err.value) else Replied(Response(StatusOK, Entries(db.rows)))
    ensures r != Replied(Response(StatusBadRequest, Error(NoEntries)))
  {
    var entries, fatal := db.GetEntries(f);
    if fatal.Some? {
      return Exited(fatal.value);
    }
    r := if entries.None? then Replied(Response(StatusBadRequest, Error(NoEntries)))
         else Replied(Response(StatusOK, Entries(entries.value)));
  }
}
