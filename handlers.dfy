/**
 * The decision logic of the three API handlers in handlers/handlers.go:
 * which status and which JSON body each request gets, and what it does to
 * the registry. A response is a status code and a body; routing and JSON
 * rendering are not modelled.
 */
module Handlers {
  import opened Wrappers
  import opened GoInt
  import opened Strconv
  import opened TimeHelper
  import opened Models

  /** The JSON bodies the handlers send. */
  datatype Body =
    | Error(message: string)                   // {"error": "<text>"}
    | ErrorValue(err: DbError)                 // {"error": <the error value itself>}
    | Message(message: string)                 // {"message": "<text>"}
    | Average(days: string, avgCalories: int)  // {"days": "<raw parameter>", "avg_calories": n}
    | Entries(entries: seq<Entry>)             // {"entries": [...]}

  datatype Response = Response(status: int, body: Body)

  const StatusOK: int := 200
  const StatusBadRequest: int := 400
  const IllegalParameter: string := "Illegal parameter"
  const EntryAdded: string := "entry added"

  /** `c.DefaultQuery("days", "1")`: the raw query value, "1" when absent. */
  function DaysParam(query: Option<string>): (d: string)
    ensures query.Some? ==> d == query.value
    ensures query.None? ==> Atoi(d) == Some(1)
  {
    match query
    case Some(d) => d
    case None => "1"
  }

  /** A `days` value the handler accepts: an integer of at least one. */
  predicate ValidDays(d: string) {
    Atoi(d).Some? && Atoi(d).value >= 1
  }

  /**
   * GetCaloriesHandler: validates `days`, sums the calories since the start
   * of the day `days - 1` days ago, and answers with that sum divided by
   * `days` (Go's truncating division), echoing `days` as given.
   */
  function GetCaloriesHandler(reg: Registry, query: Option<string>, startOfToday: int64, f: QueryFaults): (r: Response)
    reads reg
    ensures r.status == StatusOK || r.status == StatusBadRequest
    ensures !ValidDays(DaysParam(query)) ==> r == Response(StatusBadRequest, Error(IllegalParameter))
    ensures r.status == StatusOK <==> ValidDays(DaysParam(query)) && reg.hasTable && f.prepare.Ok? && f.query.Ok?
    ensures r.status == StatusOK ==>
              var n := Atoi(DaysParam(query)).value;
              r.body == Average(DaysParam(query), Quo(SumSince(reg.rows, GetDaysAgoAsUnix(n, startOfToday)), n as int))
    ensures ValidDays(DaysParam(query)) && r.status == StatusBadRequest ==>
              var n := Atoi(DaysParam(query)).value;
              var c := reg.GetCalories(GetDaysAgoAsUnix(n, startOfToday), f);
              c.err.Some? && r.body == Error(Text(c.err.value))
  {
    var d := DaysParam(query);
    match Atoi(d)
    case None => Response(StatusBadRequest, Error(IllegalParameter))
    case Some(days) =>
      if days < 1 then Response(StatusBadRequest, Error(IllegalParameter))
      else
        var t := GetDaysAgoAsUnix(days, startOfToday);
        var calories := reg.GetCalories(t, f);
        if calories.err.Some? then Response(StatusBadRequest, Error(Text(calories.err.value)))
        else Response(StatusOK, Average(d, Quo(calories.value, days as int)))
  }

  /**
   * When the window fits in 64 bits, the average is over exactly the
   * entries stamped at or after midnight `days - 1` days ago, and it is the
   * truncation of their true mean.
   */
  lemma AverageOverWindow(reg: Registry, d: string, startOfToday: int64)
    requires reg.hasTable && ValidDays(d) && WindowFits(Atoi(d).value as int, startOfToday)
    ensures var n := Atoi(d).value as int;
            var sum := SumSince(reg.rows, (startOfToday as int - (n - 1) * SecondsPerDay) as int64);
            var r := GetCaloriesHandler(reg, Some(d), startOfToday, QueryFaults(Ok, Ok));
            r.status == StatusOK && r.body.Average? && r.body.days == d &&
            Abs(sum - r.body.avgCalories * n) < n &&
            (sum - r.body.avgCalories * n == 0 || (sum - r.body.avgCalories * n < 0 <==> sum < 0))
  {
    DaysAgoExact(Atoi(d).value, startOfToday);
  }

  /** Any day count below one, written in decimal, is refused without touching the registry. */
  lemma NonPositiveDaysRejected(reg: Registry, n: int64, startOfToday: int64, f: QueryFaults)
    requires n < 1
    ensures GetCaloriesHandler(reg, Some(FormatInt(n as int)), startOfToday, f) == Response(StatusBadRequest, Error(IllegalParameter))
  {
    FormatIntRoundTrip(n as int);
  }

  /** Leaving `days` out is answered exactly as `days=1` is. */
  lemma MissingDaysIsOneDay(reg: Registry, startOfToday: int64, f: QueryFaults)
    ensures GetCaloriesHandler(reg, None, startOfToday, f) == GetCaloriesHandler(reg, Some("1"), startOfToday, f)
  {
  }

  /** An empty table averages to 0 over the default single day. */
  lemma EmptyTableAverage(reg: Registry, startOfToday: int64)
    requires reg.hasTable && reg.rows == []
    ensures GetCaloriesHandler(reg, None, startOfToday, QueryFaults(Ok, Ok)) == Response(StatusOK, Average("1", 0))
  {
  }

  /** Three 500-calorie meals today: 1500 for the default day, 300 averaged over five days. */
  lemma ThreeMealsToday(reg: Registry, startOfToday: int64, t1: int64, t2: int64, t3: int64)
    requires startOfToday <= t1 && startOfToday <= t2 && startOfToday <= t3
    requires WindowFits(5, startOfToday)
    requires reg.hasTable
    requires reg.rows == [Entry(t1, "Breakfast", 500), Entry(t2, "Dinner", 500), Entry(t3, "Lunch", 500)]
    ensures GetCaloriesHandler(reg, None, startOfToday, QueryFaults(Ok, Ok)) == Response(StatusOK, Average("1", 1500))
    ensures GetCaloriesHandler(reg, Some("5"), startOfToday, QueryFaults(Ok, Ok)) == Response(StatusOK, Average("5", 300))
  {
    DaysAgoToday(startOfToday);
    DaysAgoExact(5, startOfToday);
    assert Atoi("1") == Some(1) && Atoi("5") == Some(5);
    var rows := reg.rows;
    forall t: int64 | t <= startOfToday ensures SumSince(rows, t) == 1500 {
      assert rows[1..][1..][1..] == [];
      assert SumSince(rows[1..][1..], t) == 500;
      assert SumSince(rows[1..], t) == 1000;
    }
    assert Quo(1500, 1) == 1500 && Quo(1500, 5) == 300;
  }

  /** A non-numeric calories parameter such as "abc" is refused. */
  lemma NonNumericCalories()
    ensures Atoi("abc") == None
  {
    ParseIntRejectsNonDigit("abc", 0);
  }

  /**
   * AddEntryHandler: refuses a non-integer `calories`; otherwise stores
   * the entry stamped by DefaultTimestamp and reports the registry's error
   * or "entry added".
   */
  method AddEntryHandler(reg: Registry, food: string, calories: string, timestamp: string, now: int64, f: TxFaults)
    returns (r: Response)
    requires |timestamp| >= 1
    requires reg.Valid()
    modifies reg
    ensures reg.Valid() && reg.hasTable == old(reg.hasTable)
    ensures Atoi(calories).None? ==> r == Response(StatusBadRequest, Error(IllegalParameter)) && reg.rows == old(reg.rows)
    ensures Atoi(calories).Some? ==>
              var e := Entry(DefaultTimestamp(timestamp, now), food, Atoi(calories).value);
              var err := Insert(old(reg.hasTable), f);
              r == (if err.None? then Response(StatusOK, Message(EntryAdded)) else Response(StatusBadRequest, Error(Text(err.value)))) &&
              reg.rows == if err.None? then old(reg.rows) + [e] else old(reg.rows)
  {
    var ts := DefaultTimestamp(timestamp, now);
    var entryCalories := Atoi(calories);
    if entryCalories.None? {
      return Response(StatusBadRequest, Error(IllegalParameter));
    }
    var err := reg.AddEntry(Entry(ts, food, entryCalories.value), f);
    if err.Some? {
      return Response(StatusBadRequest, Error(Text(err.value)));
    }
    return Response(StatusOK, Message(EntryAdded));
  }

  /** GetEntriesHandler: every entry with 200, or the registry's error text with 400. */
  method GetEntriesHandler(reg: Registry, f: ReadFaults) returns (r: Response)
    ensures var l := List(reg.hasTable, reg.rows, f);
            r == if l.err.Some? then Response(StatusBadRequest, Error(Text(l.err.value)))
                 else Response(StatusOK, Entries(reg.rows))
  {
    var entries, err := reg.GetEntries(f);
    if err.Some? {
      return Response(StatusBadRequest, Error(Text(err.value)));
    }
    return Response(StatusOK, Entries(entries.value));
  }

  /** An empty table lists as an empty, non-nil slice with no error. */
  lemma EmptyTableListing()
    ensures List(true, [], ReadFaults(Ok, Ok, [], Ok)) == Listing(Some([]), None)
  {
  }
}
