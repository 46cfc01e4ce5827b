/**
 * The time helpers of time/helper.go: the timestamp taken from the optional
 * trailing path segment of an add request, and the start of the day window
 * that averages are computed over.
 *
 * The wall clock is not modelled: the current Unix time (`now`) and the
 * Unix time of local midnight today (`startOfToday`) are parameters.
 */
module TimeHelper {
  import opened Wrappers
  import opened GoInt
  import opened Strconv

  const SecondsPerDay: int := 24 * 60 * 60

  /** A character encoded in one byte of UTF-8. */
  predicate IsAscii(c: char) {
    c as int < 0x80
  }

  /**
   * DefaultTimestamp: drop the first byte of `s` (the router's leading `/`),
   * parse the rest as a base-10 int64, and fall back to `now` when that fails.
   * Go slices bytes; when the first character is not ASCII its UTF-8
   * encoding is longer than one byte, so the rest starts with a
   * continuation byte that never parses, and the result is `now`.
   */
  function DefaultTimestamp(s: string, now: int64): (t: int64)
    requires |s| >= 1
    ensures t != now ==> IsAscii(s[0]) && ParseInt(s[1..]) == Some(t)
    ensures IsAscii(s[0]) && ParseInt(s[1..]).Some? ==> t == ParseInt(s[1..]).value
  {
    if !IsAscii(s[0]) then now
    else
      match ParseInt(s[1..])
      case Some(n) => n
      case None => now
  }

  /** Round trip: a segment that renders any int64 after its slash yields exactly that timestamp. */
  lemma DefaultTimestampRoundTrip(n: int64, now: int64)
    ensures DefaultTimestamp("/" + FormatInt(n as int), now) == n
  {
    var s := "/" + FormatInt(n as int);
    assert s[1..] == FormatInt(n as int);
    FormatIntRoundTrip(n as int);
  }

  /**
   * Any sign-and-digits literal after the slash, leading zeros and a `+`
   * included, is the timestamp when it fits in 64 bits; otherwise `now`.
   */
  lemma DefaultTimestampLiteral(sign: string, ds: string, now: int64)
    requires sign == "" || sign == "+" || sign == "-"
    requires ds != [] && AllDigits(ds)
    ensures var v: int := if sign == "-" then -(DigitsValue(ds) as int) else DigitsValue(ds);
            DefaultTimestamp("/" + sign + ds, now) == if InInt64(v) then v as int64 else now
  {
    var s := "/" + sign + ds;
    assert s[1..] == sign + ds;
    ParseIntAccepts(sign, ds);
  }

  /** The requests whose segment is just "/" (no timestamp given) are stamped `now`. */
  lemma DefaultTimestampBareSlash(now: int64)
    ensures DefaultTimestamp("/", now) == now
  {
    ParseIntRejectsNoDigits("/"[1..]);
  }

  /** Anything after the slash that is not a sign-and-digits literal is stamped `now`. */
  lemma DefaultTimestampNonDigit(s: string, i: nat, now: int64)
    requires 1 <= i < |s| && !IsDigit(s[i])
    requires i > 1 || !IsSign(s[1])
    ensures DefaultTimestamp(s, now) == now
  {
    if IsAscii(s[0]) {
      assert s[1..][i - 1] == s[i];
      ParseIntRejectsNonDigit(s[1..], i - 1);
    }
  }

  /**
   * GetDaysAgoAsUnix: `startOfToday - int64((d-1)*24*60*60)` computed in Go's
   * 64-bit `int`, wrapping on overflow at every step.
   */
  function GetDaysAgoAsUnix(d: int64, startOfToday: int64): (r: int64)
    ensures (startOfToday as int - (d as int - 1) * SecondsPerDay - r as int) % TwoTo64 == 0
  {
    var k := d as int - 1;
    var w1 := Wrap(k);
    var w2 := Wrap(w1 as int * 24);
    var w3 := Wrap(w2 as int * 60);
    var offset := Wrap(w3 as int * 60);
    var r := Wrap(startOfToday as int - offset as int);
    OffsetCongruent(k, w1 as int, w2 as int, w3 as int, offset as int);
    CongruentScale(k * SecondsPerDay, offset as int, -1);
    CongruentTrans(startOfToday as int - k * SecondsPerDay, startOfToday as int - offset as int, r as int);
    r
  }

  /** Wrapping after each factor of `(d-1)*24*60*60` leaves the offset congruent to the exact one. */
  lemma OffsetCongruent(k: int, w1: int, w2: int, w3: int, w4: int)
    requires (k - w1) % TwoTo64 == 0
    requires (w1 * 24 - w2) % TwoTo64 == 0
    requires (w2 * 60 - w3) % TwoTo64 == 0
    requires (w3 * 60 - w4) % TwoTo64 == 0
    ensures (k * SecondsPerDay - w4) % TwoTo64 == 0
  {
    CongruentScale(k, w1, 24);
    CongruentTrans(k * 24, w1 * 24, w2);
    CongruentScale(k * 24, w2, 60);
    CongruentTrans(k * 24 * 60, w2 * 60, w3);
    CongruentScale(k * 24 * 60, w3, 60);
    CongruentTrans(k * 24 * 60 * 60, w3 * 60, w4);
    assert k * 24 * 60 * 60 == k * SecondsPerDay;
  }

  /** The window of d days starting at startOfToday is representable without overflow. */
  predicate WindowFits(d: int, startOfToday: int64) {
    d >= 1 && (d - 1) * SecondsPerDay <= MaxInt64 && InInt64(startOfToday as int - (d - 1) * SecondsPerDay)
  }

  /** When nothing overflows, the window starts (d-1) whole days before today's midnight. */
  lemma DaysAgoExact(d: int64, startOfToday: int64)
    requires WindowFits(d as int, startOfToday)
    ensures GetDaysAgoAsUnix(d, startOfToday) as int == startOfToday as int - (d as int - 1) * SecondsPerDay
  {
    var k := d as int - 1;
    assert 0 <= k * 24 <= k * 24 * 60 <= k * 24 * 60 * 60 <= MaxInt64;
  }

  /** One day means "since midnight today". */
  lemma DaysAgoToday(startOfToday: int64)
    ensures GetDaysAgoAsUnix(1, startOfToday) == startOfToday
  {
  }

  /** Consecutive day counts start exactly one day (86400 seconds) apart. */
  lemma DaysAgoStep(d: int64, startOfToday: int64)
    requires 1 <= d < 0x7FFF_FFFF_FFFF_FFFF
    requires WindowFits(d as int + 1, startOfToday)
    ensures GetDaysAgoAsUnix(d, startOfToday) as int - GetDaysAgoAsUnix(d + 1, startOfToday) as int == SecondsPerDay
  {
    assert WindowFits(d as int, startOfToday);
    DaysAgoExact(d, startOfToday);
    DaysAgoExact(d + 1, startOfToday);
  }

  /** Within the representable range the start of the window never lies after today's midnight and moves strictly back as d grows. */
  lemma DaysAgoDecreasing(d1: int64, d2: int64, startOfToday: int64)
    requires 1 <= d1 < d2
    requires WindowFits(d2 as int, startOfToday)
    ensures GetDaysAgoAsUnix(d2, startOfToday) < GetDaysAgoAsUnix(d1, startOfToday) <= startOfToday
  {
    assert (d1 as int - 1) * SecondsPerDay < (d2 as int - 1) * SecondsPerDay;
    assert WindowFits(d1 as int, startOfToday);
    DaysAgoExact(d1, startOfToday);
    DaysAgoExact(d2, startOfToday);
  }

  /**
   * Beyond that range the offset wraps: at the Unix epoch, a day count of
   * 106751991167302 yields a window start far in the future instead of in
   * the past.
   */
  lemma DaysAgoWrapsIntoFuture()
    ensures GetDaysAgoAsUnix(106751991167302, 0) == 9223372036854745216
  {
  }
}
