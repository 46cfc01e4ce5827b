/**
 * The two Go standard-library conversions the service calls on request text:
 * `strconv.ParseInt(s, 10, 64)` and `strconv.Atoi(s)`, and the decimal
 * rendering `strconv.FormatInt(n, 10)` they invert.
 *
 * In base 10 both accept an optional `+` or `-`, then one or more ASCII
 * digits and nothing else (no spaces, no underscores), and fail when the
 * value does not fit in 64 bits.
 */
module Strconv {
  import opened Wrappers
  import opened GoInt

  predicate IsDigit(c: char) {
    '0' <= c <= '9'
  }

  predicate IsSign(c: char) {
    c == '+' || c == '-'
  }

  predicate AllDigits(s: string) {
    forall i | 0 <= i < |s| :: IsDigit(s[i])
  }

  /** The value of a run of decimal digits, most significant first. */
  function DigitsValue(ds: string): nat
    requires AllDigits(ds)
  {
    if ds == [] then 0
    else 10 * DigitsValue(ds[..|ds| - 1]) + (ds[|ds| - 1] as int - '0' as int)
  }

  /** The digits after an optional leading sign. */
  function Unsigned(s: string): string {
    if |s| > 0 && IsSign(s[0]) then s[1..] else s
  }

  /** An optional sign followed by one or more digits and nothing else. */
  predicate IsLiteral(s: string) {
    Unsigned(s) != [] && AllDigits(Unsigned(s))
  }

  /** The integer a literal denotes: its digits' value, negated after a `-`. */
  function LiteralValue(s: string): int
    requires IsLiteral(s)
  {
    if s[0] == '-' then -(DigitsValue(Unsigned(s)) as int) else DigitsValue(Unsigned(s))
  }

  /**
   * `strconv.ParseInt(s, 10, 64)`; None stands for a returned error (syntax
   * or range). It succeeds exactly on the literals whose value fits in 64
   * bits, and then returns that value.
   */
  function ParseInt(s: string): (r: Option<int64>)
    ensures r.Some? <==> IsLiteral(s) && InInt64(LiteralValue(s))
    ensures r.Some? ==> r.value as int == LiteralValue(s)
    ensures r.Some? ==> Abs(r.value as int) == DigitsValue(Unsigned(s))
    ensures r.Some? && s[0] == '-' ==> r.value <= 0
  {
    var ds := Unsigned(s);
    if ds == [] || !AllDigits(ds) then None
    else
      var v: int := if s[0] == '-' then -(DigitsValue(ds) as int) else DigitsValue(ds);
      if InInt64(v) then Some(v as int64) else None
  }

  /**
   * `strconv.Atoi(s)`. On a 64-bit platform Go's `int` has 64 bits and Atoi
   * accepts and rejects exactly what ParseInt(s, 10, 64) does.
   */
  function Atoi(s: string): (r: Option<int64>)
    ensures r.Some? <==> IsLiteral(s) && InInt64(LiteralValue(s))
    ensures r.Some? ==> r.value as int == LiteralValue(s)
  {
    ParseInt(s)
  }

  function Digit(d: nat): (c: char)
    requires d < 10
    ensures IsDigit(c)
  {
    ('0' as int + d) as char
  }

  /** The decimal digits of n, most significant first, without leading zeros. */
  function NatDigits(n: nat): string {
    if n < 10 then [Digit(n)] else NatDigits(n / 10) + [Digit(n % 10)]
  }

  /** `strconv.FormatInt(n, 10)`. */
  function FormatInt(n: int): string {
    if n < 0 then "-" + NatDigits(-n) else NatDigits(n)
  }

  lemma {:induction false} NatDigitsValue(n: nat)
    ensures NatDigits(n) != [] && AllDigits(NatDigits(n))
    ensures DigitsValue(NatDigits(n)) == n
  {
    var ds := NatDigits(n);
    if n >= 10 {
      NatDigitsValue(n / 10);
      assert ds[..|ds| - 1] == NatDigits(n / 10);
    }
  }

  /** Round trip: parsing the decimal rendering of any integer gives it back exactly when it fits in 64 bits. */
  lemma FormatIntRoundTrip(n: int)
    ensures ParseInt(FormatInt(n)) == if InInt64(n) then Some(n as int64) else None
  {
    var s := FormatInt(n);
    if n < 0 {
      NatDigitsValue(-n);
      assert s[1..] == NatDigits(-n);
    } else {
      NatDigitsValue(n);
      assert IsDigit(s[0]);
    }
  }

  /** The empty string and a bare sign are syntax errors. */
  lemma ParseIntRejectsNoDigits(s: string)
    requires s == [] || (|s| == 1 && IsSign(s[0]))
    ensures ParseInt(s) == None
  {
  }

  /** Any character that is neither a digit nor a leading sign makes the parse fail. */
  lemma ParseIntRejectsNonDigit(s: string, i: nat)
    requires i < |s| && !IsDigit(s[i])
    requires i > 0 || !IsSign(s[0])
    ensures ParseInt(s) == None
  {
    var ds := Unsigned(s);
    if |s| > 0 && IsSign(s[0]) {
      assert ds[i - 1] == s[i];
    } else {
      assert ds[i] == s[i];
    }
  }

  lemma {:induction false} DigitsValueLeadingZero(ds: string)
    requires AllDigits(ds)
    ensures AllDigits("0" + ds) && DigitsValue("0" + ds) == DigitsValue(ds)
  {
    if ds != [] {
      var zs := "0" + ds;
      assert zs[..|zs| - 1] == "0" + ds[..|ds| - 1];
      DigitsValueLeadingZero(ds[..|ds| - 1]);
    }
  }

  /**
   * Every sign-and-digits literal is accepted with its signed value when that
   * fits in 64 bits, and refused (range error) otherwise: "+5" is 5, "-5" is -5.
   */
  lemma ParseIntAccepts(sign: string, ds: string)
    requires sign == "" || sign == "+" || sign == "-"
    requires ds != [] && AllDigits(ds)
    ensures var v: int := if sign == "-" then -(DigitsValue(ds) as int) else DigitsValue(ds);
            ParseInt(sign + ds) == if InInt64(v) then Some(v as int64) else None
  {
    var s := sign + ds;
    if sign == "" {
      assert s == ds;
    } else {
      assert s[1..] == ds;
    }
  }

  /** Leading zeros do not change the value: "007" parses as 7, "-007" as -7. */
  lemma ParseIntLeadingZero(sign: string, ds: string)
    requires sign == "" || sign == "+" || sign == "-"
    requires ds != [] && AllDigits(ds)
    ensures ParseInt(sign + "0" + ds) == ParseInt(sign + ds)
  {
    var s, t := sign + "0" + ds, sign + ds;
    assert Unsigned(s) == "0" + ds by {
      if sign == "" { assert s == "0" + ds; } else { assert s[1..] == "0" + ds; }
    }
    assert Unsigned(t) == ds by {
      if sign == "" { assert t == ds; } else { assert t[1..] == ds; }
    }
    assert (s[0] == '-') == (t[0] == '-');
    DigitsValueLeadingZero(ds);
  }
}
