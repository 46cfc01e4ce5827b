/** The optional value used for Go's nil results and for "parse failed". */
module Wrappers {
  datatype Option<+T> = None | Some(value: T)
}

/**
 * Go's 64-bit integer arithmetic as the service relies on it: `int64`,
 * Go's `int` on a 64-bit platform, two's-complement wrap-around and the
 * truncating integer division of Go's `/` operator.
 */
module GoInt {
  const TwoTo64: int := 0x1_0000_0000_0000_0000
  const MinInt64: int := -0x8000_0000_0000_0000
  const MaxInt64: int := 0x7FFF_FFFF_FFFF_FFFF

  /** Go's `int64`, and Go's `int` on the 64-bit platforms the service runs on. */
  newtype int64 = x: int | -0x8000_0000_0000_0000 <= x <= 0x7FFF_FFFF_FFFF_FFFF

  predicate InInt64(x: int) {
    MinInt64 <= x <= MaxInt64
  }

  function Abs(x: int): nat {
    if x < 0 then -x else x
  }

  /** The int64 that a Go operation whose exact result is `x` produces: `x` modulo 2^64. */
  function Wrap(x: int): (r: int64)
    ensures (x - r as int) % TwoTo64 == 0
    ensures InInt64(x) ==> r as int == x
  {
    var m := (x - MinInt64) % TwoTo64;
    assert x - MinInt64 == TwoTo64 * ((x - MinInt64) / TwoTo64) + m;
    (m + MinInt64) as int64
  }

  /** Scaling both sides keeps two integers congruent modulo 2^64. */
  lemma CongruentScale(a: int, b: int, c: int)
    requires (a - b) % TwoTo64 == 0
    ensures (a * c - b * c) % TwoTo64 == 0
  {
    var q := (a - b) / TwoTo64;
    assert a - b == TwoTo64 * q;
    assert a * c - b * c == TwoTo64 * (q * c);
  }

  /** Congruence modulo 2^64 is transitive. */
  lemma CongruentTrans(a: int, b: int, c: int)
    requires (a - b) % TwoTo64 == 0 && (b - c) % TwoTo64 == 0
    ensures (a - c) % TwoTo64 == 0
  {
    var p, q := (a - b) / TwoTo64, (b - c) / TwoTo64;
    assert a - b == TwoTo64 * p && b - c == TwoTo64 * q;
    assert a - c == TwoTo64 * (p + q);
  }

  /** Go's `a / b` on integers: the quotient truncated toward zero. */
  function Quo(a: int, b: int): (q: int)
    requires b != 0
    ensures Abs(a - q * b) < Abs(b)
    ensures a - q * b == 0 || (a - q * b < 0 <==> a < 0)
  {
    var n, d := Abs(a), Abs(b);
    var k, m := n / d, n % d;
    var q := if (a < 0) == (b < 0) then k else -k;
    QuoRemainder(a, b, k, m, q);
    q
  }

  /** The remainder left by the truncated quotient carries the sign of the dividend. */
  lemma QuoRemainder(a: int, b: int, k: int, m: int, q: int)
    requires b != 0
    requires Abs(a) == k * Abs(b) + m && 0 <= m < Abs(b)
    requires q == if (a < 0) == (b < 0) then k else -k
    ensures a - q * b == if a < 0 then -m else m
  {
    if b < 0 {
      assert q * b == -(q * Abs(b));
    }
    if (a < 0) != (b < 0) {
      assert q * Abs(b) == -(k * Abs(b));
    }
  }

  /** The two properties of Quo determine the quotient: no other integer has both. */
  lemma QuoUnique(a: int, b: int, q: int)
    requires b != 0
    requires Abs(a - q * b) < Abs(b)
    requires a - q * b == 0 || (a - q * b < 0 <==> a < 0)
    ensures q == Quo(a, b)
  {
    var p := Quo(a, b);
    var r, s := a - q * b, a - p * b;
    assert r - s == (p - q) * b;
    assert Abs(r - s) < Abs(b);
    if p != q {
      MulAbsAtLeast(p - q, b);
      assert false;
    }
  }

  lemma MulAbsAtLeast(x: int, y: int)
    requires x != 0
    ensures Abs(x * y) >= Abs(y)
  {
    var u, v := Abs(x), Abs(y);
    assert (u - 1) * v >= 0;
    assert u * v == (u - 1) * v + v;
    if x < 0 {
      assert x * y == -(u * y);
    }
    if y < 0 {
      assert u * y == -(u * v);
    }
  }
}
