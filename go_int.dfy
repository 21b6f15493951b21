/** Go's 64-bit signed integer arithmetic (`int` on 64-bit targets, `int64`,
    `time.Duration`): two's-complement wrap-around on overflow, and `/` that
    truncates toward zero. */
module GoInt {

  const TwoTo64: int := 0x1_0000_0000_0000_0000
  const MinInt64: int := -0x8000_0000_0000_0000
  const MaxInt64: int := 0x7FFF_FFFF_FFFF_FFFF

  newtype int64 = x: int | -0x8000_0000_0000_0000 <= x < 0x8000_0000_0000_0000

  /** Congruence modulo 2^64. */
  predicate Congruent(x: int, y: int) {
    (x - y) % TwoTo64 == 0
  }

  /** The int64 that an exact mathematical result wraps to. */
  function Wrap64(x: int): (r: int64)
    ensures Congruent(r as int, x)
    ensures MinInt64 <= x <= MaxInt64 ==> r as int == x
  {
    var m := (x - MinInt64) % TwoTo64;
    assert m - (x - MinInt64) == -((x - MinInt64) / TwoTo64) * TwoTo64;
    (m + MinInt64) as int64
  }

  /** Go's `a * b` on int64. */
  function Mul64(a: int64, b: int64): (r: int64)
    ensures Congruent(r as int, a as int * b as int)
    ensures MinInt64 <= a as int * b as int <= MaxInt64 ==> r as int == a as int * b as int
  {
    Wrap64(a as int * b as int)
  }

  /** Go's unary `-a` on int64 (so `-MinInt64 == MinInt64`). */
  function Neg64(a: int64): (r: int64)
    ensures Congruent(r as int, -(a as int))
    ensures a as int != MinInt64 ==> r as int == -(a as int)
    ensures a as int == MinInt64 ==> r == a
  {
    Wrap64(-(a as int))
  }

  /** Go's `a / b` with `b > 0`: the quotient truncated toward zero. */
  function Quo(a: int, b: int): (q: int)
    requires b > 0
    ensures a >= 0 ==> q >= 0 && q * b <= a < q * b + b
    ensures a < 0 ==> q <= 0 && q * b - b < a <= q * b
  {
    if a >= 0 then a / b else -((-a) / b)
  }

  lemma MultipleOfModulus(k: int)
    ensures Congruent(k * TwoTo64, 0)
  {
  }

  /** Two congruent values wrap to the same int64. */
  lemma {:induction false} CongruentWrapEqual(x: int, y: int)
    requires Congruent(x, y)
    ensures Wrap64(x) == Wrap64(y)
  {
    var k := (x - y) / TwoTo64;
    assert x == y + k * TwoTo64;
    var r, s := Wrap64(x) as int, Wrap64(y) as int;
    // r and s are congruent and both lie in [MinInt64, MaxInt64]
    var j := (r - s) / TwoTo64;
    assert (r - s) % TwoTo64 == 0 by {
      assert Congruent(r, x) && Congruent(s, y);
      var a := (r - x) / TwoTo64;
      var b := (s - y) / TwoTo64;
      assert r - s == (a - b + k) * TwoTo64;
      MultipleOfModulus(a - b + k);
    }
    assert r - s == j * TwoTo64;
    assert -TwoTo64 < r - s < TwoTo64;
    assert j == 0;
  }

  /** An in-range value congruent to x is what x wraps to. */
  lemma WrapUnique(x: int, r: int)
    requires MinInt64 <= r <= MaxInt64
    requires Congruent(r, x)
    ensures Wrap64(x) as int == r
  {
    assert Congruent(x, r) by {
      assert x - r == -(r - x);
    }
    CongruentWrapEqual(x, r);
  }

  /** Congruence is preserved by multiplication with a fixed factor. */
  lemma CongruentScale(x: int, y: int, c: int)
    requires Congruent(x, y)
    ensures Congruent(x * c, y * c)
  {
    var k := (x - y) / TwoTo64;
    assert x - y == k * TwoTo64;
    assert x * c - y * c == (k * c) * TwoTo64;
    MultipleOfModulus(k * c);
  }

  lemma CongruentNeg(x: int, y: int)
    requires Congruent(x, y)
    ensures Congruent(-x, -y)
  {
    var k := (x - y) / TwoTo64;
    assert -x - -y == (-k) * TwoTo64;
    MultipleOfModulus(-k);
  }

  lemma CongruentSym(x: int, y: int)
    requires Congruent(x, y)
    ensures Congruent(y, x)
  {
    CongruentNeg(x, y);
    assert y - x == -x - -y;
  }

  lemma CongruentTrans(x: int, y: int, z: int)
    requires Congruent(x, y) && Congruent(y, z)
    ensures Congruent(x, z)
  {
    var a := (x - y) / TwoTo64;
    var b := (y - z) / TwoTo64;
    assert x - z == (a + b) * TwoTo64;
    MultipleOfModulus(a + b);
  }
}
