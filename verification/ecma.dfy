/** The ECMAScript (ECMA-262) integer operators the avatar colour uses, on
    Numbers that hold integers exactly. The bitwise operators read their
    operands through ToInt32 and produce 32-bit two's-complement results. */
module Ecma {

  const TwoTo31: int := 0x8000_0000
  const TwoTo32: int := 0x1_0000_0000

  function Pow2(n: nat): (r: nat)
    ensures r >= 1
  {
    if n == 0 then 1 else 2 * Pow2(n - 1)
  }

  /** ToInt32 (section 7.1.6 of ECMA-262) of an integral Number: the one value
      in [-2^31, 2^31) congruent to `x` modulo 2^32. */
  function ToInt32(x: int): (r: int)
    ensures -TwoTo31 <= r < TwoTo31
    ensures (x - r) % TwoTo32 == 0
  {
    var m := x % TwoTo32;
    if m >= TwoTo31 then m - TwoTo32 else m
  }

  /** `x << count` (Number::leftShift): the 32-bit pattern of `x` shifted
      left, the bits above bit 31 dropped. */
  function LeftShift(x: int, count: nat): (r: int)
    requires count < 32
    ensures -TwoTo31 <= r < TwoTo31
    ensures (x * Pow2(count) - r) % TwoTo32 == 0
  {
    var t := ToInt32(x);
    ScaleCongruent(x, t, Pow2(count));
    SumOfMultiples(x * Pow2(count) - t * Pow2(count), t * Pow2(count) - ToInt32(t * Pow2(count)));
    ToInt32(t * Pow2(count))
  }

  /** `x >> count` (Number::signedRightShift): an arithmetic shift, which is
      division rounded toward negative infinity. Dafny's `/` rounds that way
      for a positive divisor. */
  function SignedRightShift(x: int, count: nat): (r: int)
    requires count < 32
    ensures -TwoTo31 <= r < TwoTo31
    ensures Pow2(count) * r <= ToInt32(x) < Pow2(count) * (r + 1)
  {
    FloorDivBounds(ToInt32(x), Pow2(count));
    ToInt32(x) / Pow2(count)
  }

  /** Division by a positive divisor rounds down and never moves a value
      away from zero. */
  lemma FloorDivBounds(a: int, d: int)
    requires d >= 1
    ensures d * (a / d) <= a < d * (a / d + 1)
    ensures a >= 0 ==> 0 <= a / d <= a
    ensures a < 0 ==> a <= a / d < 0
  {
    var q, m := a / d, a % d;
    assert a == d * q + m && 0 <= m < d;
    assert d * (q + 1) == d * q + d;
    MulKeepsSign(d, q);
    MulKeepsSign(d, q + 1);
  }

  /** Multiplying by a positive factor keeps the sign and never shrinks the
      magnitude. */
  lemma MulKeepsSign(d: int, q: int)
    requires d >= 1
    ensures q >= 0 ==> d * q >= q
    ensures q < 0 ==> d * q <= q
  {
    assert d * q - q == (d - 1) * q;
  }

  /** ToInt32 leaves a value already in the signed 32-bit range unchanged. */
  lemma ToInt32InRange(v: int)
    requires -TwoTo31 <= v < TwoTo31
    ensures ToInt32(v) == v
  {
    if v >= 0 {
      assert v % TwoTo32 == v;
    } else {
      assert v % TwoTo32 == v + TwoTo32;
    }
  }

  /** `x & 0xff`: the low eight bits of the 32-bit pattern of `x`. */
  function AndLowByte(x: int): (r: int)
    ensures 0 <= r < 256
    ensures (x - r) % 256 == 0
  {
    var t := ToInt32(x);
    var k := (x - t) / TwoTo32;
    assert x - t == TwoTo32 * k;
    DivMod256(t, t / 256, t % 256);
    DivMod256(x - t % 256, 0x100_0000 * k + t / 256, 0);
    t % 256
  }

  /** Division by 256 of a value given as quotient and remainder. */
  lemma DivMod256(n: int, q: int, r: int)
    requires n == 256 * q + r && 0 <= r < 256
    ensures n / 256 == q && n % 256 == r
  {
  }

  /** Division by 2^16 of a value given as quotient and remainder. */
  lemma DivMod65536(n: int, q: int, r: int)
    requires n == 0x1_0000 * q + r && 0 <= r < 0x1_0000
    ensures n / 0x1_0000 == q && n % 0x1_0000 == r
  {
  }

  /** Scaling two values congruent modulo 2^32 keeps them congruent. */
  lemma ScaleCongruent(a: int, b: int, p: int)
    requires (a - b) % TwoTo32 == 0
    ensures (a * p - b * p) % TwoTo32 == 0
  {
    var k := (a - b) / TwoTo32;
    assert a - b == TwoTo32 * k;
    calc {
      a * p - b * p;
      (a - b) * p;
      (TwoTo32 * k) * p;
      TwoTo32 * (k * p);
    }
  }

  /** The sum of two multiples of 2^32 is one. */
  lemma SumOfMultiples(u: int, v: int)
    requires u % TwoTo32 == 0 && v % TwoTo32 == 0
    ensures (u + v) % TwoTo32 == 0
  {
    var a, b := u / TwoTo32, v / TwoTo32;
    assert u + v == TwoTo32 * (a + b);
  }

  /** Values that differ by a multiple of 2^32 have one remainder modulo 2^32. */
  lemma ModOfCongruent(a: int, b: int)
    requires (a - b) % TwoTo32 == 0
    ensures a % TwoTo32 == b % TwoTo32
  {
    var k := (a - b) / TwoTo32;
    assert a == b + TwoTo32 * k;
  }
}
