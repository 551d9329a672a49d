/**
 * Fixed-width integer semantics shared by the generator and the fixed-point
 * scalar: Rust's `i32` and `i64` as subset types of `int`, the truncating
 * `as` casts, and Rust's signed division, which rounds toward zero (Dafny's
 * own `/` on `int` is Euclidean).
 */
module Ints {

  const I32_MIN: int := -0x8000_0000
  const I32_MAX: int := 0x7FFF_FFFF
  const I64_MIN: int := -0x8000_0000_0000_0000
  const I64_MAX: int := 0x7FFF_FFFF_FFFF_FFFF
  /** `u64::MAX` */
  const U64_MAX: int := 0xFFFF_FFFF_FFFF_FFFF

  newtype i32 = x: int | -0x8000_0000 <= x < 0x8000_0000
  newtype i64 = x: int | -0x8000_0000_0000_0000 <= x < 0x8000_0000_0000_0000

  predicate InI32(x: int) { I32_MIN <= x <= I32_MAX }
  predicate InI64(x: int) { I64_MIN <= x <= I64_MAX }

  function Abs(x: int): nat { if x < 0 then -x else x }

  /** 2^k, the value of `1 << k`. */
  function Pow2(k: nat): (p: nat)
    ensures p >= 1
  {
    if k == 0 then 1 else 2 * Pow2(k - 1)
  }

  /** Powers of two multiply by adding exponents. */
  lemma {:induction false} Pow2Add(a: nat, b: nat)
    ensures Pow2(a + b) == Pow2(a) * Pow2(b)
    decreases a
  {
    if a > 0 {
      Pow2Add(a - 1, b);
    }
  }

  /** The powers of two the generator and the fixed-point scale use. */
  lemma Pow2Values()
    ensures Pow2(16) == 0x1_0000
    ensures Pow2(32) == 0x1_0000_0000
  {
    assert Pow2(2) == 4;
    Pow2Add(2, 2);
    assert Pow2(4) == 16;
    Pow2Add(4, 4);
    assert Pow2(8) == 256;
    Pow2Add(8, 8);
    assert Pow2(16) == 0x1_0000;
    Pow2Add(16, 16);
  }

  /**
   * Rust's `x as i32` on a wider signed integer: keeps the low 32 bits and
   * reads them as two's complement. It is the identity on values that fit.
   */
  function WrapI32(x: int): (r: i32)
    ensures InI32(x) ==> r as int == x
    ensures (x - r as int) % 0x1_0000_0000 == 0
  {
    ((x - I32_MIN) % 0x1_0000_0000 + I32_MIN) as i32
  }

  /**
   * The value an `i64` holds after an operation that silently drops the bits
   * above bit 63, such as `<<`: the result agrees with `x` modulo 2^64.
   */
  function WrapI64(x: int): (r: i64)
    ensures InI64(x) ==> r as int == x
    ensures (x - r as int) % 0x1_0000_0000_0000_0000 == 0
  {
    ((x - I64_MIN) % 0x1_0000_0000_0000_0000 + I64_MIN) as i64
  }

  /**
   * Rust's `/` on signed integers: the exact quotient rounded toward zero.
   * Its magnitude is the floor of |x| / |y|, and it is negative exactly when
   * the operands have opposite signs and |x| >= |y|.
   */
  function TruncDiv(x: int, y: int): (q: int)
    requires y != 0
    ensures Abs(q) * Abs(y) <= Abs(x) < (Abs(q) + 1) * Abs(y)
    ensures q != 0 ==> (q > 0 <==> (x > 0) == (y > 0))
  {
    var a, b := Abs(x), Abs(y);
    var m := a / b;
    FloorDivBounds(a, b);
    assert 0 <= m && (a == 0 ==> m == 0);
    if (x >= 0) == (y > 0) then
      assert Abs(m) == m; m
    else
      assert Abs(-m) == m; -m
  }

  /**
   * Euclidean division by a positive divisor is the floor, which is also
   * what `>>` by k computes on a signed integer (divisor 2^k); it keeps an
   * i64 value in range.
   */
  lemma FloorDivBounds(p: int, d: int)
    requires d > 0
    ensures (p / d) * d <= p < (p / d + 1) * d
    ensures InI64(p) ==> InI64(p / d)
  {
    var q, r := p / d, p % d;
    assert p == q * d + r && 0 <= r < d;
    assert (q + 1) * d == q * d + d;
  }

  /**
   * The remainder left by TruncDiv: it is smaller than the divisor in
   * magnitude and never has the opposite sign of the dividend.
   */
  lemma TruncDivRemainder(x: int, y: int)
    requires y != 0
    ensures Abs(x - TruncDiv(x, y) * y) < Abs(y)
    ensures x >= 0 ==> x - TruncDiv(x, y) * y >= 0
    ensures x <= 0 ==> x - TruncDiv(x, y) * y <= 0
  {
    var q := TruncDiv(x, y);
    var m := Abs(x) / Abs(y);
    FloorDivBounds(Abs(x), Abs(y));
    if x >= 0 && y > 0 {
      assert q * y == m * Abs(y);
    } else if x >= 0 {
      assert q * y == m * Abs(y);
    } else if y > 0 {
      assert q * y == -(m * Abs(y));
    } else {
      assert q * y == -(m * Abs(y));
    }
  }
}
