/**
 * The `DFix64` fixed-point scalar: a signed 64-bit integer read with an
 * implicit scale of 2^16, so the raw value 65536 stands for 1.0. Every
 * operation builds a fresh value from the wrapped integer. A Rust panic
 * (overflow of `+`, `-`, `*`, unary `-` or `abs`, division by zero,
 * `i64::MIN / -1`, `clamp` with min > max) is a precondition here; the
 * silent bit loss of `<<` is modelled as it happens.
 */
module FixedPoint {
  import opened Ints

  /** `FIXED_POINT_SHIFT`: the number of fraction bits. */
  const FIXED_POINT_SHIFT: nat := 16

  /** `FIXED_POINT_ONE`, that is `1 << FIXED_POINT_SHIFT`: the raw value of 1.0. */
  const FIXED_POINT_ONE: int := 0x1_0000

  lemma FixedPointOneIsShift()
    ensures FIXED_POINT_ONE == Pow2(FIXED_POINT_SHIFT)
  {
    Pow2Values();
  }

  /** Only a raw value of magnitude below 2^47 survives `<< FIXED_POINT_SHIFT` intact. */
  const SHIFT_SAFE: int := 0x8000_0000_0000

  datatype DFix64 = DFix64(raw: i64)

  /** The real number a DFix64 stands for: raw / 2^16. */
  function Value(x: DFix64): real {
    x.raw as real / FIXED_POINT_ONE as real
  }

  /** Distinct raw values stand for distinct numbers. */
  lemma ValueInjective(a: DFix64, b: DFix64)
    ensures Value(a) == Value(b) <==> a == b
  {
    if Value(a) == Value(b) {
      assert a.raw as real == Value(a) * FIXED_POINT_ONE as real;
      assert b.raw as real == Value(b) * FIXED_POINT_ONE as real;
    }
  }

  // ---------------------------------------------------------------------------
  // Constants

  /** `Scalar::ZERO`. */
  const ZERO: DFix64 := DFix64(0)

  /** `Scalar::ONE`. */
  const ONE: DFix64 := DFix64(0x1_0000)

  /** `Scalar::epsilon()`: the smallest positive value, one quantum of 2^-16. */
  function Epsilon(): (e: DFix64)
    ensures e.raw > 0
    ensures forall x: DFix64 :: x.raw > 0 ==> e.raw <= x.raw
    ensures Value(e) == 1.0 / 65536.0
  {
    DFix64(1)
  }

  lemma ConstantValues()
    ensures Value(ZERO) == 0.0
    ensures Value(ONE) == 1.0
    ensures ONE.raw as int == FIXED_POINT_ONE
  {}

  // ---------------------------------------------------------------------------
  // Ordering (derived `PartialOrd`/`Ord` on the single field)

  /** `a <= b`: the derived order on raw values is the order of the numbers they stand for. */
  predicate Le(a: DFix64, b: DFix64)
    ensures Le(a, b) <==> Value(a) <= Value(b)
  {
    ScaleBack(a);
    ScaleBack(b);
    a.raw <= b.raw
  }

  lemma ScaleBack(x: DFix64)
    ensures x.raw as real == Value(x) * FIXED_POINT_ONE as real
  {}

  // ---------------------------------------------------------------------------
  // Add, Sub, Neg: exact on the raw integers

  /** `a + b`. */
  function Add(a: DFix64, b: DFix64): (r: DFix64)
    requires InI64(a.raw as int + b.raw as int)
    ensures Value(r) == Value(a) + Value(b)
  {
    DFix64(a.raw + b.raw)
  }

  /** `a - b`. */
  function Sub(a: DFix64, b: DFix64): (r: DFix64)
    requires InI64(a.raw as int - b.raw as int)
    ensures Value(r) == Value(a) - Value(b)
  {
    DFix64(a.raw - b.raw)
  }

  /** `-a`. */
  function Neg(a: DFix64): (r: DFix64)
    requires InI64(-(a.raw as int))
    ensures Value(r) == -Value(a)
  {
    DFix64(-a.raw)
  }

  lemma AddNegCancels(a: DFix64)
    requires a.raw as int != I64_MIN
    ensures Add(a, Neg(a)) == ZERO
  {}

  lemma SubUndoesAdd(a: DFix64, b: DFix64)
    requires InI64(a.raw as int + b.raw as int)
    ensures Sub(Add(a, b), b) == a
  {}

  lemma NegInvolutive(a: DFix64)
    requires a.raw as int != I64_MIN
    ensures Neg(Neg(a)) == a
  {}

  // ---------------------------------------------------------------------------
  // Mul: `(a * b) >> 16`

  /**
   * `a * b`: the raw product shifted right arithmetically by 16, so the
   * result is the exact product rounded toward negative infinity. The raw
   * product itself must fit in i64 (Rust's `*` panics otherwise).
   */
  function Mul(a: DFix64, b: DFix64): (r: DFix64)
    requires InI64(a.raw as int * b.raw as int)
    ensures r.raw as int * FIXED_POINT_ONE <= a.raw as int * b.raw as int
    ensures a.raw as int * b.raw as int < (r.raw as int + 1) * FIXED_POINT_ONE
  {
    var p := a.raw as int * b.raw as int;
    // `>>` on a signed integer is a floor division by the power of two, as is
    // Dafny's `/` by a positive divisor.
    FloorDivBounds(p, FIXED_POINT_ONE);
    DFix64((p / FIXED_POINT_ONE) as i64)
  }

  lemma MulOneOne()
    ensures Mul(ONE, ONE) == ONE
  {}

  /** ONE is a right identity of Mul wherever Mul is defined on it, that is for |x| < 2^47. */
  lemma MulOneIdentity(x: DFix64)
    requires -SHIFT_SAFE <= x.raw as int < SHIFT_SAFE
    ensures InI64(x.raw as int * ONE.raw as int)
    ensures Mul(x, ONE) == x
  {
    var r := Mul(x, ONE);
    assert r.raw as int * FIXED_POINT_ONE <= x.raw as int * FIXED_POINT_ONE < (r.raw as int + 1) * FIXED_POINT_ONE;
  }

  // ---------------------------------------------------------------------------
  // Div: `(a << 16) / b`

  /**
   * `x << FIXED_POINT_SHIFT` on an i64: the bits shifted past bit 63 are
   * dropped, so the result agrees with x * 2^16 modulo 2^64 and equals it
   * exactly when |x| < 2^47.
   */
  function ShiftLeft16(x: i64): (r: i64)
    ensures -SHIFT_SAFE <= x as int < SHIFT_SAFE ==> r as int == x as int * FIXED_POINT_ONE
    ensures (x as int * FIXED_POINT_ONE - r as int) % 0x1_0000_0000_0000_0000 == 0
  {
    WrapI64(x as int * FIXED_POINT_ONE)
  }

  /**
   * `a / b`: the shifted dividend divided by the raw divisor, rounded toward
   * zero. Rust panics on a zero divisor and on `i64::MIN / -1`.
   */
  function Div(a: DFix64, b: DFix64): (r: DFix64)
    requires b.raw != 0
    requires !(ShiftLeft16(a.raw) as int == I64_MIN && b.raw == -1)
    ensures Ints.Abs(r.raw as int) * Ints.Abs(b.raw as int) <= Ints.Abs(ShiftLeft16(a.raw) as int)
    ensures Ints.Abs(ShiftLeft16(a.raw) as int) < (Ints.Abs(r.raw as int) + 1) * Ints.Abs(b.raw as int)
    ensures r.raw != 0 ==> (r.raw > 0 <==> (ShiftLeft16(a.raw) > 0) == (b.raw > 0))
  {
    var x := ShiftLeft16(a.raw) as int;
    var q := TruncDiv(x, b.raw as int);
    TruncDivInI64(x, b.raw as int);
    DFix64(q as i64)
  }

  /** The quotient of two i64 values fits in i64 except for `i64::MIN / -1`. */
  lemma TruncDivInI64(x: int, y: int)
    requires InI64(x) && InI64(y) && y != 0
    requires !(x == I64_MIN && y == -1)
    ensures InI64(TruncDiv(x, y))
  {
    var q := TruncDiv(x, y);
    var aq, ay, ax := Ints.Abs(q), Ints.Abs(y), Ints.Abs(x);
    assert aq * ay <= ax;
    MulMonotone(aq, 1, ay);
    assert aq <= ax <= -I64_MIN;
    if aq == -I64_MIN {
      if ay >= 2 {
        MulMonotone(aq, 2, ay);
        assert false;
      }
      assert x == I64_MIN && y == 1;
      assert q < 0;
    }
  }

  lemma MulMonotone(a: nat, b: nat, c: nat)
    requires b <= c
    ensures a * b <= a * c
  {
    assert a * c == a * b + a * (c - b);
  }

  /** ONE is a right identity of Div when the dividend survives the shift. */
  lemma DivOneIdentity(x: DFix64)
    requires -SHIFT_SAFE <= x.raw as int < SHIFT_SAFE
    ensures Div(x, ONE) == x
  {
    var r := Div(x, ONE);
    var s := x.raw as int * FIXED_POINT_ONE;
    assert ShiftLeft16(x.raw) as int == s;
    assert Ints.Abs(r.raw as int) * FIXED_POINT_ONE <= Ints.Abs(s) < (Ints.Abs(r.raw as int) + 1) * FIXED_POINT_ONE;
    assert Ints.Abs(s) == Ints.Abs(x.raw as int) * FIXED_POINT_ONE;
    assert Ints.Abs(r.raw as int) == Ints.Abs(x.raw as int);
  }

  /** Strict bounds on a product by a positive factor bound the other factor. */
  lemma FactorBetween(q: int, lo: int, hi: int, c: int)
    requires c > 0
    requires lo * c < q * c < hi * c
    ensures lo < q < hi
  {
    assert (q - lo) * c == q * c - lo * c;
    assert (hi - q) * c == hi * c - q * c;
  }

  /**
   * The integer core of MulDivWithinQuantum: x lies within one quantum below
   * a * y, and |y| is at least one quantum, so x / y truncated lies within
   * one of a.
   */
  lemma QuotientNear(a: int, y: int, x: int)
    requires FIXED_POINT_ONE <= Ints.Abs(y)
    requires a * y - FIXED_POINT_ONE < x <= a * y
    ensures Ints.Abs(TruncDiv(x, y) - a) <= 1
  {
    var q := TruncDiv(x, y);
    TruncDivRemainder(x, y);
    var r := x - q * y;
    if y > 0 {
      assert -y < r < y;
      QuotientNearPositive(a, y, x, q);
    } else {
      var c := -y;
      assert -c < r < c;
      assert q * c == -(q * y);
      assert a * c == -(a * y);
      QuotientNearPositive(a, c, -x, q);
    }
  }

  lemma QuotientNearPositive(a: int, c: int, x: int, q: int)
    requires FIXED_POINT_ONE <= c
    requires a * c - FIXED_POINT_ONE <= x <= a * c + FIXED_POINT_ONE
    requires x - c < q * c < x + c
    ensures Ints.Abs(q - a) <= 1
  {
    assert (a - 2) * c == a * c - 2 * c;
    assert (a + 2) * c == a * c + 2 * c;
    FactorBetween(q, a - 2, a + 2, c);
  }

  /**
   * Multiplying and then dividing by the same b gives back a within one
   * quantum, provided b is at least ONE in magnitude and the raw product
   * fits in i64. The shifted product never wraps: it is within one quantum
   * of a raw product that fits.
   */
  lemma MulDivWithinQuantum(a: DFix64, b: DFix64)
    requires FIXED_POINT_ONE <= Ints.Abs(b.raw as int)
    requires InI64(a.raw as int * b.raw as int)
    ensures Ints.Abs(Div(Mul(a, b), b).raw as int - a.raw as int) <= 1
  {
    var m := Mul(a, b);
    var x := m.raw as int * FIXED_POINT_ONE;
    assert -SHIFT_SAFE <= m.raw as int < SHIFT_SAFE;
    assert ShiftLeft16(m.raw) as int == x;
    assert Div(m, b).raw as int == TruncDiv(x, b.raw as int);
    QuotientNear(a.raw as int, b.raw as int, x);
  }

  /**
   * Below ONE the divisor loses the bound: 3 quanta times epsilon floors to
   * zero, and dividing zero by epsilon cannot bring the 3 back.
   */
  lemma MulDivLosesSmallDivisor()
    ensures Mul(DFix64(3), Epsilon()) == ZERO
    ensures Div(Mul(DFix64(3), Epsilon()), Epsilon()) == ZERO
  {}

  // ---------------------------------------------------------------------------
  // Where `*` and `/` lose representable results, and the wide forms that keep them

  /**
   * `/` as written turns 2^31 (raw 2^47) divided by ONE into -2^31: the shift
   * pushes the dividend into bit 63, the sign bit.
   */
  lemma DivWrapsLargeDividend()
    ensures ShiftLeft16(SHIFT_SAFE as i64) as int == I64_MIN
    ensures Div(DFix64(SHIFT_SAFE as i64), ONE) == DFix64(-SHIFT_SAFE as i64)
  {
    var x := ShiftLeft16(SHIFT_SAFE as i64) as int;
    assert x == I64_MIN;
    assert TruncDiv(x, FIXED_POINT_ONE) == -SHIFT_SAFE;
  }

  /**
   * `/` computed on an exact (unwrapped) shifted dividend, as a wider
   * intermediate would give: the truncated quotient of a * 2^16 by b. It
   * needs only that the quotient itself fits in i64.
   */
  function DivWide(a: DFix64, b: DFix64): (r: DFix64)
    requires b.raw != 0
    requires InI64(TruncDiv(a.raw as int * FIXED_POINT_ONE, b.raw as int))
    ensures Ints.Abs(r.raw as int) * Ints.Abs(b.raw as int) <= Ints.Abs(a.raw as int * FIXED_POINT_ONE)
    ensures Ints.Abs(a.raw as int * FIXED_POINT_ONE) < (Ints.Abs(r.raw as int) + 1) * Ints.Abs(b.raw as int)
    ensures r.raw != 0 ==> (r.raw > 0 <==> (a.raw > 0) == (b.raw > 0))
  {
    DFix64(TruncDiv(a.raw as int * FIXED_POINT_ONE, b.raw as int) as i64)
  }

  /** Where the shift loses no bits, DivWide and Div agree. */
  lemma DivWideExtendsDiv(a: DFix64, b: DFix64)
    requires b.raw != 0
    requires -SHIFT_SAFE <= a.raw as int < SHIFT_SAFE
    requires InI64(TruncDiv(a.raw as int * FIXED_POINT_ONE, b.raw as int))
    ensures !(ShiftLeft16(a.raw) as int == I64_MIN && b.raw == -1)
    ensures DivWide(a, b) == Div(a, b)
  {
    var x := a.raw as int * FIXED_POINT_ONE;
    assert ShiftLeft16(a.raw) as int == x;
    assert b.raw == -1 ==> TruncDiv(x, -1) == -x;
  }

  /** ONE is a right identity of DivWide for every value. */
  lemma DivWideOneIdentity(x: DFix64)
    ensures InI64(TruncDiv(x.raw as int * FIXED_POINT_ONE, FIXED_POINT_ONE))
    ensures DivWide(x, ONE) == x
  {
    var s := x.raw as int * FIXED_POINT_ONE;
    var q := TruncDiv(s, FIXED_POINT_ONE);
    assert Ints.Abs(s) == Ints.Abs(x.raw as int) * FIXED_POINT_ONE;
    assert Ints.Abs(q) * FIXED_POINT_ONE <= Ints.Abs(s) < (Ints.Abs(q) + 1) * FIXED_POINT_ONE;
    assert Ints.Abs(q) == Ints.Abs(x.raw as int);
  }

  /**
   * `*` as written needs the raw product in i64, so 2^31 (raw 2^47) times ONE
   * overflows although the result, 2^31, is representable.
   */
  lemma MulOverflowsOnRepresentable()
    ensures !InI64(SHIFT_SAFE * ONE.raw as int)
    ensures InI64(SHIFT_SAFE)
  {}

  /**
   * `*` computed on an exact (wide) product: the floor of a * b / 2^16. It
   * needs only that the result fits in i64.
   */
  function MulWide(a: DFix64, b: DFix64): (r: DFix64)
    requires InI64((a.raw as int * b.raw as int) / FIXED_POINT_ONE)
    ensures r.raw as int * FIXED_POINT_ONE <= a.raw as int * b.raw as int
    ensures a.raw as int * b.raw as int < (r.raw as int + 1) * FIXED_POINT_ONE
  {
    var p := a.raw as int * b.raw as int;
    FloorDivBounds(p, FIXED_POINT_ONE);
    DFix64((p / FIXED_POINT_ONE) as i64)
  }

  /** Wherever Mul is defined, MulWide agrees with it. */
  lemma MulWideExtendsMul(a: DFix64, b: DFix64)
    requires InI64(a.raw as int * b.raw as int)
    ensures InI64((a.raw as int * b.raw as int) / FIXED_POINT_ONE)
    ensures MulWide(a, b) == Mul(a, b)
  {
    FloorDivBounds(a.raw as int * b.raw as int, FIXED_POINT_ONE);
  }

  /** ONE is a right identity of MulWide for every value. */
  lemma MulWideOneIdentity(x: DFix64)
    ensures InI64((x.raw as int * ONE.raw as int) / FIXED_POINT_ONE)
    ensures MulWide(x, ONE) == x
  {
    var p := x.raw as int * FIXED_POINT_ONE;
    assert p / FIXED_POINT_ONE == x.raw as int;
  }

  // ---------------------------------------------------------------------------
  // abs, min, max, clamp

  /** `abs`: i64::abs, which panics on i64::MIN. */
  function Abs(x: DFix64): (r: DFix64)
    requires x.raw as int != I64_MIN
    ensures r.raw >= 0
    ensures r == x || r == Neg(x)
    ensures Value(r) == if Value(x) < 0.0 then -Value(x) else Value(x)
  {
    DFix64(if x.raw < 0 then -x.raw else x.raw)
  }

  /** `min`: `Ord::min`, the first argument on a tie. */
  function Min(a: DFix64, b: DFix64): (r: DFix64)
    ensures r == a || r == b
    ensures Le(r, a) && Le(r, b)
  {
    if a.raw <= b.raw then a else b
  }

  /** `max`: `Ord::max`, the second argument on a tie. */
  function Max(a: DFix64, b: DFix64): (r: DFix64)
    ensures r == a || r == b
    ensures Le(a, r) && Le(b, r)
  {
    if a.raw <= b.raw then b else a
  }

  /** Min and Max split a pair into its smaller and larger element. */
  lemma MinMaxPermutation(a: DFix64, b: DFix64)
    ensures Le(Min(a, b), Max(a, b))
    ensures multiset{Min(a, b), Max(a, b)} == multiset{a, b}
  {}

  /**
   * `clamp(lo, hi)`: `Ord::clamp`, which panics when lo > hi. A value in
   * range is returned unchanged; otherwise the nearer bound.
   */
  function Clamp(x: DFix64, lo: DFix64, hi: DFix64): (r: DFix64)
    requires Le(lo, hi)
    ensures Le(lo, r) && Le(r, hi)
    ensures Le(lo, x) && Le(x, hi) ==> r == x
    ensures !Le(lo, x) ==> r == lo
    ensures !Le(x, hi) ==> r == hi
  {
    if x.raw < lo.raw then lo else if x.raw > hi.raw then hi else x
  }

  /** Clamping is the same as taking min with hi, then max with lo. */
  lemma ClampIsMaxOfMin(x: DFix64, lo: DFix64, hi: DFix64)
    requires Le(lo, hi)
    ensures Clamp(x, lo, hi) == Max(lo, Min(x, hi))
  {}

  lemma ClampIdempotent(x: DFix64, lo: DFix64, hi: DFix64)
    requires Le(lo, hi)
    ensures Clamp(Clamp(x, lo, hi), lo, hi) == Clamp(x, lo, hi)
  {}
}
