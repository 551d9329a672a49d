/**
 * The algorithm behind the `Prng` generator, as pure functions: the
 * xoroshiro128+ step (parameters 55/14/36) over a two-word state, the
 * SplitMix64 expansion used for single-seed construction, the bit pattern of
 * `next_f32`, and the integer arithmetic of `next_int`. The class in module
 * Generator updates its state in place and is proved against these functions.
 */
module Xoroshiro {
  import opened Ints

  /** Version of the generator's bit-exact behaviour; golden sequences belong to it. */
  const PRNG_ALGO_VERSION: nat := 1

  /**
   * 0x9E3779B97F4A7C15 (2^64 divided by the golden ratio): the SplitMix64
   * increment, and the first word substituted for an all-zero seed.
   */
  const GOLDEN_GAMMA: bv64 := 0x9E37_79B9_7F4A_7C15

  /** The two words `state[0]`, `state[1]`. */
  datatype State = State(s0: bv64, s1: bv64)

  /** The all-zero state is the generator's absorbing sink; valid states avoid it. */
  predicate NonZero(s: State) { s.s0 != 0 || s.s1 != 0 }

  // ---------------------------------------------------------------------------
  // Seeding

  /** The state `from_seed(seed0, seed1)` builds. */
  function SeedState(seed0: bv64, seed1: bv64): (s: State)
    ensures NonZero(s)
    ensures NonZero(State(seed0, seed1)) ==> s == State(seed0, seed1)
    ensures !NonZero(State(seed0, seed1)) ==> s == State(GOLDEN_GAMMA, 0)
  {
    if seed0 == 0 && seed1 == 0 then State(GOLDEN_GAMMA, 0) else State(seed0, seed1)
  }

  // SplitMix64, stage by stage: each stage is a bijection on 64-bit words.

  function XorShift30(z: bv64): bv64 { z ^ (z >> 30) }
  function XorShift27(z: bv64): bv64 { z ^ (z >> 27) }
  function XorShift31(z: bv64): bv64 { z ^ (z >> 31) }
  function MulBF58(z: bv64): bv64 { z * 0xBF58_476D_1CE4_E5B9 }
  function Mul94D0(z: bv64): bv64 { z * 0x94D0_49BB_1331_11EB }

  /** `u64::wrapping_add`: addition modulo 2^64. */
  function WrappingAdd(a: bv64, b: bv64): bv64 { a + b }

  // The inverse stages. A xorshift by k >= 22 is undone by xoring in the shifts
  // by k and 2k (3k >= 64); an odd multiplier by its inverse modulo 2^64.

  function UnXorShift30(x: bv64): bv64 { x ^ (x >> 30) ^ (x >> 60) }
  function UnXorShift27(x: bv64): bv64 { x ^ (x >> 27) ^ (x >> 54) }
  function UnXorShift31(x: bv64): bv64 { x ^ (x >> 31) ^ (x >> 62) }
  function UnMulBF58(x: bv64): bv64 { x * 0x96DE_1B17_3F11_9089 }
  function UnMul94D0(x: bv64): bv64 { x * 0x3196_42B2_D24D_8EC3 }

  /** Mix undone, last stage first. */
  function Unmix(r: bv64): bv64 {
    UnXorShift30(UnMulBF58(UnXorShift27(UnMul94D0(UnXorShift31(r)))))
  }

  // Each inverse is first stated on the stage's own expression, where the
  // solver folds the two constant multipliers (or the cascaded shifts)
  // together, and then lifted to the stage function.

  lemma XorShift30Folds(z: bv64) ensures UnXorShift30(z ^ (z >> 30)) == z {}
  lemma XorShift27Folds(z: bv64) ensures UnXorShift27(z ^ (z >> 27)) == z {}
  lemma XorShift31Folds(z: bv64) ensures UnXorShift31(z ^ (z >> 31)) == z {}
  lemma MulBF58Folds(z: bv64) ensures UnMulBF58(z * 0xBF58_476D_1CE4_E5B9) == z {}
  lemma Mul94D0Folds(z: bv64) ensures UnMul94D0(z * 0x94D0_49BB_1331_11EB) == z {}

  lemma XorShift30Inverts(z: bv64) ensures UnXorShift30(XorShift30(z)) == z { XorShift30Folds(z); }
  lemma XorShift27Inverts(z: bv64) ensures UnXorShift27(XorShift27(z)) == z { XorShift27Folds(z); }
  lemma XorShift31Inverts(z: bv64) ensures UnXorShift31(XorShift31(z)) == z { XorShift31Folds(z); }
  lemma MulBF58Inverts(z: bv64) ensures UnMulBF58(MulBF58(z)) == z { MulBF58Folds(z); }
  lemma Mul94D0Inverts(z: bv64) ensures UnMul94D0(Mul94D0(z)) == z { Mul94D0Folds(z); }

  /**
   * The SplitMix64 finaliser: two multiply-xorshift rounds and a last
   * xorshift. Every stage is a bijection, so Unmix undoes the whole.
   */
  function Mix(z: bv64): (r: bv64)
    ensures Unmix(r) == z
  {
    var z1 := XorShift30(z);
    var z2 := MulBF58(z1);
    var z3 := XorShift27(z2);
    var z4 := Mul94D0(z3);
    XorShift31Inverts(z4);
    Mul94D0Inverts(z3);
    XorShift27Inverts(z2);
    MulBF58Inverts(z1);
    XorShift30Inverts(z);
    XorShift31(z4)
  }

  lemma MixInjective(a: bv64, b: bv64)
    ensures Mix(a) == Mix(b) <==> a == b
  {
    var ra, rb := Mix(a), Mix(b);
  }

  /**
   * The state `from_seed_u64(seed)` builds before its zero-state check: the
   * outputs of two SplitMix64 calls, whose running value starts at seed and
   * grows by GOLDEN_GAMMA before each call. The two outputs are never both
   * zero: Mix maps only 0 to 0, and the running values seed + GAMMA and
   * seed + 2 GAMMA differ.
   */
  function SplitMixPair(seed: bv64): (p: State)
    ensures Unmix(p.s0) == WrappingAdd(seed, GOLDEN_GAMMA)
    ensures Unmix(p.s1) == WrappingAdd(Unmix(p.s0), GOLDEN_GAMMA)
    ensures NonZero(p)
  {
    var x0 := WrappingAdd(seed, GOLDEN_GAMMA);
    var x1 := WrappingAdd(x0, GOLDEN_GAMMA);
    assert Mix(0) == 0;
    MixInjective(x0, 0);
    MixInjective(x1, 0);
    State(Mix(x0), Mix(x1))
  }

  /** The state `from_seed_u64(seed)` builds, with its zero-state check. */
  function SeedStateU64(seed: bv64): (s: State)
    ensures NonZero(s)
  {
    var p := SplitMixPair(seed);
    if p.s0 == 0 && p.s1 == 0 then State(GOLDEN_GAMMA, p.s1) else p
  }

  /** Both constructors apply the same zero-state patch. */
  lemma SeedStateU64PatchesLikeSeedState(seed: bv64)
    ensures SeedStateU64(seed) == SeedState(SplitMixPair(seed).s0, SplitMixPair(seed).s1)
  {}

  /** The zero-state check in `from_seed_u64` never fires: the state is the SplitMix64 pair itself. */
  lemma SeedStateU64IsSplitMixPair(seed: bv64)
    ensures SeedStateU64(seed) == SplitMixPair(seed)
  {}

  /** Distinct single seeds give distinct generator states (the first words already differ). */
  lemma SeedStateU64Injective(a: bv64, b: bv64)
    ensures SeedStateU64(a).s0 == SeedStateU64(b).s0 <==> a == b
  {
    SeedStateU64IsSplitMixPair(a);
    SeedStateU64IsSplitMixPair(b);
    MixInjective(WrappingAdd(a, GOLDEN_GAMMA), WrappingAdd(b, GOLDEN_GAMMA));
  }

  // ---------------------------------------------------------------------------
  // The xoroshiro128+ step

  /** The value `next_u64` returns from state `s`: the wrapping sum of the words. */
  function Output(s: State): bv64 {
    WrappingAdd(s.s0, s.s1)
  }

  // The step's building blocks as functions, so that each inverse below is a
  // fact about one block: `u64::rotate_left` by the step's two constants
  // and the rotations that undo them (a left rotation by k is undone by one
  // by 64 - k), xor, and the mix of the first word with t and t << 14.

  function Rotl55(x: bv64): bv64 { (x << 55) | (x >> 9) }
  function Rotl36(x: bv64): bv64 { (x << 36) | (x >> 28) }
  function Rotl9(x: bv64): bv64 { (x << 9) | (x >> 55) }
  function Rotl28(x: bv64): bv64 { (x << 28) | (x >> 36) }
  function Xor(a: bv64, b: bv64): bv64 { a ^ b }
  function XorShifted14(x: bv64, t: bv64): bv64 { x ^ t ^ (t << 14) }

  /** The new first word: with t = s1 ^ s0, `rotl(s0, 55) ^ t ^ (t << 14)`. */
  function NewWord0(s0: bv64, s1: bv64): bv64 {
    XorShifted14(Rotl55(s0), Xor(s1, s0))
  }

  /** The new second word: `rotl(s1 ^ s0, 36)`. */
  function NewWord1(s0: bv64, s1: bv64): bv64 {
    Rotl36(Xor(s1, s0))
  }

  /**
   * The state `next_u64` leaves behind. The step is a bijection on states
   * (Unstep undoes it), and it never enters or leaves the all-zero sink.
   */
  function Step(s: State): (n: State)
    ensures Unstep(n) == s
    ensures NonZero(n) <==> NonZero(s)
  {
    PrevWord0Inverts(s.s0, s.s1);
    PrevWord1Inverts(s.s0, s.s1);
    State(NewWord0(s.s0, s.s1), NewWord1(s.s0, s.s1))
  }

  // The step undone: rotating the second new word back gives t; mixing t
  // and t << 14 out of the first new word and rotating back gives s0; and
  // t ^ s0 gives s1.

  function PrevWord0(n0: bv64, n1: bv64): bv64 {
    Rotl9(XorShifted14(n0, Rotl28(n1)))
  }

  function PrevWord1(n0: bv64, n1: bv64): bv64 {
    Xor(Rotl28(n1), PrevWord0(n0, n1))
  }

  /** The state before one call of `next_u64`. */
  function Unstep(n: State): State {
    State(PrevWord0(n.s0, n.s1), PrevWord1(n.s0, n.s1))
  }

  // As for Mix: each block's inverse is stated first on the block's own
  // expression, where the solver settles it, and then lifted to the block
  // function; the proofs below chain the lifted facts by congruence alone.

  lemma Rotl36Folds(x: bv64) ensures Rotl28((x << 36) | (x >> 28)) == x {}
  lemma Rotl55Folds(x: bv64) ensures Rotl9((x << 55) | (x >> 9)) == x {}
  lemma Rotl28Folds(x: bv64) ensures Rotl36((x << 28) | (x >> 36)) == x {}
  lemma Rotl9Folds(x: bv64) ensures Rotl55((x << 9) | (x >> 55)) == x {}
  lemma XorFolds(a: bv64, b: bv64) ensures Xor(a ^ b, b) == a {}
  lemma XorShifted14Folds(x: bv64, t: bv64) ensures XorShifted14(x ^ t ^ (t << 14), t) == x {}

  lemma Rotl36Inverts(x: bv64) ensures Rotl28(Rotl36(x)) == x { Rotl36Folds(x); }
  lemma Rotl55Inverts(x: bv64) ensures Rotl9(Rotl55(x)) == x { Rotl55Folds(x); }
  lemma Rotl28Inverts(x: bv64) ensures Rotl36(Rotl28(x)) == x { Rotl28Folds(x); }
  lemma Rotl9Inverts(x: bv64) ensures Rotl55(Rotl9(x)) == x { Rotl9Folds(x); }
  lemma XorInverts(a: bv64, b: bv64) ensures Xor(Xor(a, b), b) == a { XorFolds(a, b); }
  lemma XorShifted14Inverts(x: bv64, t: bv64) ensures XorShifted14(XorShifted14(x, t), t) == x {
    XorShifted14Folds(x, t);
  }

  lemma PrevWord0Inverts(s0: bv64, s1: bv64)
    ensures PrevWord0(NewWord0(s0, s1), NewWord1(s0, s1)) == s0
  {
    var t := Xor(s1, s0);
    Rotl36Inverts(t);
    XorShifted14Inverts(Rotl55(s0), t);
    Rotl55Inverts(s0);
  }

  lemma PrevWord1Inverts(s0: bv64, s1: bv64)
    ensures PrevWord1(NewWord0(s0, s1), NewWord1(s0, s1)) == s1
  {
    Rotl36Inverts(Xor(s1, s0));
    PrevWord0Inverts(s0, s1);
    XorInverts(s1, s0);
  }

  /** Unstep is also a right inverse: every state is the step of exactly one state. */
  lemma UnstepInvertible(n: State)
    ensures Step(Unstep(n)) == n
  {
    var t := Rotl28(n.s1);
    var x := XorShifted14(n.s0, t);
    var p0 := Rotl9(x);
    XorInverts(t, p0);
    Rotl28Inverts(n.s1);
    Rotl9Inverts(x);
    XorShifted14Inverts(n.s0, t);
  }

  lemma StepInjective(a: State, b: State)
    ensures Step(a) == Step(b) <==> a == b
  {
    var na, nb := Step(a), Step(b);
  }

  /** The state after n calls of `next_u64`. */
  function StepN(s: State, n: nat): State
    decreases n
  {
    if n == 0 then s else StepN(Step(s), n - 1)
  }

  /** The value the (k+1)-th call of `next_u64` returns. */
  function Draw(s: State, k: nat): bv64 {
    Output(StepN(s, k))
  }

  lemma {:induction false} StepNSucc(s: State, n: nat)
    ensures StepN(s, n + 1) == Step(StepN(s, n))
    decreases n
  {
    if n > 0 {
      StepNSucc(Step(s), n - 1);
    }
  }

  /** The never-all-zero invariant holds along the whole stream. */
  lemma {:induction false} StepNKeepsNonZero(s: State, n: nat)
    requires NonZero(s)
    ensures NonZero(StepN(s, n))
    decreases n
  {
    if n > 0 {
      var next := Step(s);
      StepNKeepsNonZero(next, n - 1);
    }
  }

  /** `from_seed(0, 0)` escapes the sink: its first draws are non-zero and vary. */
  lemma ZeroSeedDrawsVary()
    ensures Draw(SeedState(0, 0), 0) == GOLDEN_GAMMA
    ensures Draw(SeedState(0, 0), 1) != 0
    ensures Draw(SeedState(0, 0), 1) != Draw(SeedState(0, 0), 0)
  {
    var s := SeedState(0, 0);
    assert StepN(s, 1) == Step(s);
  }

  // ---------------------------------------------------------------------------
  // next_f32: the IEEE 754 binary32 bit pattern

  const ONE_F32_BITS: bv32 := 0x3F80_0000

  /** `((raw >> 41) as u32) | 0x3f80_0000`. */
  function F32Bits(raw: bv64): (bits: bv32)
    ensures ONE_F32_BITS <= bits <= 0x3FFF_FFFF
    ensures bits >> 31 == 0
    ensures (bits >> 23) & 0xFF == 127
    ensures bits & 0x7F_FFFF == (raw >> 41) as bv32
  {
    ((raw >> 41) as bv32) | ONE_F32_BITS
  }

  /** 2^e for an integer exponent, as a real. */
  function Pow2Real(e: int): (r: real)
    ensures r > 0.0
    decreases Abs(e)
  {
    if e == 0 then 1.0
    else if e > 0 then 2.0 * Pow2Real(e - 1)
    else Pow2Real(e + 1) / 2.0
  }

  /** The 8-bit biased exponent field of a binary32 pattern. */
  function BiasedExponent(bits: bv32): (e: nat)
    ensures e < 256
  {
    ((bits >> 23) & 0xFF) as int
  }

  /** The 23-bit fraction field of a binary32 pattern. */
  function Fraction(bits: bv32): (f: nat)
    ensures f < 0x80_0000
  {
    ((bits & 0x7F_FFFF) as bv23) as int
  }

  /** A binary32 pattern whose exponent field is neither 0 nor 255. */
  predicate IsNormalF32(bits: bv32) {
    0 < BiasedExponent(bits) < 255
  }

  /**
   * The real number a normal binary32 pattern encodes (section 3.4 of
   * IEEE 754-2008): (-1)^sign * 2^(exponent - 127) * (1 + fraction / 2^23).
   */
  function NormalF32Value(bits: bv32): real
    requires IsNormalF32(bits)
  {
    var sign := if bits >> 31 == 1 then -1.0 else 1.0;
    sign * Pow2Real(BiasedExponent(bits) - 127) * (1.0 + Fraction(bits) as real / 8388608.0)
  }

  lemma ExponentField127(bits: bv32)
    requires (bits >> 23) & 0xFF == 127
    ensures BiasedExponent(bits) == 127
  {}

  /** A pattern with sign 0 and exponent field 127 encodes 1 + fraction / 2^23. */
  lemma UnitOctaveValue(bits: bv32)
    requires (bits >> 23) & 0xFF == 127 && bits >> 31 == 0
    ensures IsNormalF32(bits)
    ensures NormalF32Value(bits) == 1.0 + Fraction(bits) as real / 8388608.0
  {
    ExponentField127(bits);
    assert Pow2Real(0) == 1.0;
  }

  /** 1 + fraction / 2^23 lies in [1.0, 2.0). */
  lemma FractionBounds(bits: bv32)
    ensures 1.0 <= 1.0 + Fraction(bits) as real / 8388608.0 < 2.0
  {}

  /** The pattern `next_f32` builds encodes 1 + fraction / 2^23, a value in [1.0, 2.0). */
  lemma F32BitsInUnitOctave(raw: bv64)
    ensures IsNormalF32(F32Bits(raw))
    ensures NormalF32Value(F32Bits(raw)) == 1.0 + Fraction(F32Bits(raw)) as real / 8388608.0
    ensures 1.0 <= NormalF32Value(F32Bits(raw)) < 2.0
  {
    UnitOctaveValue(F32Bits(raw));
    FractionBounds(F32Bits(raw));
  }

  // ---------------------------------------------------------------------------
  // next_int arithmetic

  /** `(i64::from(max) - i64::from(min)) as u64 + 1`: the number of values in [min, max]. */
  function Span(min: i32, max: i32): (span: int)
    requires min <= max
    ensures 1 <= span <= 0x1_0000_0000
    ensures min as int + span - 1 == max as int
  {
    max as int - min as int + 1
  }

  /** `u64::is_power_of_two`: n is 2^k for some k. */
  predicate IsPowerOfTwo(n: int)
    ensures IsPowerOfTwo(n) <==> exists k: nat :: Pow2(k) == n
    decreases if n < 0 then 0 else n
  {
    if n == 1 then
      assert Pow2(0) == n;
      true
    else if n > 1 && n % 2 == 0 && IsPowerOfTwo(n / 2) then
      assert exists k: nat :: Pow2(k) == n by {
        var k: nat :| Pow2(k) == n / 2;
        assert Pow2(k + 1) == n;
      }
      true
    else
      assert forall k: nat :: Pow2(k) != n;
      false
  }

  /** The full `[i32::MIN, i32::MAX]` range takes the single-draw power-of-two path. */
  lemma FullRangeSpan()
    ensures Span(I32_MIN as i32, I32_MAX as i32) == Pow2(32)
    ensures IsPowerOfTwo(Span(I32_MIN as i32, I32_MAX as i32))
  {
    Pow2Values();
  }

  /**
   * `raw & (span - 1)` for a power-of-two span: the mask keeps the low
   * log2(span) bits of `raw`, which is its remainder modulo span.
   */
  function MaskLow(raw: bv64, span: int): (v: int)
    requires IsPowerOfTwo(span)
    ensures 0 <= v < span
  {
    (raw as int) % span
  }

  /**
   * `u64::MAX - u64::MAX % span`: the largest multiple of span not above
   * u64::MAX. Candidates below it fall evenly into the span residues.
   */
  function Bound(span: int): (bound: int)
    requires 1 <= span <= 0x1_0000_0000
    ensures bound == span * (U64_MAX / span)
    ensures U64_MAX - span < bound <= U64_MAX
  {
    assert U64_MAX == span * (U64_MAX / span) + U64_MAX % span;
    U64_MAX - U64_MAX % span
  }

  /** Bound(span) as the `u64` word the rejection loop compares against. */
  function BoundWord(span: int): bv64
    requires 1 <= span <= 0x1_0000_0000
  {
    Bound(span) as bv64
  }

  /** The rejection test `candidate < bound`, an unsigned comparison of words. */
  predicate Accepts(candidate: bv64, bound: bv64) {
    candidate < bound
  }

  /** The rejection loop rejects each of the first n draws from s. */
  predicate RejectsFirst(s: State, bound: bv64, n: nat)
    decreases n
  {
    n == 0 || (RejectsFirst(s, bound, n - 1) && !Accepts(Draw(s, n - 1), bound))
  }

  /** The k-th draw from s is the first one the rejection loop accepts. */
  predicate FirstAccepted(s: State, bound: bv64, k: nat) {
    RejectsFirst(s, bound, k) && Accepts(Draw(s, k), bound)
  }

  /** The rejection loop stops: some future draw is accepted. */
  ghost predicate EventuallyAccepts(s: State, bound: bv64) {
    exists k: nat :: Accepts(Draw(s, k), bound)
  }

  /** RejectsFirst(s, bound, n) says exactly that every draw before the n-th is rejected. */
  lemma {:induction false} RejectsFirstMeans(s: State, bound: bv64, n: nat, j: nat)
    requires RejectsFirst(s, bound, n)
    requires j < n
    ensures !Accepts(Draw(s, j), bound)
    decreases n
  {
    if j < n - 1 {
      RejectsFirstMeans(s, bound, n - 1, j);
    }
  }

  /**
   * One more rejected draw: if the first n draws and the n-th are rejected
   * while draw k is accepted, then n < k, so the rejection loop moves
   * closer to k.
   */
  lemma RejectedBeforeAccepted(s: State, bound: bv64, n: nat, k: nat)
    requires RejectsFirst(s, bound, n)
    requires !Accepts(Draw(s, n), bound)
    requires Accepts(Draw(s, k), bound)
    ensures n < k
    ensures RejectsFirst(s, bound, n + 1)
  {
    if k < n {
      RejectsFirstMeans(s, bound, n, k);
    }
  }

  /** The first accepted draw is unique, so the loop's outcome is a function of the state. */
  lemma FirstAcceptedUnique(s: State, bound: bv64, k1: nat, k2: nat)
    requires FirstAccepted(s, bound, k1) && FirstAccepted(s, bound, k2)
    ensures k1 == k2
  {
    if k1 < k2 {
      RejectsFirstMeans(s, bound, k2, k1);
    } else if k2 < k1 {
      RejectsFirstMeans(s, bound, k1, k2);
    }
  }

  /** `candidate % span` for an accepted candidate lies in [0, span). */
  function Reduce(candidate: bv64, span: int): (v: int)
    requires 1 <= span
    ensures 0 <= v < span
  {
    (candidate as int) % span
  }
}
