/**
 * The `Prng` generator as the source has it: an object owning a two-word
 * array that every draw rewrites in place. Each method is proved against the
 * pure functions of module Xoroshiro, and the generator's invariant (the
 * array is never all zero) is kept by every constructor and method.
 */
module Generator {
  import opened Ints
  import opened Xoroshiro

  /**
   * One call of the nested `splitmix64` helper of `from_seed_u64`: advances
   * the running value by GOLDEN_GAMMA and returns it (`next`) together with
   * its finalised output (`z`).
   */
  method SplitMix64(state: bv64) returns (next: bv64, z: bv64)
    ensures next == WrappingAdd(state, GOLDEN_GAMMA)
    ensures z == Mix(next)
  {
    next := WrappingAdd(state, GOLDEN_GAMMA);
    z := next;
    z := MulBF58(XorShift30(z));
    z := Mul94D0(XorShift27(z));
    z := XorShift31(z);
  }

  /**
   * The zero-state patch both constructors apply to their local array: an
   * all-zero pair gets GOLDEN_GAMMA as its first word.
   */
  method AvoidZeroState(a: array<bv64>)
    requires a.Length == 2
    modifies a
    ensures NonZero(State(a[0], a[1]))
    ensures State(a[0], a[1]) == SeedState(old(a[0]), old(a[1]))
  {
    if a[0] == 0 && a[1] == 0 {
      a[0] := GOLDEN_GAMMA;
    }
  }

  class Prng {
    /** `state: [u64; 2]`. */
    const state: array<bv64>

    /** The array holds two words and they are never both zero. */
    ghost predicate Valid()
      reads state
    {
      state.Length == 2 && NonZero(State(state[0], state[1]))
    }

    /** The two words as a value. */
    function Current(): State
      reads state
      requires state.Length == 2
    {
      State(state[0], state[1])
    }

    /** `Prng::from_seed`: the seeds as given, unless both are zero. */
    constructor FromSeed(seed0: bv64, seed1: bv64)
      ensures Valid()
      ensures fresh(state)
      ensures Current() == SeedState(seed0, seed1)
    {
      var a := new bv64[2];
      a[0], a[1] := seed0, seed1;
      AvoidZeroState(a);
      state := a;
    }

    /** `Prng::from_seed_u64`: two SplitMix64 outputs from the running seed. */
    constructor FromSeedU64(seed: bv64)
      ensures Valid()
      ensures fresh(state)
      ensures Current() == SeedStateU64(seed)
    {
      var sm := seed;
      var x0, x1;
      sm, x0 := SplitMix64(sm);
      sm, x1 := SplitMix64(sm);
      assert State(x0, x1) == SplitMixPair(seed);
      SeedStateU64PatchesLikeSeedState(seed);
      var a := new bv64[2];
      a[0], a[1] := x0, x1;
      AvoidZeroState(a);
      state := a;
    }

    /** `next_u64`: returns the wrapping sum of the words and advances the state by one step. */
    method NextU64() returns (result: bv64)
      requires Valid()
      modifies state
      ensures Valid()
      ensures result == Output(old(Current()))
      ensures Current() == Step(old(Current()))
    {
      var s0 := state[0];
      var s1 := state[1];
      result := WrappingAdd(s0, s1);
      state[0] := NewWord0(s0, s1);
      state[1] := NewWord1(s0, s1);
      ghost var next := Step(old(Current()));
    }

    /**
     * `next_f32` up to its final subtraction: the binary32 pattern of a value
     * in [1.0, 2.0) whose fraction is the top 23 bits of the draw.
     */
    method NextF32Bits() returns (bits: bv32)
      requires Valid()
      modifies state
      ensures Valid()
      ensures Current() == Step(old(Current()))
      ensures bits == F32Bits(Output(old(Current())))
      ensures IsNormalF32(bits) && 1.0 <= NormalF32Value(bits) < 2.0
    {
      var raw := NextU64();
      bits := F32Bits(raw);
      F32BitsInUnitOctave(raw);
    }

    /**
     * The rejection loop of `next_int` for a span that is not a power of
     * two: draws until a draw falls below BoundWord(span) and returns that draw
     * reduced modulo span.
     */
    method RejectionSample(span: int) returns (value: int, ghost draws: nat)
      requires Valid()
      requires 1 <= span <= 0x1_0000_0000
      requires EventuallyAccepts(Current(), BoundWord(span))
      modifies state
      ensures Valid()
      ensures 0 <= value < span
      ensures Current() == StepN(old(Current()), draws)
      ensures draws >= 1
      ensures FirstAccepted(old(Current()), BoundWord(span), draws - 1)
      ensures value == Reduce(Draw(old(Current()), draws - 1), span)
    {
      ghost var s0 := Current();
      var bound := BoundWord(span);
      ghost var k: nat :| Accepts(Draw(s0, k), bound);
      draws := 0;
      while true
        invariant Valid()
        invariant draws <= k
        invariant Current() == StepN(s0, draws)
        invariant RejectsFirst(s0, bound, draws)
        decreases k - draws
      {
        var candidate := NextU64();
        assert candidate == Draw(s0, draws);
        StepNSucc(s0, draws);
        if Accepts(candidate, bound) {
          value := Reduce(candidate, span);
          draws := draws + 1;
          break;
        }
        RejectedBeforeAccepted(s0, bound, draws, k);
        draws := draws + 1;
      }
    }

    /**
     * `next_int(min, max)`: a value in [min, max]. A one-value range draws
     * nothing; a power-of-two span masks one draw; any other span rejects
     * draws at or above BoundWord(span) and reduces the first accepted one.
     * The rejection loop stops only if some draw is accepted, which the
     * caller guarantees through EventuallyAccepts.
     */
    method NextInt(min: i32, max: i32) returns (r: i32, ghost draws: nat)
      requires Valid()
      requires min <= max
      requires Span(min, max) > 1 && !IsPowerOfTwo(Span(min, max)) ==>
                 EventuallyAccepts(Current(), BoundWord(Span(min, max)))
      modifies state
      ensures Valid()
      ensures min <= r <= max
      ensures Current() == StepN(old(Current()), draws)
      ensures Span(min, max) == 1 ==> r == min && draws == 0
      ensures Span(min, max) > 1 && IsPowerOfTwo(Span(min, max)) ==>
                && draws == 1
                && r as int == min as int + MaskLow(Draw(old(Current()), 0), Span(min, max))
      ensures Span(min, max) > 1 && !IsPowerOfTwo(Span(min, max)) ==>
                && draws >= 1
                && FirstAccepted(old(Current()), BoundWord(Span(min, max)), draws - 1)
                && r as int == min as int + Reduce(Draw(old(Current()), draws - 1), Span(min, max))
    {
      var span := Span(min, max);
      if span == 1 {
        return min, 0;
      }
      ghost var s0 := Current();
      assert s0 == old(Current());
      var value: int;
      if IsPowerOfTwo(span) {
        var raw := NextU64();
        value := MaskLow(raw, span);
        draws := 1;
      } else {
        value, draws := RejectionSample(span);
        assert FirstAccepted(s0, BoundWord(span), draws - 1);
        r := WrapI32(value + min as int);
        return;
      }
      r := WrapI32(value + min as int);
    }
  }

  /**
   * The golden regression sequence of version PRNG_ALGO_VERSION: the first
   * three full-range `next_int` values from `from_seed(0xDEAD_BEEF, 0xFACE_FEED)`.
   */
  method GoldenRegression() returns (values: seq<i32>)
    ensures values == [1_501_347_292, 1_946_982_111, -117_316_573]
  {
    var prng := new Prng.FromSeed(0xDEAD_BEEF, 0xFACE_FEED);
    FullRangeSpan();
    var min, max := I32_MIN as i32, I32_MAX as i32;
    ghost var draws: nat;
    assert prng.Current() == State(0xDEAD_BEEF, 0xFACE_FEED);
    var v0, v1, v2;
    v0, draws := prng.NextInt(min, max);
    assert prng.Current() == State(0x7780_0918_F40C_96DD, 0x4634_0020_0000_0002);
    v1, draws := prng.NextInt(min, max);
    assert prng.Current() == State(0x5D41_F43F_5DC1_5094, 0x40C9_6DF3_1B40_938F);
    v2, draws := prng.NextInt(min, max);
    values := [v0, v1, v2];
  }

  /**
   * Two generators built from the same seeds yield the same stream: n calls
   * of `next_u64` on each return identical values, the draws of
   * SeedState(seed0, seed1).
   */
  method ReplayU64(seed0: bv64, seed1: bv64, n: nat) returns (xs: seq<bv64>, ys: seq<bv64>)
    ensures |xs| == n
    ensures xs == ys
    ensures forall i :: 0 <= i < n ==> xs[i] == Draw(SeedState(seed0, seed1), i)
  {
    var a := new Prng.FromSeed(seed0, seed1);
    var b := new Prng.FromSeed(seed0, seed1);
    ghost var s := SeedState(seed0, seed1);
    xs, ys := [], [];
    var i := 0;
    while i < n
      invariant 0 <= i <= n
      invariant a.Valid() && b.Valid() && a.state != b.state
      invariant fresh(a.state) && fresh(b.state)
      invariant a.Current() == StepN(s, i) && b.Current() == StepN(s, i)
      invariant |xs| == i && xs == ys
      invariant forall j :: 0 <= j < i ==> xs[j] == Draw(s, j)
    {
      var x := a.NextU64();
      var y := b.NextU64();
      StepNSucc(s, i);
      xs, ys := xs + [x], ys + [y];
      i := i + 1;
    }
  }

  /**
   * `next_int` is deterministic: two generators in the same state return the
   * same value for the same range and stay in the same state.
   */
  method NextIntAgrees(a: Prng, b: Prng, min: i32, max: i32) returns (ra: i32, rb: i32)
    requires a.Valid() && b.Valid() && a.state != b.state
    requires a.Current() == b.Current()
    requires min <= max
    requires Span(min, max) > 1 && !IsPowerOfTwo(Span(min, max)) ==>
               EventuallyAccepts(a.Current(), BoundWord(Span(min, max)))
    modifies a.state, b.state
    ensures a.Valid() && b.Valid()
    ensures ra == rb
    ensures a.Current() == b.Current()
  {
    ghost var s := a.Current();
    ghost var da, db;
    ra, da := a.NextInt(min, max);
    rb, db := b.NextInt(min, max);
    var span := Span(min, max);
    if span > 1 && !IsPowerOfTwo(span) {
      FirstAcceptedUnique(s, BoundWord(span), da - 1, db - 1);
    }
  }
}
