# echo-math core: the deterministic PRNG and the DFix64 fixed-point scalar

This project models the two parts of the `echo-math` crate that hold integer
and bit-level logic, and proves properties of the model.

- **The `Prng` generator** (`src/prng.rs`). It is xoroshiro128+ with the
  55/14/36 parameter set over a two-word `u64` state.
  - Module `Xoroshiro` states the algorithm as pure functions on a `State`
    value. It covers the step, both seeding rules including the SplitMix64
    expansion, the binary32 bit pattern of `next_f32`, and the arithmetic of
    `next_int`. `PRNG_ALGO_VERSION` is the constant `Xoroshiro.PRNG_ALGO_VERSION`.
  - Module `Generator` holds the imperative form. Class `Prng` owns a
    two-element `array<bv64>` that `NextU64` rewrites in place. It has the
    constructors `FromSeed` and `FromSeedU64`, and the methods `NextU64`,
    `NextF32Bits` and `NextInt`. `NextInt` runs its rejection loop in
    `RejectionSample`.
  - Every method is proved against the `Xoroshiro` functions.
  - Every constructor and method keeps the invariant that the state is never
    all zero.
  - The golden regression sequence is proved as a method over the class.
- **The `DFix64` scalar** (`src/scalar/dfix64.rs`). It is an `i64` read with
  a scale of 2^16. Module `FixedPoint` models the constants, `abs`, `min`,
  `max` and `clamp`, and the five arithmetic operators as pure functions.
  - A Rust panic becomes a `requires`. This covers debug-mode overflow of
    `+ - * neg abs`, division by zero, `i64::MIN / -1`, and `clamp` with
    min > max.
  - The silent bit loss of `<<` in `/` is modelled as it happens.
- **Module `Ints`** gives the Rust integer semantics both modules need:
  - `i32` and `i64` as newtypes;
  - the truncating `as i32` cast;
  - the bits `<<` drops;
  - signed division rounding toward zero (Dafny's own `/` is Euclidean).

Words are `bv64`. Wrapping addition, shifts, rotations and xor are the
bit-vector operations.

## Model

| member | source | states |
|---|---|---|
| `Ints.WrapI32` | src/prng.rs:108-109 | `offset as i32` keeps a value that fits and is congruent to its input modulo 2^32 |
| `Ints.WrapI64` | src/scalar/dfix64.rs:47 | reading the shifted value back as `i64` keeps a value that fits and is congruent to its input modulo 2^64 |
| `Ints.TruncDiv` | src/scalar/dfix64.rs:47 | Rust's signed `/`: the magnitude is the floor of the magnitudes' quotient, and the sign is the product of the signs |
| `Ints.TruncDivRemainder` | src/scalar/dfix64.rs:47 | the remainder left by truncating division is smaller than the divisor in magnitude and shares the dividend's sign |
| `Xoroshiro.SeedState` | src/prng.rs:29-35 | `from_seed` keeps both seeds unless both are zero, in which case the state becomes (0x9E3779B97F4A7C15, 0); the state is never all zero |
| `Xoroshiro.SeedStateU64` | src/prng.rs:47-52 | the state `from_seed_u64` builds is never all zero |
| `Xoroshiro.SeedStateU64PatchesLikeSeedState` | src/prng.rs:47-51 | `from_seed_u64` applies the same zero-state patch as `from_seed` to the two SplitMix64 outputs |
| `Xoroshiro.Mix` | src/prng.rs:41-44 | the SplitMix64 finaliser is undone by Unmix (inverse multipliers, three-term xorshifts), so it is a bijection on words |
| `Xoroshiro.MixInjective` | src/prng.rs:41-44 | two words have equal SplitMix64 outputs iff they are equal |
| `Xoroshiro.SplitMixPair` | src/prng.rs:47-48 | the two SplitMix64 outputs come from the running values seed + 0x9E3779B97F4A7C15 and that value plus 0x9E3779B97F4A7C15 again (Unmix gives them back), and are never both zero |
| `Xoroshiro.SeedStateU64IsSplitMixPair` | src/prng.rs:47-52 | the zero-state check of `from_seed_u64` never fires: the state is exactly the two SplitMix64 outputs |
| `Xoroshiro.SeedStateU64Injective` | src/prng.rs:38-53 | distinct single seeds give distinct first state words, and equal seeds equal ones |
| `Xoroshiro.Output` | src/prng.rs:58 | no contract of its own: the wrapping sum of the two words, which `Generator.Prng.NextU64` states it returns |
| `Xoroshiro.Step` | src/prng.rs:60-62 | the step is undone by Unstep (rotate the second word back, unmix t and t << 14, rotate back), and the new state is all zero iff the old one was, so the never-all-zero invariant of lines 26-28 is kept |
| `Xoroshiro.UnstepInvertible` | src/prng.rs:60-62 | every state is the step of the state Unstep gives, so the step is a bijection |
| `Xoroshiro.StepInjective` | src/prng.rs:60-62 | two states step to the same state iff they are equal |
| `Xoroshiro.StepNSucc` | src/prng.rs:55-65 | n + 1 steps are n steps followed by one more |
| `Xoroshiro.StepNKeepsNonZero` | src/prng.rs:55-65 | a non-zero state stays non-zero along the whole stream |
| `Xoroshiro.ZeroSeedDrawsVary` | src/prng.rs:29-35 | `from_seed(0, 0)` escapes the sink: its first draw is 0x9E3779B97F4A7C15 and its second is non-zero and different |
| `Xoroshiro.F32Bits` | src/prng.rs:73 | the pattern `(raw >> 41) as u32` ORed with 0x3F800000 lies in [0x3F800000, 0x3FFFFFFF], has sign 0, exponent field 127, and the top 23 bits of raw as its fraction |
| `Xoroshiro.F32BitsInUnitOctave` | src/prng.rs:71-73 | that pattern is a normal binary32 number equal to 1 + fraction / 2^23, a value in [1.0, 2.0) |
| `Xoroshiro.Span` | src/prng.rs:91 | `span` lies in [1, 2^32] and min + span - 1 == max |
| `Xoroshiro.IsPowerOfTwo` | src/prng.rs:96 | `is_power_of_two` holds of n iff n is 2^k for some k |
| `Xoroshiro.FullRangeSpan` | src/prng.rs:91-97 | the full `i32` range has span 2^32 and takes the single-draw power-of-two path |
| `Xoroshiro.MaskLow` | src/prng.rs:97 | the masked draw lies in [0, span) |
| `Xoroshiro.Bound` | src/prng.rs:99 | `bound` is span times (u64::MAX / span), a multiple of span, and lies in (u64::MAX - span, u64::MAX] |
| `Xoroshiro.BoundWord` | src/prng.rs:99 | no contract of its own: the `u64` word of `Bound(span)`, the bound the rejection loop compares against (see Left out) |
| `Xoroshiro.Accepts` | src/prng.rs:102 | no contract of its own: the unsigned word comparison `candidate < bound` that stops the rejection loop; RejectsFirst, FirstAccepted and `Generator.Prng.RejectionSample` are stated through it |
| `Xoroshiro.RejectsFirstMeans` | src/prng.rs:100-105 | having rejected the first n draws means each draw before the n-th is rejected |
| `Xoroshiro.RejectedBeforeAccepted` | src/prng.rs:100-105 | a rejected draw before an accepted one extends the rejected prefix and lies before the accepted draw |
| `Xoroshiro.FirstAcceptedUnique` | src/prng.rs:100-105 | the first accepted draw is unique, so the loop's result is determined by the state |
| `Xoroshiro.Reduce` | src/prng.rs:103 | `candidate % span` lies in [0, span) |
| `Generator.SplitMix64` | src/prng.rs:39-45 | `splitmix64` advances its running value by 0x9E3779B97F4A7C15 and returns the finaliser of the new value |
| `Generator.AvoidZeroState` | src/prng.rs:30-33 | the in-place zero patch leaves a non-zero pair equal to SeedState of the old pair |
| `Generator.Prng.FromSeed` | src/prng.rs:29-35 | the new generator holds SeedState(seed0, seed1) in a fresh array and satisfies the invariant |
| `Generator.Prng.FromSeedU64` | src/prng.rs:38-53 | the new generator holds SeedStateU64(seed), built from two SplitMix64 calls on a running value |
| `Generator.Prng.NextU64` | src/prng.rs:55-65 | returns the wrapping sum of the words, rewrites the array to Step of the old state, and keeps the invariant |
| `Generator.Prng.NextF32Bits` | src/prng.rs:71-73 | consumes exactly one draw and returns its binary32 pattern, a normal number in [1.0, 2.0) |
| `Generator.Prng.RejectionSample` | src/prng.rs:99-105 | draws until the first draw below the bound, returns that draw modulo span, and leaves the state after exactly those draws |
| `Generator.Prng.NextInt` | src/prng.rs:89-110 | returns a value in [min, max]; span 1 draws nothing and returns min; a power-of-two span masks exactly one draw; any other span reduces the first accepted draw |
| `Generator.GoldenRegression` | src/prng.rs:148-152 | `from_seed(0xDEADBEEF, 0xFACEFEED)` then three full-range `next_int` calls give 1501347292, 1946982111, -117316573 |
| `Generator.ReplayU64` | src/prng.rs:20-24 | two generators with the same seeds return the same `next_u64` stream, the draws of SeedState |
| `Generator.NextIntAgrees` | src/prng.rs:124-130 | two generators in the same state return the same `next_int` value for the same range and stay in the same state |
| `FixedPoint.FixedPointOneIsShift` | src/scalar/dfix64.rs:7-8 | FIXED_POINT_ONE is 1 << FIXED_POINT_SHIFT = 2^16 |
| `FixedPoint.ConstantValues` | src/scalar/dfix64.rs:17-18 | ZERO stands for 0.0 and ONE for 1.0 (raw 65536) |
| `FixedPoint.Epsilon` | src/scalar/dfix64.rs:19 | epsilon is positive, no larger than any positive value, and stands for 2^-16 |
| `FixedPoint.ValueInjective` | src/scalar/dfix64.rs:4-5 | derived equality on the raw i64 is equality of the numbers represented |
| `FixedPoint.Le` | src/scalar/dfix64.rs:4 | the derived `<=` on the raw i64 holds iff the numbers represented are in order |
| `FixedPoint.Add` | src/scalar/dfix64.rs:44 | addition is exact when it does not overflow |
| `FixedPoint.Sub` | src/scalar/dfix64.rs:45 | subtraction is exact when it does not overflow |
| `FixedPoint.Neg` | src/scalar/dfix64.rs:48 | negation is exact except on i64::MIN |
| `FixedPoint.AddNegCancels` | src/scalar/dfix64.rs:44-48 | a + (-a) == ZERO |
| `FixedPoint.SubUndoesAdd` | src/scalar/dfix64.rs:44-45 | (a + b) - b == a |
| `FixedPoint.NegInvolutive` | src/scalar/dfix64.rs:48 | -(-a) == a |
| `FixedPoint.Mul` | src/scalar/dfix64.rs:46 | the result is the raw product divided by 2^16 and rounded toward negative infinity; the raw product must fit in i64 |
| `FixedPoint.MulOneOne` | src/scalar/dfix64.rs:46 | ONE * ONE == ONE |
| `FixedPoint.MulOneIdentity` | src/scalar/dfix64.rs:46 | x * ONE == x for every raw value below 2^47 in magnitude, which is where the product fits |
| `FixedPoint.ShiftLeft16` | src/scalar/dfix64.rs:47 | `<< 16` on i64 is exact below 2^47 in magnitude and congruent to x * 2^16 modulo 2^64 otherwise |
| `FixedPoint.Div` | src/scalar/dfix64.rs:47 | the result is the shifted dividend divided by the raw divisor and truncated toward zero; zero divisor and i64::MIN / -1 excluded |
| `FixedPoint.TruncDivInI64` | src/scalar/dfix64.rs:47 | an i64 quotient fits in i64 except for i64::MIN / -1 |
| `FixedPoint.DivOneIdentity` | src/scalar/dfix64.rs:47 | x / ONE == x when the shift loses no bits |
| `FixedPoint.QuotientNear` | src/scalar/dfix64.rs:46-47 | a dividend within one quantum below a * y, divided by y with y at least 2^16 in magnitude, truncates to within one of a |
| `FixedPoint.MulDivWithinQuantum` | src/scalar/dfix64.rs:46-47 | (a * b) / b is within one quantum of a when b is at least ONE in magnitude and a * b fits |
| `FixedPoint.MulDivLosesSmallDivisor` | src/scalar/dfix64.rs:46-47 | for b = epsilon, (3 quanta * b) / b is ZERO, three quanta from a |
| `FixedPoint.DivWrapsLargeDividend` | src/scalar/dfix64.rs:47 | 2^31 (raw 2^47) / ONE gives -2^31 because the shift reaches the sign bit |
| `FixedPoint.DivWide` | src/scalar/dfix64.rs:47 | division on the unwrapped a * 2^16, truncated toward zero, needing only a quotient that fits |
| `FixedPoint.DivWideExtendsDiv` | src/scalar/dfix64.rs:47 | DivWide agrees with Div wherever the shift loses no bits |
| `FixedPoint.DivWideOneIdentity` | src/scalar/dfix64.rs:47 | x / ONE == x for every x under DivWide |
| `FixedPoint.MulOverflowsOnRepresentable` | src/scalar/dfix64.rs:46 | raw 2^47 times ONE overflows the i64 product although the result is representable |
| `FixedPoint.MulWide` | src/scalar/dfix64.rs:46 | multiplication on the exact product, rounded toward negative infinity, needing only a result that fits |
| `FixedPoint.MulWideExtendsMul` | src/scalar/dfix64.rs:46 | MulWide agrees with Mul wherever Mul's product fits |
| `FixedPoint.MulWideOneIdentity` | src/scalar/dfix64.rs:46 | x * ONE == x for every x under MulWide |
| `FixedPoint.Abs` | src/scalar/dfix64.rs:25 | abs is non-negative, is x or -x, and stands for the absolute value; i64::MIN excluded |
| `FixedPoint.Min` | src/scalar/dfix64.rs:28 | min returns one of its arguments, no larger than either |
| `FixedPoint.Max` | src/scalar/dfix64.rs:29 | max returns one of its arguments, no smaller than either |
| `FixedPoint.MinMaxPermutation` | src/scalar/dfix64.rs:28-29 | min and max of a pair are the pair in order |
| `FixedPoint.Clamp` | src/scalar/dfix64.rs:30 | clamp lies in [lo, hi], returns x when x is in range, and otherwise the bound x passed; lo <= hi required |
| `FixedPoint.ClampIsMaxOfMin` | src/scalar/dfix64.rs:30 | clamp(x, lo, hi) == max(lo, min(x, hi)) |
| `FixedPoint.ClampIdempotent` | src/scalar/dfix64.rs:30 | clamping twice is clamping once |

## Left out

- The `- 1.0` float subtraction at the end of `next_f32` (src/prng.rs:74) is not modelled. `Generator.Prng.NextF32Bits` returns the bit pattern, and the model proves only the value that pattern encodes; IEEE arithmetic is not modelled.
- Generator.Prng.NextInt: the rejection loop stops only almost surely. The model requires that some future draw is accepted (`EventuallyAccepts`), which is the loop's exact stopping condition. Termination itself and the expected number of draws are not modelled.
- Generator.Prng.RejectionSample: same precondition as NextInt. The number of draws is a ghost out-parameter, used only to state the new state.
- Xoroshiro.MaskLow: `raw & (span - 1)` is modelled as `raw % span`. The two are equal for a power-of-two span, but the model does not prove that bitwise identity.
- Xoroshiro.BoundWord: the loop compares against the `u64` word for `Bound(span)`. The model does not prove that this word's unsigned value is `Bound(span)`; `Bound` carries the arithmetic facts.
- Uniformity of `next_int` and the absence of modulo bias are probabilistic claims and are not modelled. Only the structural fact that the bound is a multiple of span is proved.
- Release builds wrap on overflow in `+ - * neg abs` instead of panicking. The model follows the debug behaviour and turns each overflow into a precondition.
- FixedPoint.MulDivWithinQuantum: the design property that (a * b) / b recovers a within one quantum is stated for every nonzero b. The model proves it for |b| >= ONE, and the lemma requires that. `FixedPoint.MulDivLosesSmallDivisor` refutes it for b = epsilon. Divisors strictly between epsilon and ONE in magnitude are not characterised.
- `DFix64::from_f32` and `to_f32` (src/scalar/dfix64.rs:20-21) are float conversions and are not modelled.
- `sqrt`, `rsqrt` and the trigonometric functions (src/scalar/dfix64.rs:26-27, 34-39) are placeholders that return zero, so there is nothing to model.
- `From<i64>` (src/scalar/dfix64.rs:10-14) is the datatype constructor `DFix64`. The derived `Debug`, `Clone` and `Default` have no logic to state.
- The float backends, the vector, quaternion, matrix and angle types, and the trait and module wiring of the crate are not part of this model.

## Findings

| source | as written | input that shows it | evidently intended | confidence | as-written member | corrected member |
|---|---|---|---|---|---|---|
| src/scalar/dfix64.rs:47 | `(self.0 << 16) / rhs.0` shifts in i64, and `<<` silently drops the high bits | raw 2^47 (the value 2^31) divided by ONE gives raw -2^47 | the quotient of the exact a * 2^16, with x / ONE == x for every x | medium, not executed | `FixedPoint.DivWrapsLargeDividend` | `FixedPoint.DivWide` |
| src/scalar/dfix64.rs:46 | `(self.0 * rhs.0) >> 16` forms the raw product in i64 | raw 2^47 times ONE overflows (a panic in debug builds) although the result, raw 2^47, is representable | the floor of the exact product over 2^16, with x * ONE == x for every x | medium, not executed | `FixedPoint.MulOverflowsOnRepresentable` | `FixedPoint.MulWide` |
