# Fast power, verified

A Dafny model of the "Fast Power" routine of the algorithms.js collection:
`power(base, n, multiply?, identity?)` combines `base` with itself `n`
times under a caller-supplied associative operation `multiply` (numeric
multiplication when none is given), in a number of multiplications
logarithmic in `n`. The model also covers the two operations that the
test-suite hands to the routine: `multiplyModulo(m)` and the three-symbol
table `abcMultiply`.

The model has three modules:

- `FastPower` (fast_power.dfy): the meaning of a power, `Pow(mul, b, n)`,
  which is `b` combined with itself `n` times, grouped from the left. It
  holds the routine `Power` and its call without a multiplication,
  `PowerDefault`, plus the reference integer power `IntPow`.
  `Power` is a method without side effects that runs the
  square-and-multiply loop. The loop reads the exponent's bits from the
  least significant upwards. It keeps a running square of the base. Its
  accumulator starts empty, so the identity is used only for a zero
  exponent. The errors are a `Result`: `InvalidExponent` for a negative
  exponent, and `MissingIdentity` for a zero exponent with a custom
  operation and no identity. The exponent is checked first. A ghost
  counter counts the applications of `multiply`.
- `Operations` (operations.dfy): `MultiplyModulo(m)`, built on
  `TruncatedRem`, which is JavaScript's `%` (a truncating remainder that
  takes the dividend's sign). Also the `Abc` datatype with the
  `AbcMultiply` table and its isomorphism to addition in Z/3.
- `FastPowerSuite` (test_vectors.dfy): the test-suite's concrete cases.
  Its lemmas compute the expected values from `Pow`. Its scenario methods
  (`IntegerPowersScenario`, `NegativeExponentScenario`, `ModularScenario`,
  `LargeExponentScenario`, `AbcScenario`, `AbcLargeExponentScenario`,
  `MissingIdentityScenario`) call `Power` and `PowerDefault`. From those
  methods' contracts alone they assert the result each `assert.equal` or
  `assert.throws` of the suite expects.

Observations that shaped the contracts:

- `Power` returns `Pow(mul, b, n)` whenever `mul` is associative.
  `Power` with exponent 1 returns the base unchanged for any operation.
- Under `multiplyModulo(m)` the base is used unreduced, so the result is
  exactly `b^n % m` only from exponent 2 on. With exponent 1 it is `b`
  itself, which is only congruent to `b^n` (`PowMultiplyModulo` states
  both cases).
- `abcMultiply`'s powers depend only on the exponent modulo 3 (`PowAbc`).
- For exponent `n >= 1`, `Power` calls `multiply` exactly
  `BitLength(n) + PopCount(n) - 1` times. That is at most
  `2 * ceil(log2(n + 1)) - 1`. For the exponent 87654 it is 25 calls.

## Model

| member | source | states |
|---|---|---|
| `FastPower.Power` | test/algorithms/math/fast_power.js:62-103 | a negative exponent gives `InvalidExponent`; exponent 0 gives the identity when one is supplied and `MissingIdentity` otherwise; a positive exponent always succeeds without an identity, exponent 1 returns the base, and for an associative operation the result is the n-fold combination `Pow`; the operation is applied `BitLength(n) + PopCount(n) - 1` times, at most `2 * BitLength(n) - 1` |
| `FastPower.PowerDefault` | test/algorithms/math/fast_power.js:63-81 | without a custom multiplication every nonnegative exponent gives the integer power `b^n` (and `b^0 = 1`), a negative exponent gives `InvalidExponent` |
| `FastPower.PowAdd` | test/algorithms/math/fast_power.js:62 | under an associative operation `b^(m+k) = b^m * b^k`, the law exponentiation by squaring rests on |
| `FastPower.PowHalving` | test/algorithms/math/fast_power.js:62 | the recursive halving formulation agrees with the n-fold power: `b^n` is `square(b^(n/2))` for even `n` and `b * square(b^(n/2))` for odd `n >= 3` |
| `FastPower.BitLengthIsLog` | test/algorithms/math/fast_power.js:62 | the bit length that bounds the number of multiplications is the logarithm: `2^(BitLength(n)-1) <= n < 2^BitLength(n)` |
| `FastPower.PopCountAtMostBitLength` | test/algorithms/math/fast_power.js:62 | a positive exponent has between 1 and `BitLength(n)` set bits, so the call count stays within twice the logarithm |
| `FastPower.IntMulAssociative` | test/algorithms/math/fast_power.js:64-67 | the default numeric multiplication is associative, so the routine's correctness applies to it |
| `FastPower.PowIntMul` | test/algorithms/math/fast_power.js:64-67 | repeated default multiplication is the integer power `b^n` for every `n >= 1` |
| `FastPower.SignLaw` | test/algorithms/math/fast_power.js:69-70 | a negative base to an even power is positive, to an odd power negative |
| `FastPower.PowerOfOne` | test/algorithms/math/fast_power.js:71 | one to any power is one |
| `Operations.TruncatedRem` | test/algorithms/math/fast_power.js:36 | JavaScript's `%` result lies strictly between `-abs(m)` and `abs(m)` and has the sign of the dividend |
| `Operations.TruncatedRemCongruent` | test/algorithms/math/fast_power.js:36 | JavaScript's `x % m` differs from `x` by a multiple of `m` |
| `Operations.TruncatedRemIdempotent` | test/algorithms/math/fast_power.js:36 | reducing an already reduced value changes nothing |
| `Operations.TruncatedRemMulLeft` | test/algorithms/math/fast_power.js:34-38 | reducing the left factor first does not change the reduced product, for all signs |
| `Operations.MultiplyModuloAssociative` | test/algorithms/math/fast_power.js:34-38 | `multiplyModulo(m)` is associative for every nonzero modulus, negative operands included |
| `Operations.PowMultiplyModulo` | test/algorithms/math/fast_power.js:86-90 | the n-fold power under `multiplyModulo(m)` is `b^n % m` from exponent 2 on, is `b` at exponent 1, and is always congruent to `b^n` |
| `Operations.AbcIsAdditionMod3` | test/algorithms/math/fast_power.js:41-58 | the table is addition modulo 3 under `a = 0, b = 1, c = 2`, and that mapping is a bijection |
| `Operations.AbcIdentity` | test/algorithms/math/fast_power.js:44-49 | `a` is a two-sided identity of the table |
| `Operations.AbcAssociative` | test/algorithms/math/fast_power.js:41-58 | the table is associative |
| `Operations.PowAbc` | test/algorithms/math/fast_power.js:93-96 | a power in the table is the base's Z/3 value times the exponent modulo 3, so it depends only on the exponent modulo 3 |
| `FastPowerSuite.ThirtyOneToTheHundredMod17` | test/algorithms/math/fast_power.js:88 | 31 to the 100th under `multiplyModulo(17)` is 13 |
| `FastPowerSuite.FivePowersMod100` | test/algorithms/math/fast_power.js:89 | every power of 5 from the square on is 25 under `multiplyModulo(100)`, in particular the 87654th |
| `FastPowerSuite.SmallModularPowers` | test/algorithms/math/fast_power.js:87-90 | 2 to the 9th under `multiplyModulo(10)` is 2 and 12 to the 12th under `multiplyModulo(15)` is 6 |
| `FastPowerSuite.CallCountForLargeExponent` | test/algorithms/math/fast_power.js:89 | 87654 has 17 bits of which 9 are set, so its power takes 25 multiplications |
| `FastPowerSuite.AbcLargePowers` | test/algorithms/math/fast_power.js:94-96 | `a^0xaaaa = a`, `b^0xbbbb = c`, `c^0xcccc = a` in the table |

## Left out

- The implementation file `algorithms/math/fast_power.js` is not part of this model. `Power` follows the documented algorithm: a square-and-multiply loop over the exponent's bits, least significant first, with an accumulator that is never seeded with the identity.
- Floating-point bases (`power(Math.PI, 100)`) and the approximate-equality helper (test/algorithms/math/fast_power.js:28-31, 68): they depend on floating-point rounding.
- Non-integer exponents (`power(Math.PI, Math.E)`, test/algorithms/math/fast_power.js:80): the exponent is an `int`, so only the negative-exponent rejection is modelled.
- JavaScript numbers are doubles. The model uses unbounded integers, so it does not capture rounding of products above 2^53.
- `Operations.MultiplyModulo`: a zero modulus (JavaScript gives `NaN`) cannot occur, because the modulus has type `Modulus`, the nonzero integers.
- The runtime type check `assert(table[a] && table[b])` in `abcMultiply` (test/algorithms/math/fast_power.js:57): a closed datatype makes it unnecessary.
- The mocha harness (`describe`, `it`, `assert.throws`, `require`): thrown errors are `Err` results, and the test cases are lemmas and scenario methods.
- `FastPower.Power`: for a non-associative operation the contract says only that a positive exponent succeeds, and that exponent 1 returns the base. The order of combination is not specified.
- `FastPower.PowerDefault` takes no identity argument. The default multiplication always uses identity 1.
