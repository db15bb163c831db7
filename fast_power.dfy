/**
 * Exponentiation by squaring over a caller-supplied binary operation.
 *
 * `Pow` is the meaning of a power: the base combined with itself `n` times,
 * grouped from the left. `Power` is the routine itself: it validates the
 * exponent, handles the zero exponent through the optional identity, and
 * otherwise runs the square-and-multiply loop over the exponent's bits from
 * the least significant one upwards, without ever seeding the accumulator
 * with an identity. `PowerDefault` is the same routine with the default
 * numeric multiplication and its identity 1.
 */
module FastPower {

  datatype Option<T> = None | Some(value: T)

  /** The two ways a call can be rejected. */
  datatype PowerError =
    | InvalidExponent   // the exponent is negative
    | MissingIdentity   // the exponent is 0, a custom operation was given, and no identity

  datatype Result<T> = Ok(value: T) | Err(error: PowerError)

  /** `mul` associates on the three values `x`, `y`, `z`. */
  ghost predicate AssociatesAt<T>(mul: (T, T) -> T, x: T, y: T, z: T) {
    mul(mul(x, y), z) == mul(x, mul(y, z))
  }

  // Stated through `AssociatesAt` so that the quantifier is only
  // instantiated where a proof asks for it.
  ghost predicate Associative<T(!new)>(mul: (T, T) -> T) {
    forall x, y, z :: AssociatesAt(mul, x, y, z)
  }

  /** `base` combined with itself `n` times, grouped from the left. */
  function Pow<T>(mul: (T, T) -> T, base: T, n: int): T
    requires n >= 1
    decreases n
  {
    if n == 1 then base else mul(Pow(mul, base, n - 1), base)
  }

  /** Under an associative operation, powers add up. */
  lemma {:induction false} PowAdd<T(!new)>(mul: (T, T) -> T, base: T, m: int, k: int)
    requires Associative(mul) && m >= 1 && k >= 1
    ensures Pow(mul, base, m + k) == mul(Pow(mul, base, m), Pow(mul, base, k))
    decreases k
  {
    if k > 1 {
      PowAdd(mul, base, m, k - 1);
      assert AssociatesAt(mul, Pow(mul, base, m), Pow(mul, base, k - 1), base);
      calc {
        Pow(mul, base, m + k);
        mul(Pow(mul, base, m + k - 1), base);
        mul(mul(Pow(mul, base, m), Pow(mul, base, k - 1)), base);
        mul(Pow(mul, base, m), mul(Pow(mul, base, k - 1), base));
        mul(Pow(mul, base, m), Pow(mul, base, k));
      }
    }
  }

  /**
   * The recursive halving formulation of the algorithm computes the same
   * power: `x^n` is `square(x^(n/2))` for even `n` and
   * `x * square(x^((n-1)/2))` for odd `n > 1`.
   */
  lemma PowHalving<T(!new)>(mul: (T, T) -> T, base: T, n: int)
    requires Associative(mul) && n >= 2
    ensures var half := Pow(mul, base, n / 2);
            Pow(mul, base, n) == if n % 2 == 0 then mul(half, half) else mul(base, mul(half, half))
  {
    var h := n / 2;
    PowAdd(mul, base, h, h);
    if n % 2 == 1 {
      PowAdd(mul, base, 1, h + h);
    }
  }

  /** Number of binary digits of `n`, that is, the ceiling of log2(n + 1). */
  function BitLength(n: nat): nat {
    if n == 0 then 0 else 1 + BitLength(n / 2)
  }

  /** Number of one digits in the binary representation of `n`. */
  function PopCount(n: nat): nat {
    if n == 0 then 0 else n % 2 + PopCount(n / 2)
  }

  function Pow2(k: nat): nat {
    if k == 0 then 1 else 2 * Pow2(k - 1)
  }

  /** `BitLength(n)` is the logarithm it claims to be. */
  lemma {:induction false} BitLengthIsLog(n: nat)
    requires n >= 1
    ensures BitLength(n) >= 1
    ensures Pow2(BitLength(n) - 1) <= n < Pow2(BitLength(n))
  {
    if n > 1 {
      BitLengthIsLog(n / 2);
    }
  }

  lemma {:induction false} PopCountAtMostBitLength(n: nat)
    ensures PopCount(n) <= BitLength(n)
    ensures n >= 1 ==> PopCount(n) >= 1
  {
    if n > 0 {
      PopCountAtMostBitLength(n / 2);
    }
  }

  lemma HalveExponent(p: nat, w: nat)
    ensures p * w == (p / 2) * (2 * w) + (p % 2) * w
  {
  }

  /**
   * The routine. The exponent is validated first; a zero exponent yields
   * the identity when one is given and an error otherwise; a positive
   * exponent never touches the identity. The ghost `calls` counts the
   * applications of `mul`.
   */
  method Power<T(!new)>(base: T, exponent: int, mul: (T, T) -> T, identity: Option<T>)
    returns (r: Result<T>, ghost calls: nat)
    ensures exponent < 0 ==> r == Err(InvalidExponent)
    ensures exponent == 0 ==> r == if identity.Some? then Ok(identity.value) else Err(MissingIdentity)
    ensures exponent >= 1 ==> r.Ok?
    ensures exponent == 1 ==> r == Ok(base)
    ensures exponent >= 1 && Associative(mul) ==> r == Ok(Pow(mul, base, exponent))
    ensures exponent < 1 ==> calls == 0
    ensures exponent >= 1 ==> calls == BitLength(exponent) + PopCount(exponent) - 1
    ensures exponent >= 1 ==> calls <= 2 * BitLength(exponent) - 1
  {
    calls := 0;
    if exponent < 0 {
      return Err(InvalidExponent), calls;
    }
    if exponent == 0 {
      if identity.Some? {
        return Ok(identity.value), calls;
      }
      return Err(MissingIdentity), calls;
    }
    var acc: Option<T> := None;
    var factor := base;
    var p: nat := exponent;
    // `done` is the part of the exponent already folded into `acc`,
    // `weight` the power of two that `factor` stands for,
    // `steps` the number of bits consumed and `ones` how many of them were set.
    ghost var done: nat, weight: nat, steps: nat, ones: nat := 0, 1, 0, 0;
    while p > 0
      invariant weight >= 1 && done < weight
      invariant done + p * weight == exponent
      invariant acc.None? <==> done == 0
      invariant acc.None? <==> ones == 0
      invariant weight == 1 ==> factor == base
      invariant done == 1 ==> acc == Some(base)
      invariant Associative(mul) ==> factor == Pow(mul, base, weight)
      invariant Associative(mul) && acc.Some? ==> acc.value == Pow(mul, base, done)
      invariant steps + BitLength(p) == BitLength(exponent)
      invariant ones + PopCount(p) == PopCount(exponent)
      invariant calls + (if ones == 0 then 0 else 1) == steps + ones
      decreases p
    {
      if p % 2 == 1 {
        if acc.None? {
          acc := Some(factor);
        } else {
          if Associative(mul) {
            PowAdd(mul, base, done, weight);
          }
          acc := Some(mul(acc.value, factor));
          calls := calls + 1;
        }
        done, ones := done + weight, ones + 1;
      }
      if Associative(mul) {
        PowAdd(mul, base, weight, weight);
      }
      HalveExponent(p, weight);
      p := p / 2;
      factor := mul(factor, factor);
      calls := calls + 1;
      weight, steps := 2 * weight, steps + 1;
    }
    r := Ok(acc.value);
    PopCountAtMostBitLength(exponent);
  }

  /** Integer powers, the reference for the default multiplication. */
  function IntPow(b: int, n: nat): int {
    if n == 0 then 1 else b * IntPow(b, n - 1)
  }

  /** The default operation: numeric multiplication. */
  function IntMul(a: int, b: int): int {
    a * b
  }

  lemma IntMulAssociative()
    ensures Associative(IntMul)
  {
    forall x: int, y: int, z: int
      ensures AssociatesAt(IntMul, x, y, z)
    {
      assert (x * y) * z == x * (y * z);
    }
  }

  /** Left-grouped repeated multiplication is the integer power. */
  lemma {:induction false} PowIntMul(b: int, n: int)
    requires n >= 1
    ensures Pow(IntMul, b, n) == IntPow(b, n)
    decreases n
  {
    if n > 1 {
      PowIntMul(b, n - 1);
      assert IntPow(b, n) == b * IntPow(b, n - 1);
    }
  }

  /**
   * The routine called without a multiplication: numeric multiplication
   * with identity 1, so every nonnegative exponent gives the integer power.
   */
  method PowerDefault(base: int, exponent: int) returns (r: Result<int>, ghost calls: nat)
    ensures exponent < 0 ==> r == Err(InvalidExponent)
    ensures exponent >= 0 ==> r == Ok(IntPow(base, exponent))
    ensures exponent >= 1 ==> calls <= 2 * BitLength(exponent) - 1
  {
    r, calls := Power(base, exponent, IntMul, Some(1));
    if exponent >= 1 {
      IntMulAssociative();
      PowIntMul(base, exponent);
    }
  }

  /** Sign law: a negative base to an even power is positive, to an odd power negative. */
  lemma {:induction false} SignLaw(b: int, n: nat)
    requires b < 0
    ensures n % 2 == 0 ==> IntPow(b, n) > 0
    ensures n % 2 == 1 ==> IntPow(b, n) < 0
  {
    if n > 0 {
      SignLaw(b, n - 1);
      var prev := IntPow(b, n - 1);
      if prev > 0 {
        assert b * prev < 0;
      } else {
        assert b * prev > 0;
      }
    }
  }

  /** One to any power is one. */
  lemma {:induction false} PowerOfOne(n: nat)
    ensures IntPow(1, n) == 1
  {
    if n > 0 {
      PowerOfOne(n - 1);
    }
  }
}
