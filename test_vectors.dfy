/**
 * The concrete scenarios of the test-suite, stated against the routine's
 * contract: integer powers with the default multiplication, the rejected
 * exponents, modular powers, and powers in the three-symbol group.
 */
module FastPowerSuite {
  import opened FastPower
  import opened Operations

  /** One step down the halving chain: the power at `n` from the power at `n / 2`. */
  lemma HalvingStep<T(!new)>(mul: (T, T) -> T, b: T, n: int, half: T, result: T)
    requires Associative(mul) && n >= 2 && Pow(mul, b, n / 2) == half
    requires result == if n % 2 == 0 then mul(half, half) else mul(b, mul(half, half))
    ensures Pow(mul, b, n) == result
  {
    PowHalving(mul, b, n);
  }

  /** A product under `multiplyModulo(m)` for a positive modulus, from its quotient and remainder. */
  lemma MultiplyModuloValue(m: Modulus, a: nat, b: nat, q: int, r: int)
    requires m > 0 && a * b == q * m + r && 0 <= r < m
    ensures MultiplyModulo(m)(a, b) == r
  {
    DivModUnique(a * b, m as int, q, r);
  }

  /** 31^100 modulo 17, followed down the halving chain 100, 50, 25, 12, 6, 3, 1. */
  lemma ThirtyOneToTheHundredMod17()
    ensures Pow(MultiplyModulo(17), 31, 100) == 13
  {
    ThirtyOneChain(MultiplyModulo(17), 100);
  }

  // The exponents of the chain are written as quotients of `n` rather than
  // as numerals, so that the solver does not unfold `Pow` at each of them.
  lemma ThirtyOneChain(f: (int, int) -> int, n: int)
    requires f == MultiplyModulo(17) && n == 100
    ensures Pow(f, 31, n) == 13
  {
    MultiplyModuloAssociative(17);
    MultiplyModuloValue(17, 31, 31, 56, 9);
    MultiplyModuloValue(17, 31, 9, 16, 7);
    HalvingStep(f, 31, n / 32, 31, 7);
    MultiplyModuloValue(17, 7, 7, 2, 15);
    HalvingStep(f, 31, n / 16, 7, 15);
    MultiplyModuloValue(17, 15, 15, 13, 4);
    HalvingStep(f, 31, n / 8, 15, 4);
    MultiplyModuloValue(17, 4, 4, 0, 16);
    MultiplyModuloValue(17, 31, 16, 29, 3);
    HalvingStep(f, 31, n / 4, 4, 3);
    MultiplyModuloValue(17, 3, 3, 0, 9);
    HalvingStep(f, 31, n / 2, 3, 9);
    MultiplyModuloValue(17, 9, 9, 4, 13);
    HalvingStep(f, 31, n, 9, 13);
  }

  /** Every power of 5 from the square on is 25 modulo 100. */
  lemma {:induction false} FivePowersMod100(n: int)
    requires n >= 2
    ensures Pow(MultiplyModulo(100), 5, n) == 25
    decreases n
  {
    if n > 2 {
      FivePowersMod100(n - 1);
    }
  }

  /** The two small modular scenarios, through the integer power. */
  lemma SmallModularPowers()
    ensures Pow(MultiplyModulo(10), 2, 9) == 2
    ensures Pow(MultiplyModulo(15), 12, 12) == 6
  {
    PowMultiplyModulo(10, 2, 9);
    assert IntPow(2, 9) == 512;
    PowMultiplyModulo(15, 12, 12);
    assert IntPow(12, 12) == 8916100448256;
  }

  lemma CallCountForLargeExponent()
    ensures BitLength(87654) == 17 && PopCount(87654) == 9
  {
    assert BitLength(1) == 1 && PopCount(1) == 1;
    assert BitLength(2) == 2 && PopCount(2) == 1;
    assert BitLength(5) == 3 && PopCount(5) == 2;
    assert BitLength(10) == 4 && PopCount(10) == 2;
    assert BitLength(21) == 5 && PopCount(21) == 3;
    assert BitLength(42) == 6 && PopCount(42) == 3;
    assert BitLength(85) == 7 && PopCount(85) == 4;
    assert BitLength(171) == 8 && PopCount(171) == 5;
    assert BitLength(342) == 9 && PopCount(342) == 5;
    assert BitLength(684) == 10 && PopCount(684) == 5;
    assert BitLength(1369) == 11 && PopCount(1369) == 6;
    assert BitLength(2739) == 12 && PopCount(2739) == 7;
    assert BitLength(5478) == 13 && PopCount(5478) == 7;
    assert BitLength(10956) == 14 && PopCount(10956) == 7;
    assert BitLength(21913) == 15 && PopCount(21913) == 8;
    assert BitLength(43827) == 16 && PopCount(43827) == 9;
  }

  /** The three large powers in the three-symbol group, through the exponent modulo 3. */
  lemma AbcLargePowers()
    ensures Pow(AbcMultiply, A, 0xaaaa) == A
    ensures Pow(AbcMultiply, B, 0xbbbb) == C
    ensures Pow(AbcMultiply, C, 0xcccc) == A
  {
    PowAbc(A, 0xaaaa);
    PowAbc(B, 0xbbbb);
    PowAbc(C, 0xcccc);
  }

  /** Positive integer powers with the default multiplication. */
  method IntegerPowersScenario() {
    var r: Result<int>;
    ghost var calls: nat;
    r, calls := PowerDefault(2, 5);
    assert r == Ok(32);
    r, calls := PowerDefault(32, 1);
    assert r == Ok(32);
    r, calls := PowerDefault(3, 7);
    assert r == Ok(2187);
    r, calls := PowerDefault(4, 5);
    assert r == Ok(1024);
    r, calls := PowerDefault(-5, 2);
    assert r == Ok(25);
    r, calls := PowerDefault(-5, 3);
    assert r == Ok(-125);
    r, calls := PowerDefault(1, 10000);
    PowerOfOne(10000);
    assert r == Ok(1);
  }

  /** Negative exponents are rejected. */
  method NegativeExponentScenario() {
    var r: Result<int>;
    ghost var calls: nat;
    r, calls := PowerDefault(7, -2);
    assert r == Err(InvalidExponent);
    r, calls := PowerDefault(5, -1);
    assert r == Err(InvalidExponent);
  }

  /** Custom multiplication: modular powers. */
  method ModularScenario() {
    var r: Result<int>;
    ghost var calls: nat;
    r, calls := Power(0, 0, MultiplyModulo(5), Some(1));
    assert r == Ok(1);
    MultiplyModuloAssociative(10);
    SmallModularPowers();
    r, calls := Power(2, 9, MultiplyModulo(10), None);
    assert r == Ok(2);
    MultiplyModuloAssociative(15);
    r, calls := Power(12, 12, MultiplyModulo(15), None);
    assert r == Ok(6);
    MultiplyModuloAssociative(17);
    ThirtyOneToTheHundredMod17();
    r, calls := Power(31, 100, MultiplyModulo(17), None);
    assert r == Ok(13);
  }

  /** The large exponent: far fewer multiplications than the exponent itself. */
  method LargeExponentScenario() {
    MultiplyModuloAssociative(100);
    FivePowersMod100(87654);
    CallCountForLargeExponent();
    var r: Result<int>;
    ghost var calls: nat;
    r, calls := Power(5, 87654, MultiplyModulo(100), None);
    assert r == Ok(25);
    assert calls == 25;
  }

  /** Custom multiplication: the three-symbol group. */
  method AbcScenario() {
    var s: Result<Abc>;
    ghost var calls: nat;
    AbcAssociative();
    s, calls := Power(A, 0, AbcMultiply, Some(A));
    assert s == Ok(A);
    PowAbc(C, 2);
    s, calls := Power(C, 2, AbcMultiply, Some(A));
    assert s == Ok(B);
  }

  /** Large exponents in the three-symbol group need no identity. */
  method AbcLargeExponentScenario() {
    var s: Result<Abc>;
    ghost var calls: nat;
    AbcAssociative();
    AbcLargePowers();
    s, calls := Power(A, 0xaaaa, AbcMultiply, None);
    assert s == Ok(A);
    s, calls := Power(B, 0xbbbb, AbcMultiply, None);
    assert s == Ok(C);
    s, calls := Power(C, 0xcccc, AbcMultiply, None);
    assert s == Ok(A);
  }

  /** A zero exponent with a custom multiplication and no identity is rejected. */
  method MissingIdentityScenario() {
    var r: Result<int>;
    var s: Result<Abc>;
    ghost var calls: nat;
    r, calls := Power(0, 0, MultiplyModulo(5), None);
    assert r == Err(MissingIdentity);
    s, calls := Power(A, 0, AbcMultiply, None);
    assert s == Err(MissingIdentity);
  }
}
