/**
 * The two custom operations the test-suite hands to the routine:
 * multiplication modulo `m`, with JavaScript's remainder operator, and a
 * three-symbol table isomorphic to addition in Z/3.
 */
module Operations {
  import opened FastPower

  /** A modulus the remainder operator can divide by. */
  type Modulus = m: int | m != 0 witness 1

  /** The absolute value of a modulus: JavaScript's `x % m` and `x % -m` agree. */
  function Magnitude(m: Modulus): (k: int)
    ensures k > 0 && (k == m as int || k == -(m as int))
  {
    if m > 0 then m as int else -(m as int)
  }

  /**
   * JavaScript's `%`: the remainder of truncating division, which takes the
   * sign of the dividend and ignores the sign of the divisor (Dafny's own
   * `%` is Euclidean, never negative).
   */
  function TruncatedRem(x: int, m: Modulus): (r: int)
    ensures -Magnitude(m) < r < Magnitude(m)
    ensures x >= 0 ==> r >= 0
    ensures x <= 0 ==> r <= 0
  {
    if x >= 0 then x % Magnitude(m) else -((-x) % Magnitude(m))
  }

  /** `multiplyModulo(m)`: the product of its two arguments, reduced by `%` m. */
  function MultiplyModulo(m: Modulus): (int, int) -> int {
    (a: int, b: int) => TruncatedRem(a * b, m)
  }

  /** Euclidean division by a positive `k` is unique. */
  lemma DivModUnique(x: int, k: int, q: int, r: int)
    requires k > 0 && x == q * k + r && 0 <= r < k
    ensures x % k == r
  {
    var q', r' := x / k, x % k;
    assert x == q' * k + r';
    assert (q - q') * k == r' - r;
    if q > q' {
      MulAtLeast(q - q', k);
    } else if q < q' {
      MulAtLeast(q' - q, k);
    }
  }

  lemma MulAtLeast(a: int, k: int)
    requires a >= 1 && k >= 1
    ensures a * k >= k
  {
  }

  /** The result of `%` differs from the dividend by a multiple of the modulus. */
  lemma TruncatedRemCongruent(x: int, m: Modulus)
    ensures (x - TruncatedRem(x, m)) % Magnitude(m) == 0
  {
    var k := Magnitude(m);
    if x >= 0 {
      assert x - x % k == (x / k) * k;
      DivModUnique(x - x % k, k, x / k, 0);
    } else {
      var ax := -x;
      assert x - TruncatedRem(x, m) == (-(ax / k)) * k;
      DivModUnique(x - TruncatedRem(x, m), k, -(ax / k), 0);
    }
  }

  /** Reducing a nonnegative factor first does not change the remainder of a product. */
  lemma ModMulLeft(u: nat, v: nat, k: int)
    requires k > 0
    ensures ((u % k) * v) % k == (u * v) % k
  {
    var q, r := u / k, u % k;
    var q2, r2 := (r * v) / k, (r * v) % k;
    assert u * v == (q * v + q2) * k + r2 by {
      calc {
        u * v;
        (q * k + r) * v;
        q * v * k + r * v;
        q * v * k + q2 * k + r2;
        (q * v + q2) * k + r2;
      }
    }
    DivModUnique(u * v, k, q * v + q2, r2);
  }

  /** `%` on a signed value: the sign comes out of the remainder. */
  lemma SignedRem(s: int, w: nat, m: Modulus)
    requires s == 1 || s == -1
    ensures TruncatedRem(s * w, m) == s * (w % Magnitude(m))
  {
  }

  /** Reducing the left factor first does not change JavaScript's remainder of a product. */
  lemma TruncatedRemMulLeft(x: int, y: int, m: Modulus)
    ensures TruncatedRem(TruncatedRem(x, m) * y, m) == TruncatedRem(x * y, m)
  {
    var k := Magnitude(m);
    if x == 0 || y == 0 {
      DivModUnique(0, k, 0, 0);
    } else {
      var sx, ax := if x > 0 then 1 else -1, if x > 0 then x else -x;
      var sy, ay := if y > 0 then 1 else -1, if y > 0 then y else -y;
      var s := sx * sy;
      assert s == 1 || s == -1;
      assert x == sx * ax && y == sy * ay;
      SignedRem(sx, ax, m);
      var rx := TruncatedRem(x, m);
      assert rx == sx * (ax % k);
      assert x * y == s * (ax * ay) by {
        assert x * y == (sx * ax) * (sy * ay);
      }
      assert rx * y == s * ((ax % k) * ay) by {
        assert rx * y == (sx * (ax % k)) * (sy * ay);
      }
      ModMulLeft(ax, ay, k);
      SignedRem(s, ax * ay, m);
      SignedRem(s, (ax % k) * ay, m);
    }
  }

  lemma MultiplyModuloAssociative(m: Modulus)
    ensures Associative(MultiplyModulo(m))
  {
    var f := MultiplyModulo(m);
    forall x: int, y: int, z: int
      ensures AssociatesAt(f, x, y, z)
    {
      calc {
        f(f(x, y), z);
        TruncatedRem(TruncatedRem(x * y, m) * z, m);
        { TruncatedRemMulLeft(x * y, z, m); }
        TruncatedRem(x * y * z, m);
        { assert x * y * z == (y * z) * x; }
        TruncatedRem((y * z) * x, m);
        { TruncatedRemMulLeft(y * z, x, m); }
        TruncatedRem(TruncatedRem(y * z, m) * x, m);
        { assert TruncatedRem(y * z, m) * x == x * TruncatedRem(y * z, m); }
        f(x, f(y, z));
      }
    }
  }

  /**
   * Powers under `multiplyModulo(m)` are modular powers: from exponent 2 on
   * the result is `b^n % m`; with exponent 1 the base comes back unreduced,
   * so in general it is only congruent to `b^n`.
   */
  lemma {:induction false} PowMultiplyModulo(m: Modulus, b: int, n: int)
    requires n >= 1
    ensures n == 1 ==> Pow(MultiplyModulo(m), b, n) == b
    ensures n >= 2 ==> Pow(MultiplyModulo(m), b, n) == TruncatedRem(IntPow(b, n), m)
    ensures TruncatedRem(Pow(MultiplyModulo(m), b, n), m) == TruncatedRem(IntPow(b, n), m)
    decreases n
  {
    var f := MultiplyModulo(m);
    if n == 1 {
      assert IntPow(b, 1) == b;
    } else {
      PowMultiplyModulo(m, b, n - 1);
      var prev := Pow(f, b, n - 1);
      assert IntPow(b, n) == IntPow(b, n - 1) * b;
      calc {
        Pow(f, b, n);
        f(prev, b);
        TruncatedRem(prev * b, m);
        { TruncatedRemMulLeft(prev, b, m); }
        TruncatedRem(TruncatedRem(prev, m) * b, m);
        TruncatedRem(TruncatedRem(IntPow(b, n - 1), m) * b, m);
        { TruncatedRemMulLeft(IntPow(b, n - 1), b, m); }
        TruncatedRem(IntPow(b, n), m);
      }
      TruncatedRemIdempotent(IntPow(b, n), m);
    }
  }

  lemma TruncatedRemIdempotent(x: int, m: Modulus)
    ensures TruncatedRem(TruncatedRem(x, m), m) == TruncatedRem(x, m)
  {
    var k := Magnitude(m);
    var ax := if x >= 0 then x else -x;
    var r := ax % k;
    DivModUnique(r, k, 0, r);
  }

  /** The three symbols of the `abcMultiply` table. */
  datatype Abc = A | B | C

  /** `abcMultiply`: the Cayley table, row = left operand, column = right operand. */
  function AbcMultiply(x: Abc, y: Abc): Abc {
    match (x, y)
    case (A, A) => A
    case (A, B) => B
    case (A, C) => C
    case (B, A) => B
    case (B, B) => C
    case (B, C) => A
    case (C, A) => C
    case (C, B) => A
    case (C, C) => B
  }

  /** The isomorphism with Z/3: `a` is 0, `b` is 1, `c` is 2. */
  function ToZ3(x: Abc): (k: nat)
    ensures k < 3
  {
    match x
    case A => 0
    case B => 1
    case C => 2
  }

  function FromZ3(k: nat): (x: Abc)
    requires k < 3
    ensures ToZ3(x) == k
  {
    if k == 0 then A else if k == 1 then B else C
  }

  /** The table is addition mod 3 carried over by the isomorphism. */
  lemma AbcIsAdditionMod3(x: Abc, y: Abc)
    ensures AbcMultiply(x, y) == FromZ3((ToZ3(x) + ToZ3(y)) % 3)
    ensures FromZ3(ToZ3(x)) == x
  {
  }

  /** `a` is a two-sided identity. */
  lemma AbcIdentity(x: Abc)
    ensures AbcMultiply(A, x) == x && AbcMultiply(x, A) == x
  {
  }

  lemma AbcAssociative()
    ensures Associative(AbcMultiply)
  {
  }

  /** A power in the table depends only on the exponent modulo 3. */
  lemma {:induction false} PowAbc(x: Abc, n: int)
    requires n >= 1
    ensures Pow(AbcMultiply, x, n) == FromZ3((ToZ3(x) * (n % 3)) % 3)
    decreases n
  {
    if n > 1 {
      PowAbc(x, n - 1);
      var t := ToZ3(x);
      AbcIsAdditionMod3(Pow(AbcMultiply, x, n - 1), x);
      assert ((t * ((n - 1) % 3)) % 3 + t) % 3 == (t * (n % 3)) % 3 by {
        if t == 0 {
        } else if t == 1 {
        } else {
          assert (2 * ((n - 1) % 3)) % 3 + 2 == 2 * ((n - 1) % 3 + 1) - 3 * ((2 * ((n - 1) % 3)) / 3);
        }
      }
    }
  }
}
