/** Scalar helpers of the library: the templates of include/Zoost/Math.hpp
    instantiated at `real`, and the unsigned factorial and binomial
    coefficient of src/Math.cpp with their 32-bit wrap-around written out. */
module ZMath {

  /** 2^32: `unsigned int` arithmetic is taken modulo this value. */
  const Modulus: nat := 0x1_0000_0000

  /** Values of an `unsigned int` / `Uint32`. */
  type Uint32 = x: nat | x < 0x1_0000_0000

  /** `Math::abs`: `value < 0 ? -value : value`. */
  function Abs(x: real): (r: real)
    ensures r >= 0.0
    ensures r == x || r == -x
    ensures x >= 0.0 ==> r == x
  {
    if x < 0.0 then -x else x
  }

  /** `Math::square`. */
  function Square(x: real): (r: real)
    ensures r >= 0.0
    ensures r == Abs(x) * Abs(x)
  {
    x * x
  }

  /** A product of two positive reals, stated on a function term so that
      callers can use it by congruence. */
  function Product(x: real, y: real): real { x * y }

  lemma ProductPositive(x: real, y: real)
    requires x > 0.0 && y > 0.0
    ensures Product(x, y) > 0.0
  {
  }

  lemma ProductSigns(x: real, y: real)
    ensures x >= 0.0 && y >= 0.0 ==> Product(x, y) >= 0.0
    ensures x < 0.0 && y > 0.0 ==> Product(x, y) < 0.0
  {
    if x < 0.0 && y > 0.0 {
      ProductPositive(-x, y);
      ProductNegated(x, y);
      assert Product(-x, -(-y)) == -Product(x, -(-y));
    }
  }

  /** A product with a non-zero factor is zero only when the other factor
      is. */
  lemma ProductZero(x: real, y: real)
    requires x != 0.0 && Product(x, y) == 0.0
    ensures y == 0.0
  {
    if y > 0.0 {
      if x > 0.0 { ProductPositive(x, y); } else { ProductPositive(-x, y); ProductNegated(x, y); }
    } else if y < 0.0 {
      if x > 0.0 { ProductPositive(x, -y); ProductNegated(x, -y); } else { ProductPositive(-x, -y); ProductNegated(x, y); }
    }
  }

  lemma ProductNegated(x: real, y: real)
    ensures Product(-x, -y) == Product(x, y)
    ensures Product(-x, y) == -Product(x, y)
  {
  }

  /** `square(x)` is zero only at zero and is even. */
  lemma SquareSign(x: real)
    ensures Square(x) == 0.0 <==> x == 0.0
    ensures Square(-x) == Square(x)
  {
    if x > 0.0 {
      ProductPositive(x, x);
    } else if x < 0.0 {
      ProductPositive(-x, -x);
      ProductNegated(x, x);
    }
    assert Square(x) == Product(x, x) && Square(-x) == Product(-x, -x);
    ProductNegated(x, x);
  }

  /** Squaring is strictly increasing on the non-negative reals. */
  lemma SquareIncreasing(a: real, b: real)
    requires 0.0 <= a < b
    ensures Square(a) < Square(b)
  {
    ProductPositive(b - a, b + a);
    assert Product(b - a, b + a) == Square(b) - Square(a);
  }

  /** Non-negative square roots are unique. */
  lemma SquareInjective(a: real, b: real)
    requires a >= 0.0 && b >= 0.0
    requires Square(a) == Square(b)
    ensures a == b
  {
    if a < b {
      SquareIncreasing(a, b);
    } else if b < a {
      SquareIncreasing(b, a);
    }
  }

  function Min(a: real, b: real): real { if a <= b then a else b }
  function Max(a: real, b: real): real { if a <= b then b else a }

  /** The two guards at the head of `Math::interpolate`: above 1 becomes 1,
      below 0 becomes 0. */
  function Clamp01(t: real): (c: real)
    ensures 0.0 <= c <= 1.0
    ensures 0.0 <= t <= 1.0 ==> c == t
    ensures t > 1.0 ==> c == 1.0
    ensures t < 0.0 ==> c == 0.0
  {
    var t1 := if t > 1.0 then 1.0 else t;
    if t1 < 0.0 then 0.0 else t1
  }

  /** `Math::interpolate` at `T = real`. */
  function Interpolate(a: real, b: real, t: real): (r: real)
    ensures Min(a, b) <= r <= Max(a, b)
    ensures t <= 0.0 ==> r == a
    ensures t >= 1.0 ==> r == b
  {
    var c := Clamp01(t);
    InterpolateBetween(a, b, c);
    a + (b - a) * c
  }

  lemma MulNonNegative(x: real, y: real)
    requires x >= 0.0 && y >= 0.0
    ensures x * y >= 0.0
  {
  }

  lemma InterpolateBetween(a: real, b: real, c: real)
    requires 0.0 <= c <= 1.0
    ensures Min(a, b) <= a + (b - a) * c <= Max(a, b)
  {
    if a <= b {
      MulNonNegative(b - a, c);
      MulNonNegative(b - a, 1.0 - c);
      assert (b - a) * (1.0 - c) == (b - a) - (b - a) * c;
    } else {
      MulNonNegative(a - b, c);
      MulNonNegative(a - b, 1.0 - c);
      assert (a - b) * (1.0 - c) == (a - b) - (a - b) * c;
      assert (b - a) * c == -((a - b) * c);
    }
  }

  /** Only the clamped factor matters: every factor outside [0, 1] behaves
      like the nearer end. */
  lemma InterpolateUsesClampedFactor(a: real, b: real, t: real)
    ensures Interpolate(a, b, t) == Interpolate(a, b, Clamp01(t))
    ensures Interpolate(a, b, 0.0) == a && Interpolate(a, b, 1.0) == b
  {
  }

  /** The factorial over unbounded naturals: the reference the 32-bit
      `Fact` is compared with. */
  function MathFact(n: nat): (r: nat)
    ensures r >= 1
  {
    if n <= 1 then 1 else n * MathFact(n - 1)
  }

  /** `Math::fact` on `unsigned int`: the product wraps modulo 2^32. While
      the true factorial fits (n <= 12) the two agree. */
  function Fact(n: Uint32): (r: Uint32)
    ensures n <= 12 ==> r == MathFact(n)
    ensures n <= 12 ==> r >= 1
  {
    if n <= 1 then 1
    else
      var r := (n * Fact(n - 1)) % Modulus;
      if n <= 12 then
        MathFactMonotone(n, 12);
        MathFactTwelve();
        ModOfSmall(n * Fact(n - 1));
        r
      else r
  }

  lemma ModOfSmall(x: nat)
    requires x < Modulus
    ensures x % Modulus == x
  {
  }

  lemma MathFactTwelve()
    ensures MathFact(12) == 479001600
  {
    assert MathFact(1) == 1;
    assert MathFact(2) == 2;
    assert MathFact(3) == 6;
    assert MathFact(4) == 24;
    assert MathFact(5) == 120;
    assert MathFact(6) == 720;
    assert MathFact(7) == 5040;
    assert MathFact(8) == 40320;
    assert MathFact(9) == 362880;
    assert MathFact(10) == 3628800;
    assert MathFact(11) == 39916800;
  }

  lemma {:induction false} MathFactMonotone(n: nat, m: nat)
    requires n <= m
    ensures MathFact(n) <= MathFact(m)
    decreases m - n
  {
    if n < m {
      MathFactMonotone(n + 1, m);
      assert MathFact(n + 1) == (n + 1) * MathFact(n);
    }
  }

  /** The recurrence `fact(n) = n * fact(n - 1)` holds modulo 2^32 for
      every n >= 2, and the base case gives 1 for n <= 1. */
  lemma FactRecurrence(n: Uint32)
    ensures n <= 1 ==> Fact(n) == 1
    ensures n >= 2 ==> Fact(n) == (n * Fact(n - 1)) % Modulus
  {
  }

  /** 13! = 6227020800 does not fit 32 bits, so `fact(13)` returns
      6227020800 mod 2^32 = 1932053504 instead. */
  lemma FactWrapsAtThirteen()
    ensures Fact(13) == 1932053504
    ensures Fact(13) != MathFact(13)
  {
    MathFactTwelve();
    assert Fact(12) == 479001600;
    assert MathFact(13) == 13 * MathFact(12);
    assert 13 * Fact(12) == 6227020800;
  }

  /** The divisor `fact(k) * fact(n - k)` of `binCoef`, wrapped to 32 bits. */
  function BinDivisor(n: Uint32, k: Uint32): Uint32
    requires k <= n
  {
    (Fact(k) * Fact(n - k)) % Modulus
  }

  /** The inputs for which `binCoef` does not divide by zero. */
  predicate BinCoefDefined(n: Uint32, k: Uint32)
  {
    k > n || BinDivisor(n, k) != 0
  }

  /** `Math::binCoef`: `k <= n ? fact(n) / (fact(k) * fact(n - k)) : 0`,
      with unsigned (truncating) division. */
  function BinCoef(n: Uint32, k: Uint32): (r: Uint32)
    requires BinCoefDefined(n, k)
    ensures k > n ==> r == 0
    ensures k <= n && (k == 0 || k == n) ==> r == 1
  {
    if k <= n then
      if k == 0 || k == n then
        DivisorAtEnds(n, k);
        DivSelf(Fact(n));
        Quotient(Fact(n), BinDivisor(n, k))
      else Quotient(Fact(n), BinDivisor(n, k))
    else 0
  }

  /** Truncating unsigned division. */
  function Quotient(a: Uint32, b: Uint32): (q: Uint32)
    requires b != 0
  {
    DivBounded(a, b);
    a / b
  }

  lemma DivBounded(a: nat, b: nat)
    requires b != 0
    ensures a / b <= a
  {
    var q := a / b;
    assert a == b * q + a % b;
    MulMonotone(1, b, q);
  }

  lemma DivisorAtEnds(n: Uint32, k: Uint32)
    requires k <= n && (k == 0 || k == n)
    ensures BinDivisor(n, k) == Fact(n)
  {
    assert Fact(0) == 1;
    if k == 0 {
      assert Fact(k) * Fact(n - k) == Fact(n);
    } else {
      assert Fact(k) * Fact(n - k) == Fact(n);
    }
  }

  lemma DivSelf(x: nat)
    requires x != 0
    ensures x / x == 1
  {
  }

  /** `binCoef(n, k) == binCoef(n, n - k)`: the divisor is the same
      product in the other order. */
  lemma BinCoefSymmetric(n: Uint32, k: Uint32)
    requires k <= n
    requires BinCoefDefined(n, k)
    ensures BinCoefDefined(n, n - k)
    ensures BinCoef(n, k) == BinCoef(n, n - k)
  {
    assert BinDivisor(n, n - k) == BinDivisor(n, k) by {
      assert n - (n - k) == k;
    }
  }

  lemma {:induction false} MathFactSplit(n: nat, k: nat)
    requires k <= n
    ensures MathFact(k) * MathFact(n - k) <= MathFact(n)
    decreases n
  {
    if k < n {
      MathFactSplit(n - 1, k);
      var a := MathFact(k);
      var b := MathFact(n - 1 - k);
      var m := n - k;
      assert MathFact(n - k) == m * b;
      MulAssociates(a, m, b);
      MulMonotone(m, n, a * b);
      MulMonotone(a * b, MathFact(n - 1), n);
      assert MathFact(n) == n * MathFact(n - 1);
    }
  }

  lemma MulAssociates(a: nat, m: nat, b: nat)
    ensures a * (m * b) == m * (a * b)
  {
  }

  lemma MulMonotone(x: nat, y: nat, z: nat)
    requires x <= y
    ensures x * z <= y * z && z * x <= z * y
  {
  }

  /** While n! fits 32 bits (n <= 12) `binCoef` is defined for every k and
      is the true quotient n! / (k! (n - k)!). */
  lemma BinCoefExactUpToTwelve(n: Uint32, k: Uint32)
    requires k <= n <= 12
    ensures BinCoefDefined(n, k)
    ensures BinCoef(n, k) == MathFact(n) / (MathFact(k) * MathFact(n - k))
  {
    var d := MathFact(k) * MathFact(n - k);
    assert d <= 479001600 by {
      MathFactSplit(n, k);
      MathFactMonotone(n, 12);
      MathFactTwelve();
    }
    assert Fact(k) * Fact(n - k) == d by {
      NatProductCongruent(Fact(k), Fact(n - k), MathFact(k), MathFact(n - k));
    }
    ModOfSmall(d);
    assert BinDivisor(n, k) == d;
    assert BinCoef(n, k) == Quotient(Fact(n), d);
  }

  lemma NatProductCongruent(a: nat, b: nat, c: nat, d: nat)
    requires a == c && b == d
    ensures a * b == c * d
  {
  }
}
