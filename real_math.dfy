/** Exact real arithmetic used by the constant-product oracle: natural powers
    and the contract of the square root that the oracle takes from its host
    language's math library. */
module RealMath {

  /** `x` raised to the natural power `n`, as `x ** n` for an integer exponent. */
  function Pow(x: real, n: nat): (power: real)
  {
    if n == 0 then 1.0 else x * Pow(x, n - 1)
  }

  lemma {:induction false} PowPositive(x: real, n: nat)
    requires 0.0 < x
    ensures 0.0 < Pow(x, n)
  {
    if n > 0 {
      PowPositive(x, n - 1);
    }
  }

  lemma {:induction false} PowAtLeastOne(x: real, n: nat)
    ensures 1.0 <= x ==> 1.0 <= Pow(x, n)
  {
    if n > 0 && 1.0 <= x {
      PowAtLeastOne(x, n - 1);
      assert x * Pow(x, n - 1) >= 1.0 * Pow(x, n - 1);
    }
  }

  lemma {:induction false} PowAtMostOne(x: real, n: nat)
    ensures 0.0 <= x <= 1.0 ==> 0.0 <= Pow(x, n) <= 1.0
  {
    if n > 0 && 0.0 <= x <= 1.0 {
      PowAtMostOne(x, n - 1);
      assert 0.0 <= x * Pow(x, n - 1);
      assert x * Pow(x, n - 1) <= 1.0 * Pow(x, n - 1);
    }
  }

  /** Non-negative numbers with equal squares are equal. */
  lemma SquareInjective(u: real, v: real)
    requires 0.0 <= u && 0.0 <= v && u * u == v * v
    ensures u == v
  {
    assert (u - v) * (u + v) == 0.0;
    if 0.0 < u + v {
      assert u - v == ((u - v) * (u + v)) / (u + v);
    }
  }

  /** Squares order non-negative numbers. */
  lemma SquareMonotone(u: real, v: real)
    requires 0.0 <= u && 0.0 <= v && u * u < v * v
    ensures u < v
  {
    assert (v - u) * (v + u) == v * v - u * u;
  }

  /** `sqrt` behaves as the exact square root on the non-negative reals. */
  ghost predicate IsSqrt(sqrt: real -> real)
  {
    forall x: real :: 0.0 <= x ==> 0.0 <= sqrt(x) && sqrt(x) * sqrt(x) == x
  }

  /** The non-negative square root is unique. */
  lemma SqrtUnique(sqrt: real -> real, x: real, s: real)
    requires IsSqrt(sqrt)
    requires 0.0 <= s && s * s == x
    ensures sqrt(x) == s
  {
    SquareInjective(sqrt(x), s);
  }

  /** Rearranges the product of two scaled factors. */
  lemma ProductOfScaled(t: real, a: real, u: real, b: real)
    ensures (t * a) * (u * b) == (t * u) * (a * b)
  {
  }

  /** Multiplying by a ratio and by its reciprocal cancels out. */
  lemma ReciprocalProduct(p: real, u: real, v: real)
    requires u != 0.0 && v != 0.0
    ensures (p * (u / v)) * (p * (v / u)) == p * p
  {
    assert (u / v) * (v / u) == 1.0;
    ProductOfScaled(p, u / v, p, v / u);
  }

  /** The ratio `b / a` is the reciprocal of `a / b`. */
  lemma RatioReciprocal(a: real, b: real)
    requires a != 0.0 && b != 0.0
    ensures b / a == 1.0 / (a / b)
  {
  }

  /** For positive `x`, comparing `y` with `1 / x` is comparing `x * y` with one. */
  lemma ReciprocalBound(x: real, y: real)
    requires 0.0 < x
    ensures 1.0 / x <= y <==> 1.0 <= x * y
    ensures 1.0 / x < y <==> 1.0 < x * y
  {
    assert y - 1.0 / x == (x * y - 1.0) / x;
  }

  /** A non-zero common factor cancels. */
  lemma MulCancel(a: real, b: real, c: real)
    requires c != 0.0 && a * c == b * c
    ensures a == b
  {
    assert (a - b) * c == 0.0;
  }
}
