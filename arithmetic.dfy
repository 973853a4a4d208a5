/**
 * Facts of integer and real arithmetic that the similarity bounds rest on:
 * the Cauchy-Schwarz step for sums of products, and the division of a
 * number by a product of square roots.
 */
module Arithmetic {
  /** A square is at most another square of a non-negative number only if the number is at most that one. */
  lemma SquareMonotone(p: int, q: int)
    requires 0 <= q && p * p <= q * q
    ensures p <= q
  {
  }

  /** Multiplying both sides by a non-negative number keeps `<=`. */
  lemma MultiplyMonotone(u: int, v: int, w: int)
    requires u <= v && 0 <= w
    ensures u * w <= v * w
  {
  }

  /** A square is never negative. */
  lemma SquareNonNegative(x: int)
    ensures 0 <= x * x
  {
  }

  /** `(P + Q)^2 - 4 P Q == (P - Q)^2`. */
  lemma SquareOfSum(pp: int, qq: int)
    ensures (pp + qq) * (pp + qq) - 4 * (pp * qq) == (pp - qq) * (pp - qq)
  {
  }

  /** `(a yy) (b xx) == (a b) (xx yy)`. */
  lemma Regroup(a: int, b: int, xx: int, yy: int)
    ensures (a * yy) * (b * xx) == (a * b) * (xx * yy)
  {
  }

  /** `2 d x y <= a y^2 + b x^2` whenever `d^2 <= a b` (with `xx`, `yy` standing for `x^2`, `y^2`). */
  lemma CrossTerm(d: int, a: int, b: int, xx: int, yy: int, p: int)
    requires 0 <= a && 0 <= b && 0 <= xx && 0 <= yy && d * d <= a * b
    requires p * p == 4 * (d * d) * (xx * yy)
    ensures p <= a * yy + b * xx
  {
    var pp, qq := a * yy, b * xx;
    MultiplyMonotone(0, a, yy);
    MultiplyMonotone(0, b, xx);
    MultiplyMonotone(0, xx, yy);
    MultiplyMonotone(d * d, a * b, xx * yy);
    SquareOfSum(pp, qq);
    Regroup(a, b, xx, yy);
    assert 0 <= (pp - qq) * (pp - qq);
    SquareMonotone(p, pp + qq);
  }

  /** One term more keeps the Cauchy-Schwarz inequality. */
  lemma CauchySchwarzStep(d: int, a: int, b: int, x: int, y: int)
    requires 0 <= a && 0 <= b && d * d <= a * b
    ensures (d + x * y) * (d + x * y) <= (a + x * x) * (b + y * y)
  {
    var xx, yy := x * x, y * y;
    var p := 2 * d * x * y;
    Expansions(d, a, b, x, y);
    SquareNonNegative(x);
    SquareNonNegative(y);
    CrossTerm(d, a, b, xx, yy, p);
  }

  /** The expansions CauchySchwarzStep compares term by term. */
  lemma Expansions(d: int, a: int, b: int, x: int, y: int)
    ensures (2 * d * x * y) * (2 * d * x * y) == 4 * (d * d) * ((x * x) * (y * y))
    ensures (d + x * y) * (d + x * y) == d * d + 2 * d * x * y + (x * x) * (y * y)
    ensures (a + x * x) * (b + y * y) == a * b + (a * (y * y) + b * (x * x)) + (x * x) * (y * y)
  {
  }

  /** The product of two positive reals is positive. */
  lemma PositiveProduct(u: real, v: real)
    requires 0.0 < u && 0.0 < v
    ensures 0.0 < u * v
  {
  }

  /** Squaring is strictly increasing on the non-negative reals. */
  lemma SquareStrict(p: real, q: real)
    ensures 0.0 <= q < p ==> q * q < p * p
  {
    if 0.0 <= q < p {
      PositiveProduct(p - q, p + q);
      assert (p - q) * (p + q) == p * p - q * q;
    }
  }

  /** The real counterpart of SquareMonotone. */
  lemma RealSquareMonotone(p: real, q: real)
    requires 0.0 <= q && p * p <= q * q
    ensures p <= q
  {
    SquareStrict(p, q);
  }

  /** A product of two non-negative reals that is not 0 is positive. */
  lemma NonZeroProduct(x: real, y: real)
    requires 0.0 <= x && 0.0 <= y && x * y != 0.0
    ensures 0.0 < x * y
  {
  }

  /** Dividing a number of absolute value at most `m > 0` by `m` gives a value in [-1, 1]. */
  lemma QuotientAtMostOne(p: real, m: real)
    requires 0.0 < m && p <= m && -m <= p
    ensures -1.0 <= p / m <= 1.0
  {
  }

  /**
   * `d / (m1 * m2)` lies in [-1, 1] when `m1`, `m2` are the non-negative
   * square roots of `s1`, `s2`, `d^2 <= s1 * s2` and the product is not 0.
   */
  lemma CosineRange(d: int, s1: int, s2: int, m1: real, m2: real)
    requires 0.0 <= m1 && 0.0 <= m2 && m1 * m1 == s1 as real && m2 * m2 == s2 as real
    requires d * d <= s1 * s2 && m1 * m2 != 0.0
    ensures -1.0 <= (d as real) / (m1 * m2) <= 1.0
  {
    var m := m1 * m2;
    NonZeroProduct(m1, m2);
    assert m * m == (m1 * m1) * (m2 * m2);
    assert (d * d) as real <= (s1 * s2) as real;
    assert (d as real) * (d as real) <= m * m;
    RealSquareMonotone(d as real, m);
    RealSquareMonotone(-(d as real), m);
    QuotientAtMostOne(d as real, m);
  }
}
