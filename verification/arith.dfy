/** Facts of ordered-field arithmetic that the solver does not find on its
    own inside larger proofs; every other module leans on these. */
module RealArith {

  lemma MulNonneg(a: real, b: real)
    requires a >= 0.0 && b >= 0.0
    ensures a * b >= 0.0
  {}

  lemma MulPos(a: real, b: real)
    requires a > 0.0 && b > 0.0
    ensures a * b > 0.0
  {}

  lemma MulNegPos(a: real, b: real)
    requires a < 0.0 && b > 0.0
    ensures a * b < 0.0
  {}

  /** Multiplying both sides of `x <= y` by a nonnegative factor. */
  lemma MulLeMono(x: real, y: real, k: real)
    requires x <= y && k >= 0.0
    ensures x * k <= y * k
  {
    MulNonneg(y - x, k);
    assert (y - x) * k == y * k - x * k;
  }

  /** Multiplying both sides of `x < y` by a positive factor. */
  lemma MulLtMono(x: real, y: real, k: real)
    requires x < y && k > 0.0
    ensures x * k < y * k
  {
    MulPos(y - x, k);
    assert (y - x) * k == y * k - x * k;
  }

  /** Multiplying both sides of `x <= y` by a negative factor reverses them. */
  lemma MulLeAnti(x: real, y: real, k: real)
    requires x <= y && k < 0.0
    ensures y * k <= x * k
  {
    MulNonneg(y - x, -k);
    assert (y - x) * (-k) == x * k - y * k;
  }

  lemma SquareNonneg(a: real)
    ensures a * a >= 0.0
  {
    if a < 0.0 {
      MulPos(-a, -a);
    } else {
      MulNonneg(a, a);
    }
  }

  /** Dividing by a positive number keeps the order. */
  lemma DivLeMono(x: real, y: real, d: real)
    requires x <= y && d > 0.0
    ensures x / d <= y / d
  {
    MulLeMono(x, y, 1.0 / d);
  }

  /** A nonnegative numerator below a positive denominator gives a fraction
      in `[0, 1)`. */
  lemma FractionBelowOne(x: real, d: real)
    requires 0.0 <= x < d
    ensures 0.0 <= x / d < 1.0
  {
    var q := x / d;
    assert q * d == x;
    if q >= 1.0 {
      MulLeMono(1.0, q, d);
      assert false;
    }
    if q < 0.0 {
      MulNegPos(q, d);
      assert false;
    }
  }

  /** A product vanishes iff a factor does. */
  lemma ProductZero(x: real, y: real)
    ensures x * y == 0.0 <==> x == 0.0 || y == 0.0
  {
    if x > 0.0 && y > 0.0 {
      MulPos(x, y);
    } else if x < 0.0 && y > 0.0 {
      MulNegPos(x, y);
    } else if x > 0.0 && y < 0.0 {
      MulNegPos(y, x);
    } else if x < 0.0 && y < 0.0 {
      MulPos(-x, -y);
    }
  }

  /** Solving `a * t == x` for `t`. */
  lemma DivEq(x: real, a: real, t: real)
    requires a != 0.0
    ensures t == x / a <==> a * t == x
  {}

  lemma ConvexIdentity(a: real, b: real, c: real, u: real, v: real, m: real)
    ensures a + u * (b - a) + v * (c - a) - m == (1.0 - u - v) * (a - m) + u * (b - m) + v * (c - m)
  {}

  /** The point `a + u (b - a) + v (c - a)` with barycentric weights
      `1 - u - v, u, v >= 0` lies between the least and the greatest of
      `a, b, c`. */
  lemma ConvexBounds(a: real, b: real, c: real, u: real, v: real, lo: real, hi: real)
    requires 0.0 <= u && 0.0 <= v && u + v <= 1.0
    requires lo <= a && lo <= b && lo <= c && a <= hi && b <= hi && c <= hi
    ensures lo <= a + u * (b - a) + v * (c - a) <= hi
  {
    ConvexIdentity(a, b, c, u, v, lo);
    MulNonneg(1.0 - u - v, a - lo);
    MulNonneg(u, b - lo);
    MulNonneg(v, c - lo);
    ConvexIdentity(a, b, c, u, v, hi);
    MulNonneg(1.0 - u - v, hi - a);
    MulNonneg(u, hi - b);
    MulNonneg(v, hi - c);
    NegateProduct(1.0 - u - v, hi - a);
    NegateProduct(u, hi - b);
    NegateProduct(v, hi - c);
  }

  lemma MulZero(x: real, y: real)
    ensures y == 0.0 ==> x * y == 0.0
  {}

  lemma MulOne(x: real, y: real)
    ensures y == 1.0 ==> x * y == x
  {}

  /** A fraction `f` in `[0, 1)` of a positive span stays below it. The
      product is passed in as `p`, so that callers whose span is a compound
      expression receive a fact about one term. */
  lemma FractionOfSpan(span: real, f: real, p: real)
    requires span > 0.0 && 0.0 <= f < 1.0 && p == span * f
    ensures 0.0 <= p < span
  {
    MulNonneg(span, f);
    MulPos(span, 1.0 - f);
  }

  /** A fraction `f` in `[0, 1]` of a nonnegative span stays within it. */
  lemma FractionOfSpanLe(span: real, f: real, p: real)
    requires span >= 0.0 && 0.0 <= f <= 1.0 && p == span * f
    ensures 0.0 <= p <= span
  {
    MulNonneg(span, f);
    MulNonneg(span, 1.0 - f);
  }

  /** `a (1 - t) + b t == a + (b - a) t == a - (a - b) t`. */
  lemma AffineForm(a: real, b: real, t: real)
    ensures a * (1.0 - t) + b * t == a + (b - a) * t
    ensures a * (1.0 - t) + b * t == a - (a - b) * t
  {}

  lemma NegateProduct(x: real, y: real)
    ensures x * (-y) == -(x * y)
  {}
}
