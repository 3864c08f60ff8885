/** Scalar helpers of the renderer's `utils` crate: clamping, the ranged
    random draw, the MIS weight and scalar linear interpolation.
    Random numbers are never generated here: a draw from `[0, 1)` is an
    argument. */
module Common {
  import opened RealArith

  function Abs(x: real): (r: real)
    ensures r >= 0.0
    ensures r == x || r == -x
  {
    if x < 0.0 then -x else x
  }

  function Min(a: real, b: real): (r: real)
    ensures r <= a && r <= b
    ensures r == a || r == b
  {
    if a <= b then a else b
  }

  function Max(a: real, b: real): (r: real)
    ensures r >= a && r >= b
    ensures r == a || r == b
  {
    if a >= b then a else b
  }

  /** `clamp(x, min, max)`: below `min` gives `min`, above `max` gives `max`,
      anything else is returned unchanged. The lower test comes first, so an
      empty range (`min > max`) yields `min` for small `x`. */
  function Clamp(x: real, lo: real, hi: real): (r: real)
    ensures lo <= hi ==> lo <= r <= hi
    ensures lo <= x <= hi ==> r == x
    ensures x < lo ==> r == lo
    ensures lo <= x && x > hi ==> r == hi
  {
    if x < lo then lo
    else if x > hi then hi
    else x
  }

  /** `random_range(min, max)` with the uniform draw from `[0, 1)` passed in. */
  function RandomRange(lo: real, hi: real, draw: real): (r: real)
    ensures lo < hi && 0.0 <= draw < 1.0 ==> lo <= r < hi
    ensures draw == 0.0 ==> r == lo
  {
    DrawInRange(lo, hi, draw);
    DrawZero(lo, hi, draw);
    lo + (hi - lo) * draw
  }

  lemma DrawInRange(lo: real, hi: real, draw: real)
    ensures lo < hi && 0.0 <= draw < 1.0 ==> lo <= lo + (hi - lo) * draw < hi
  {
    if lo < hi && 0.0 <= draw < 1.0 {
      FractionOfSpan(hi - lo, draw, (hi - lo) * draw);
    }
  }

  lemma DrawZero(lo: real, hi: real, draw: real)
    ensures draw == 0.0 ==> lo + (hi - lo) * draw == lo
  {
    MulZero(hi - lo, draw);
  }

  /** The constant added to the MIS denominator. */
  const MisEpsilon: real := 0.000001

  /** `balance_heuristic(pdf_a, pdf_b)`; despite its name it computes the power
      heuristic with exponent two, `a^2 / (a^2 + b^2 + 1e-6)`. */
  function BalanceHeuristic(pdfA: real, pdfB: real): (r: real)
    ensures 0.0 <= r < 1.0
    ensures pdfA == 0.0 ==> r == 0.0
  {
    SquareNonneg(pdfA);
    SquareNonneg(pdfB);
    var a2 := pdfA * pdfA;
    var b2 := pdfB * pdfB;
    a2 / (a2 + b2 + MisEpsilon)
  }

  /** The two weights of a pair of strategies never sum to one or more: the
      epsilon in the denominator always withholds a little weight. */
  lemma BalanceHeuristicPairBelowOne(pdfA: real, pdfB: real)
    ensures BalanceHeuristic(pdfA, pdfB) + BalanceHeuristic(pdfB, pdfA) < 1.0
  {
    SquareNonneg(pdfA);
    SquareNonneg(pdfB);
    var a2 := pdfA * pdfA;
    var b2 := pdfB * pdfB;
    var d := a2 + b2 + MisEpsilon;
    assert BalanceHeuristic(pdfB, pdfA) == b2 / d;
    assert a2 / d + b2 / d == (a2 + b2) / d;
    FractionBelowOne(a2 + b2, d);
  }

  /** `Lerp for f32`: `self * (1 - t) + b * t`. */
  function Lerp(a: real, b: real, t: real): (r: real)
    ensures t == 0.0 ==> r == a
    ensures t == 1.0 ==> r == b
    ensures 0.0 <= t <= 1.0 ==> Min(a, b) <= r <= Max(a, b)
  {
    LerpZero(a, b, t);
    LerpOne(a, b, t);
    LerpBetween(a, b, t);
    a * (1.0 - t) + b * t
  }

  lemma LerpZero(a: real, b: real, t: real)
    ensures t == 0.0 ==> a * (1.0 - t) + b * t == a
  {
    AffineForm(a, b, t);
    MulZero(b - a, t);
  }

  lemma LerpOne(a: real, b: real, t: real)
    ensures t == 1.0 ==> a * (1.0 - t) + b * t == b
  {
    AffineForm(a, b, t);
    MulOne(b - a, t);
  }

  lemma LerpBetween(a: real, b: real, t: real)
    ensures 0.0 <= t <= 1.0 ==> Min(a, b) <= a * (1.0 - t) + b * t <= Max(a, b)
  {
    if 0.0 <= t <= 1.0 {
      AffineForm(a, b, t);
      if a <= b {
        FractionOfSpanLe(b - a, t, (b - a) * t);
      } else {
        FractionOfSpanLe(a - b, t, (a - b) * t);
      }
    }
  }
}
