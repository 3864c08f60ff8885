/** Facts about integer products, quotients and remainders that the
    solver does not find on its own. Each takes the products it talks
    about as parameters, so a caller passes its own terms and receives
    linear facts about them. */
module IntArith {

  /** A row that starts later starts at least one full row later:
      `y < y2` gives `y * w + w <= y2 * w`. */
  lemma RowBefore(y: int, y2: int, w: int, p: int, p2: int)
    requires 0 <= y < y2 && w >= 0 && p == y * w && p2 == y2 * w
    ensures p + w <= p2
  {
    Distribute(y, y2 - y - 1, w, p, (y2 - y - 1) * w, p2);
    MulNonnegInt(y2 - y - 1, w, (y2 - y - 1) * w);
  }

  lemma Distribute(a: int, b: int, k: int, p: int, q: int, s: int)
    requires p == a * k && q == b * k && s == (a + b + 1) * k
    ensures s == p + q + k
  {}

  /** The next multiple: `(c + 1) * n == c * n + n`. */
  lemma NextMultiple(c: int, n: int, p: int, q: int)
    requires p == c * n && q == (c + 1) * n
    ensures q == p + n
  {}

  lemma MulNonnegInt(a: int, b: int, p: int)
    requires a >= 0 && b >= 0 && p == a * b
    ensures p >= 0
  {}

  /** Products of naturals grow with each factor. */
  lemma MulLe(a: int, b: int, k: int, p: int, q: int)
    requires 0 <= a <= b && k >= 0 && p == a * k && q == b * k
    ensures 0 <= p <= q
  {
    assert q - p == (b - a) * k;
  }

  /** `(q, r)` with `0 <= r < n` is the quotient and remainder of
      `q * n + r` by `n`. */
  lemma DivModOf(k: int, q: int, r: int, n: int, p: int)
    requires n > 0 && 0 <= r < n && q >= 0 && p == q * n && k == p + r
    ensures k / n == q && k % n == r
  {
    var q2, r2 := k / n, k % n;
    assert k == q2 * n + r2 && 0 <= r2 < n;
    if q2 < q {
      RowBefore(q2, q, n, q2 * n, p);
    } else if q < q2 {
      RowBefore(q, q2, n, p, q2 * n);
    }
  }

  /** The quotient and remainder of `k` by `n` bracket `k` between two
      consecutive multiples of `n`. */
  lemma DivBounds(k: int, n: int, p: int)
    requires n > 0 && k >= 0 && p == (k / n) * n
    ensures k / n >= 0 && p <= k < p + n && k % n == k - p
  {}

  /** `ceil(a / n)` for a positive divisor: the number of strides of `n`
      that start below `a`. */
  function CeilDiv(a: nat, n: nat): (c: nat)
    requires n > 0
  {
    (a + n - 1) / n
  }

  /** A stride `c` starts below `a` exactly when it is one of the first
      `CeilDiv(a, n)`. */
  lemma CeilDivSpec(a: nat, n: nat, c: nat, p: int)
    requires n > 0 && p == c * n
    ensures p < a <==> c < CeilDiv(a, n)
  {
    var m := a + n - 1;
    var q := m / n;
    DivBounds(m, n, q * n);
    if c < q {
      RowBefore(c, q, n, p, q * n);
    } else {
      MulLe(q, c, n, q * n, p);
    }
  }
}
