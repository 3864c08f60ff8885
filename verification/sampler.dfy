/** Correlated multi-jittered sample placement (`generate_cmj_2d`): an
    `n` by `n` grid of points in the unit square. Point `(i, j)` lies in
    column stratum `i` and row stratum `j`, and within its column in the
    `j`-th of `n` finer strata, so the `n * n` points fall into distinct
    fine strata along each axis. The uniform draws of `random()` are a
    parameter: `jitter(m)` is the `m`-th draw, each from `[0, 1)`. */
module Sampler {
  import opened RealArith
  import opened IntArith

  /** The point of cell `(i, j)` with jitters `rx` and `ry`:
      `x = (i + (j + rx) / n) / n` and `y = (j + (i + ry) / n) / n`. */
  function CmjPoint(n: nat, i: nat, j: nat, rx: real, ry: real): (p: (real, real))
    requires n > 0
  {
    var nf := n as real;
    (((i as real) + ((j as real) + rx) / nf) / nf, ((j as real) + ((i as real) + ry) / nf) / nf)
  }

  /** The point of sample `k` of the output, drawing its two jitters as
      the `2k`-th and `2k+1`-th calls to `random()`. */
  function SamplePoint(n: nat, k: nat, jitter: nat -> real): (real, real)
    requires n > 0
  {
    CmjPoint(n, k % n, k / n, jitter(2 * k), jitter(2 * k + 1))
  }

  /** `generate_cmj_2d(n)`: the points row stratum by row stratum, cell `(i,
      j)` at position `j * n + i`. The shuffled `xs` and `ys` of the source
      are never read and are not modelled. */
  method GenerateCmj(n: nat, jitter: nat -> real) returns (samples: seq<(real, real)>)
    ensures |samples| == n * n
    ensures n > 0 ==> forall k :: 0 <= k < |samples| ==> samples[k] == SamplePoint(n, k, jitter)
  {
    samples := [];
    var j := 0;
    while j < n
      invariant j <= n && |samples| == j * n
      invariant n > 0 ==> forall k :: 0 <= k < |samples| ==> samples[k] == SamplePoint(n, k, jitter)
    {
      var i := 0;
      while i < n
        invariant i <= n && |samples| == j * n + i
        invariant n > 0 ==> forall k :: 0 <= k < |samples| ==> samples[k] == SamplePoint(n, k, jitter)
      {
        var k := |samples|;
        DivModOf(k, j, i, n, j * n);
        samples := samples + [CmjPoint(n, i, j, jitter(2 * k), jitter(2 * k + 1))];
        i := i + 1;
      }
      NextMultiple(j, n, j * n, (j + 1) * n);
      j := j + 1;
    }
  }

  /** The coordinate `(a + (b + r) / nf) / nf` of a cell on one axis:
      its coarse stratum is `a`, its fine stratum `a * nf + b`. */
  lemma AxisStrata(a: real, b: real, r: real, nf: real, f: real, x: real, q: real, qq: real)
    requires nf >= 1.0 && 0.0 <= a && a + 1.0 <= nf && 0.0 <= b && b + 1.0 <= nf && 0.0 <= r < 1.0
    requires f == (b + r) / nf && x == (a + f) / nf && q == x * nf && qq == q * nf
    ensures a <= q < a + 1.0
    ensures a * nf + b <= qq < a * nf + b + 1.0
    ensures 0.0 <= x < 1.0
  {
    FractionBelowOne(b + r, nf);
    DivEq(b + r, nf, f);
    DivEq(a + f, nf, x);
    FractionBelowOne(a + f, nf);
    assert qq == a * nf + f * nf;
  }

  /** Every point lies in the unit square, in coarse column stratum `i`
      and row stratum `j`, and in fine column stratum `i * n + j` and
      fine row stratum `j * n + i`. */
  lemma CmjStrata(n: nat, i: nat, j: nat, rx: real, ry: real)
    requires n > 0 && i < n && j < n && 0.0 <= rx < 1.0 && 0.0 <= ry < 1.0
    ensures 0.0 <= CmjPoint(n, i, j, rx, ry).0 < 1.0 && 0.0 <= CmjPoint(n, i, j, rx, ry).1 < 1.0
    ensures i as real <= CmjPoint(n, i, j, rx, ry).0 * (n as real) < (i as real) + 1.0
    ensures j as real <= CmjPoint(n, i, j, rx, ry).1 * (n as real) < (j as real) + 1.0
    ensures ((i * n + j) as real) <= CmjPoint(n, i, j, rx, ry).0 * (n as real) * (n as real)
                                    < ((i * n + j) as real) + 1.0
    ensures ((j * n + i) as real) <= CmjPoint(n, i, j, rx, ry).1 * (n as real) * (n as real)
                                    < ((j * n + i) as real) + 1.0
  {
    var p := CmjPoint(n, i, j, rx, ry);
    CoordStrata(n, i, j, rx, p.0);
    CoordStrata(n, j, i, ry, p.1);
  }

  /** One coordinate `(a + (b + r) / n) / n` of a point. */
  lemma CoordStrata(n: nat, a: nat, b: nat, r: real, x: real)
    requires n > 0 && a < n && b < n && 0.0 <= r < 1.0
    requires x == ((a as real) + ((b as real) + r) / (n as real)) / (n as real)
    ensures 0.0 <= x < 1.0
    ensures a as real <= x * (n as real) < (a as real) + 1.0
    ensures ((a * n + b) as real) <= x * (n as real) * (n as real) < ((a * n + b) as real) + 1.0
  {
    var nf, ar, br := n as real, a as real, b as real;
    AxisStrata(ar, br, r, nf, (br + r) / nf, x, x * nf, x * nf * nf);
    IntProductAsReal(a, n, b);
  }

  lemma IntProductAsReal(a: nat, n: nat, b: nat)
    ensures ((a * n + b) as real) == (a as real) * (n as real) + (b as real)
  {}

  /** Distinct cells never share a fine stratum: the fine column stratum
      `i * n + j` (and likewise the fine row stratum `j * n + i`)
      determines the cell, so each of the `n * n` fine strata of an axis
      holds exactly one sample. */
  lemma FineStrataDistinct(n: nat, i1: nat, j1: nat, i2: nat, j2: nat)
    requires n > 0 && j1 < n && j2 < n && i1 * n + j1 == i2 * n + j2
    ensures i1 == i2 && j1 == j2
  {
    var s := i1 * n + j1;
    DivModOf(s, i1, j1, n, i1 * n);
    DivModOf(s, i2, j2, n, i2 * n);
  }
}
