/** The adaptive sample loop of the application renderer
    (`Renderer::render` in the top-level crate): a pixel keeps drawing
    samples until it has at least `min_samples_per_pixel` of them and the
    largest component of their variance is below the threshold, or until
    it reaches `samples_per_pixel`; its colour is the mean of the samples
    taken. `shade(s)` is the colour of sample number `s`. */
module Adaptive {
  import opened Vectors
  import opened Render

  /** `max_component`. */
  function MaxComponent(v: Vec3): (m: real)
    ensures m >= v.x && m >= v.y && m >= v.z
    ensures m == v.x || m == v.y || m == v.z
  {
    if v.x >= v.y && v.x >= v.z then v.x else if v.y >= v.z then v.y else v.z
  }

  /** The squares `col * col` of the samples, componentwise. */
  function Squares(f: nat -> Vec3): nat -> Vec3 {
    (s: nat) => Mul(f(s), f(s))
  }

  /** The mean of the first `n` samples, `sum / n`. */
  function Mean(f: nat -> Vec3, n: nat): Vec3
    requires n > 0
  {
    DivScalar(SumFirst(f, n), n as real)
  }

  /** `mean_sq - mean * mean` over the first `n` samples. */
  function Variance(f: nat -> Vec3, n: nat): Vec3
    requires n > 0
  {
    Sub(Mean(Squares(f), n), Mul(Mean(f, n), Mean(f, n)))
  }

  /** The loop breaks after its `n`-th sample: either past the minimum
      with a small variance or at the budget, or at the budget regardless
      of the minimum. */
  predicate Stops(f: nat -> Vec3, n: nat, spp: nat, minSamples: nat, threshold: real)
    requires n > 0
  {
    (n >= minSamples && (MaxComponent(Variance(f, n)) < threshold || n >= spp)) || n >= spp
  }

  /** The most samples a pixel takes: the budget, but at least one. */
  function Budget(spp: nat): nat {
    if spp >= 1 then spp else 1
  }

  /** One pass of the sample loop: sample number `taken` is drawn and
      added to the running sums, and the pass decides whether the loop
      breaks there, with which colour. */
  method TakeSample(shade: nat -> Vec3, taken: nat, sum0: Vec3, sumSq0: Vec3,
                    spp: nat, minSamples: nat, threshold: real)
    returns (sum: Vec3, sumSq: Vec3, stop: bool, color: Vec3)
    requires sum0 == SumFirst(shade, taken) && sumSq0 == SumFirst(Squares(shade), taken)
    ensures sum == SumFirst(shade, taken + 1) && sumSq == SumFirst(Squares(shade), taken + 1)
    ensures stop <==> Stops(shade, taken + 1, spp, minSamples, threshold)
    ensures stop ==> color == Mean(shade, taken + 1)
  {
    var col := shade(taken);
    sum := Vectors.Add(sum0, col);
    sumSq := Vectors.Add(sumSq0, Mul(col, col));
    var samples := taken + 1;
    stop, color := false, Zero;
    if samples >= minSamples {
      var mean := DivScalar(sum, samples as real);
      var meanSq := DivScalar(sumSq, samples as real);
      var variance := Sub(meanSq, Mul(mean, mean));
      if MaxComponent(variance) < threshold || samples >= spp {
        stop, color := true, mean;
      }
    }
    if !stop && samples >= spp {
      stop, color := true, DivScalar(sum, samples as real);
    }
  }

  /** The sample loop of one pixel. It takes at least one sample and at
      most `Budget(spp)`, stops at the first sample count where `Stops`
      holds, and returns the mean of the samples taken. */
  method AdaptivePixel(spp: nat, minSamples: nat, threshold: real, shade: nat -> Vec3)
    returns (color: Vec3, samples: nat)
    ensures 1 <= samples <= Budget(spp)
    ensures Stops(shade, samples, spp, minSamples, threshold)
    ensures forall n: nat :: 1 <= n < samples ==> !Stops(shade, n, spp, minSamples, threshold)
    ensures color == Mean(shade, samples)
  {
    var sum, sumSq := Zero, Zero;
    samples := 0;
    while true
      invariant samples == 0 || samples < Budget(spp)
      invariant sum == SumFirst(shade, samples) && sumSq == SumFirst(Squares(shade), samples)
      invariant forall n: nat :: 1 <= n <= samples ==> !Stops(shade, n, spp, minSamples, threshold)
      decreases Budget(spp) - samples
    {
      var stop, c;
      sum, sumSq, stop, c := TakeSample(shade, samples, sum, sumSq, spp, minSamples, threshold);
      samples := samples + 1;
      if stop {
        color := c;
        break;
      }
    }
  }

  /** Samples that all have one colour have zero variance. */
  lemma UniformVarianceZero(f: nat -> Vec3, n: nat, c: Vec3)
    requires n > 0 && forall s: nat :: s < n ==> f(s) == c
    ensures Variance(f, n) == Zero
  {
    MeanOfConstant(f, n, c);
    forall s: nat | s < n
      ensures Squares(f)(s) == Mul(c, c)
    {}
    MeanOfConstant(Squares(f), n, Mul(c, c));
  }

  /** A pixel whose samples all have one colour stops as soon as it has
      its minimum number of samples, for any positive threshold. */
  lemma UniformStopsAtMinimum(f: nat -> Vec3, n: nat, c: Vec3, spp: nat, minSamples: nat, threshold: real)
    requires n > 0 && n >= minSamples && threshold > 0.0
    requires forall s: nat :: s < n ==> f(s) == c
    ensures Stops(f, n, spp, minSamples, threshold)
  {
    UniformVarianceZero(f, n, c);
  }
}
