/** The library renderer's frame loop (`Renderer::render` and
    `render_with_tiles`): the size of the CMJ table, where each sample's
    sub-pixel offset comes from, the fixed-count average of a pixel's
    samples, and the writing of the averaged colours into the frame
    buffer, row by row or tile by tile.

    A sample's colour is the parameter `shade(sample, du, dv)`: the camera
    ray through the offset position and its `ray_color` estimate, with
    whatever random draws it makes, are folded into it. */
module Render {
  import opened Options
  import opened RealArith
  import opened IntArith
  import opened Vectors
  import opened Buffers
  import opened Tiles

  // ---------------------------------------------------------------------
  // The CMJ table

  /** The side of the CMJ grid for `spp` samples, `ceil(sqrt(spp))`: the
      least `n` with `n * n >= spp`. */
  function CeilSqrt(spp: nat): (n: nat)
    ensures n * n >= spp
    ensures n == 0 || (n - 1) * (n - 1) < spp
  {
    CeilSqrtFrom(spp, 0)
  }

  function CeilSqrtFrom(spp: nat, k: nat): (n: nat)
    requires k == 0 || (k - 1) * (k - 1) < spp
    ensures n * n >= spp
    ensures n == 0 || (n - 1) * (n - 1) < spp
    decreases spp - k
  {
    if k * k >= spp then k
    else
      SquareBelowMeansSmaller(k, spp, k * k);
      CeilSqrtFrom(spp, k + 1)
  }

  lemma SquareBelowMeansSmaller(k: nat, m: nat, p: int)
    requires p == k * k && p < m
    ensures k < m
  {
    if k >= 1 {
      MulLe(1, k, k, k, p);
    }
  }

  /** `f32::ceil`: the least integer not below `x`. */
  function Ceil(x: real): (c: int)
    ensures c as real >= x && (c as real) - 1.0 < x
  {
    -((-x).Floor)
  }

  /** With an exact square root, `ceil(sqrt(spp))` as the source computes
      it is `CeilSqrt(spp)`. */
  lemma CeilOfSqrt(spp: nat, s: real)
    requires s >= 0.0 && s * s == spp as real
    ensures Ceil(s) == CeilSqrt(spp) as int
  {
    var n := CeilSqrt(spp);
    var nr := n as real;
    NatSquareAsReal(n, n * n);
    if s > nr {
      SquareLt(nr, s);
      assert false;
    }
    if n > 0 && s <= nr - 1.0 {
      NatSquareAsReal(n - 1, (n - 1) * (n - 1));
      SquareLe(s, nr - 1.0);
      assert false;
    }
  }

  lemma NatSquareAsReal(a: nat, p: nat)
    requires p == a * a
    ensures p as real == (a as real) * (a as real)
  {}

  lemma SquareLe(m: real, k: real)
    requires 0.0 <= m <= k
    ensures m * m <= k * k
  {
    MulLeMono(m, k, m);
    MulLeMono(m, k, k);
  }

  /** The offset of sample number `sample`: the CMJ table's entry while
      the table lasts, the fresh pair of draws `draw` after it. */
  function SampleOffset(sample: nat, cmj: seq<(real, real)>, draw: (real, real)): (o: (real, real))
    ensures sample < |cmj| ==> o == cmj[sample]
    ensures sample >= |cmj| ==> o == draw
  {
    if sample < |cmj| then cmj[sample] else draw
  }

  /** The table of side `CeilSqrt(spp)` has an entry for every one of the
      `spp` samples, so no sample falls back to plain random offsets. */
  lemma TableCoversSamples(spp: nat, cmj: seq<(real, real)>, sample: nat, draw: (real, real))
    requires |cmj| == CeilSqrt(spp) * CeilSqrt(spp) && sample < spp
    ensures SampleOffset(sample, cmj, draw) == cmj[sample]
  {}

  // ---------------------------------------------------------------------
  // Fixed-count averaging

  /** `c0 + c1 + ... + c(n-1)`, added left to right from black. */
  function SumFirst(f: nat -> Vec3, n: nat): Vec3 {
    if n == 0 then Zero else Vectors.Add(SumFirst(f, n - 1), f(n - 1))
  }

  /** `v / d` for a colour and a scalar. */
  function DivScalar(v: Vec3, d: real): Vec3
    requires d != 0.0
  {
    Vec3(v.x / d, v.y / d, v.z / d)
  }

  /** The colour of each sample of one pixel, offset as `SampleOffset`
      picks and shaded by `shade`. */
  function SampleColors(cmj: seq<(real, real)>, draws: nat -> (real, real),
                        shade: (nat, real, real) -> Vec3): nat -> Vec3
  {
    (s: nat) => var o := SampleOffset(s, cmj, draws(s)); shade(s, o.0, o.1)
  }

  /** The sample loop of one pixel in `render`: `spp` samples summed and
      divided by `spp`. With no samples the source divides zero by zero,
      which yields NaN; that pixel is `None` here. */
  method AveragePixel(spp: nat, cmj: seq<(real, real)>, draws: nat -> (real, real),
                      shade: (nat, real, real) -> Vec3) returns (color: Option<Vec3>)
    ensures spp == 0 <==> color.None?
    ensures spp > 0 ==> color == Some(DivScalar(SumFirst(SampleColors(cmj, draws, shade), spp), spp as real))
  {
    var f := SampleColors(cmj, draws, shade);
    var sum := Zero;
    var s := 0;
    while s < spp
      invariant s <= spp && sum == SumFirst(f, s)
    {
      var o := SampleOffset(s, cmj, draws(s));
      sum := Vectors.Add(sum, shade(s, o.0, o.1));
      s := s + 1;
    }
    if spp == 0 {
      color := None;
    } else {
      color := Some(DivScalar(sum, spp as real));
    }
  }

  /** `n` samples of one colour sum to `n` times it. */
  lemma {:induction false} SumOfConstant(f: nat -> Vec3, n: nat, c: Vec3)
    requires forall s: nat :: s < n ==> f(s) == c
    ensures SumFirst(f, n) == Scale(n as real, c)
  {
    if n > 0 {
      SumOfConstant(f, n - 1, c);
      assert SumFirst(f, n) == Vectors.Add(Scale((n - 1) as real, c), c);
      ScaleOneMore((n - 1) as real, c);
    }
  }

  /** Adding `c` once more to `k c` gives `(k + 1) c`. */
  lemma ScaleOneMore(k: real, c: Vec3)
    ensures Vectors.Add(Scale(k, c), c) == Scale(k + 1.0, c)
  {}

  /** Averaging samples that all have the same colour gives that colour. */
  lemma MeanOfConstant(f: nat -> Vec3, n: nat, c: Vec3)
    requires n > 0 && forall s: nat :: s < n ==> f(s) == c
    ensures DivScalar(SumFirst(f, n), n as real) == c
  {
    SumOfConstant(f, n, c);
    ScaleThenDivide(n as real, c);
  }

  lemma ScaleThenDivide(d: real, c: Vec3)
    requires d != 0.0
    ensures DivScalar(Scale(d, c), d) == c
  {
    var s := Scale(d, c);
    DivEq(s.x, d, c.x);
    DivEq(s.y, d, c.y);
    DivEq(s.z, d, c.z);
  }

  // ---------------------------------------------------------------------
  // Writing the frame

  /** The pixels of row `y` from column `x0` on, `width` of them, receive
      `colors(x, y)`; `set_pixel` drops writes outside the image. */
  method PaintRow(b0: Buffer, x0: nat, width: nat, y: nat, colors: (nat, nat) -> Vec3) returns (b: Buffer)
    requires Buffers.Valid(b0)
    ensures Buffers.Valid(b) && b.width == b0.width && b.height == b0.height
    ensures forall x: nat, y2: nat :: InBounds(b0, x, y2) ==>
      GetPixel(b, x, y2) == if y2 == y && x0 <= x < x0 + width then colors(x, y2) else GetPixel(b0, x, y2)
  {
    b := b0;
    var i := x0;
    while i < x0 + width
      invariant x0 <= i <= x0 + width
      invariant Buffers.Valid(b) && b.width == b0.width && b.height == b0.height
      invariant forall x: nat, y2: nat :: InBounds(b0, x, y2) ==>
        GetPixel(b, x, y2) == if y2 == y && x0 <= x < i then colors(x, y2) else GetPixel(b0, x, y2)
    {
      b := SetPixel(b, i, y, colors(i, y));
      i := i + 1;
    }
  }

  /** `render`'s frame: rows from the top (`height - 1`) down to `0`, each
      from left to right. Every pixel ends up with its colour. */
  method RenderRows(w: nat, h: nat, colors: (nat, nat) -> Vec3) returns (b: Buffer)
    ensures Buffers.Valid(b) && b.width == w && b.height == h
    ensures forall x: nat, y: nat :: x < w && y < h ==> GetPixel(b, x, y) == colors(x, y)
  {
    b := New(w, h);
    var j := h;
    while j > 0
      invariant j <= h && Buffers.Valid(b) && b.width == w && b.height == h
      invariant forall x: nat, y: nat :: x < w && y < h ==>
        GetPixel(b, x, y) == if y >= j then colors(x, y) else Zero
    {
      j := j - 1;
      b := PaintRow(b, 0, w, j, colors);
    }
  }

  /** The pixels of one tile receive their colours; nothing else changes. */
  method PaintTile(b0: Buffer, t: Tile, colors: (nat, nat) -> Vec3) returns (b: Buffer)
    requires Buffers.Valid(b0)
    ensures Buffers.Valid(b) && b.width == b0.width && b.height == b0.height
    ensures forall x: nat, y: nat :: InBounds(b0, x, y) ==>
      GetPixel(b, x, y) == if Contains(t, x, y) then colors(x, y) else GetPixel(b0, x, y)
  {
    b := b0;
    var j := t.y;
    while j < t.y + t.height
      invariant t.y <= j <= t.y + t.height
      invariant Buffers.Valid(b) && b.width == b0.width && b.height == b0.height
      invariant forall x: nat, y: nat :: InBounds(b0, x, y) ==>
        GetPixel(b, x, y) == if t.x <= x < t.x + t.width && t.y <= y < j then colors(x, y) else GetPixel(b0, x, y)
    {
      b := PaintRow(b, t.x, t.width, j, colors);
      j := j + 1;
    }
  }

  /** The tile side `render_with_tiles` uses. */
  const TileSize: nat := 16

  /** `render_with_tiles`'s frame: the image cut into 16-pixel tiles, each
      tile's pixels computed and written. Since the tiles cover the image,
      every pixel ends up with its colour, as in `RenderRows`. */
  method RenderTiles(w: nat, h: nat, colors: (nat, nat) -> Vec3) returns (b: Buffer)
    ensures Buffers.Valid(b) && b.width == w && b.height == h
    ensures forall x: nat, y: nat :: x < w && y < h ==> GetPixel(b, x, y) == colors(x, y)
  {
    var tiles := GenerateTiles(w, h, TileSize);
    b := New(w, h);
    var n := 0;
    while n < |tiles|
      invariant n <= |tiles| && Buffers.Valid(b) && b.width == w && b.height == h
      invariant forall x: nat, y: nat :: x < w && y < h ==>
        GetPixel(b, x, y) == if Covered(tiles[..n], x, y) then colors(x, y) else Zero
    {
      CoveredSnoc(tiles, n);
      b := PaintTile(b, tiles[n], colors);
      n := n + 1;
    }
    assert tiles[..n] == tiles;
  }

  /** A pixel is covered by the first `n + 1` tiles iff it is covered by
      the first `n` or lies in tile `n`. */
  lemma CoveredSnoc(tiles: seq<Tile>, n: nat)
    requires n < |tiles|
    ensures forall x: nat, y: nat :: Covered(tiles[..n + 1], x, y) <==> Covered(tiles[..n], x, y) || Contains(tiles[n], x, y)
  {
    forall x: nat, y: nat
      ensures Covered(tiles[..n + 1], x, y) <==> Covered(tiles[..n], x, y) || Contains(tiles[n], x, y)
    {
      if Covered(tiles[..n + 1], x, y) {
        var k :| 0 <= k < n + 1 && Contains(tiles[..n + 1][k], x, y);
        if k < n {
          assert tiles[..n][k] == tiles[k];
        }
      }
      if Covered(tiles[..n], x, y) {
        var k :| 0 <= k < n && Contains(tiles[..n][k], x, y);
        assert tiles[..n + 1][k] == tiles[k];
      }
      if Contains(tiles[n], x, y) {
        assert tiles[..n + 1][n] == tiles[n];
      }
    }
  }
}
