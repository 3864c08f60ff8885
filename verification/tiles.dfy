/** Tile partitioning of the image for the tiled renderer
    (`generate_tiles`): square tiles of side `tile_size` laid on a grid
    from the top-left corner, clipped at the right and bottom edges,
    listed row by row. */
module Tiles {
  import opened IntArith

  datatype Tile = Tile(x: nat, y: nat, width: nat, height: nat)

  function MinNat(a: nat, b: nat): (m: nat)
    ensures m <= a && m <= b && (m == a || m == b)
  {
    if a <= b then a else b
  }

  /** Pixel `(px, py)` lies in tile `t`. */
  predicate Contains(t: Tile, px: nat, py: nat) {
    t.x <= px < t.x + t.width && t.y <= py < t.y + t.height
  }

  /** A tile the generator can produce: its corner is on the grid of
      stride `ts` inside the image, and it reaches `ts` pixels further or
      to the image edge, whichever comes first. */
  predicate OnGrid(t: Tile, w: nat, h: nat, ts: nat)
    requires ts > 0
  {
    && t.x % ts == 0 && t.y % ts == 0
    && t.x < w && t.y < h
    && t.width == MinNat(t.x + ts, w) - t.x
    && t.height == MinNat(t.y + ts, h) - t.y
  }

  /** Some tile of `tiles` holds pixel `(px, py)`. */
  predicate Covered(tiles: seq<Tile>, px: nat, py: nat) {
    exists k :: 0 <= k < |tiles| && Contains(tiles[k], px, py)
  }

  /** Tile `a` comes before tile `b` in row-major order of their corners. */
  predicate Before(a: Tile, b: Tile) {
    a.y < b.y || (a.y == b.y && a.x < b.x)
  }

  /** Every tile of `tiles` is a grid tile. */
  predicate AllOnGrid(tiles: seq<Tile>, w: nat, h: nat, ts: nat)
    requires ts > 0
  {
    forall k :: 0 <= k < |tiles| ==> OnGrid(tiles[k], w, h, ts)
  }

  /** `tiles` is strictly increasing in row-major order. */
  predicate Ascending(tiles: seq<Tile>) {
    forall k1, k2 :: 0 <= k1 < k2 < |tiles| ==> Before(tiles[k1], tiles[k2])
  }

  /** Every tile of `tiles` comes before the cursor position `(x, y)`. */
  predicate AllBefore(tiles: seq<Tile>, x: nat, y: nat) {
    forall k :: 0 <= k < |tiles| ==> Before(tiles[k], Tile(x, y, 0, 0))
  }

  /** Every pixel of the rows above `y`, and of the band of `ts` rows from
      `y` left of column `x`, lies in a tile of `tiles`. */
  predicate CoveredUpTo(tiles: seq<Tile>, w: nat, h: nat, x: nat, y: nat, ts: nat) {
    forall px: nat, py: nat :: px < w && py < h && (py < y || (py < y + ts && px < x)) ==>
      Covered(tiles, px, py)
  }

  /** `generate_tiles(image_width, image_height, tile_size)`. The source
      panics on a zero stride (`step_by(0)`), hence the precondition.
      The result lists `ceil(w / ts) * ceil(h / ts)` grid tiles in strictly
      increasing row-major order, and every pixel of the image lies in one
      of them. */
  method GenerateTiles(w: nat, h: nat, ts: nat) returns (tiles: seq<Tile>)
    requires ts > 0
    ensures |tiles| == CeilDiv(w, ts) * CeilDiv(h, ts)
    ensures forall k :: 0 <= k < |tiles| ==> OnGrid(tiles[k], w, h, ts)
    ensures forall k1, k2 :: 0 <= k1 < k2 < |tiles| ==> Before(tiles[k1], tiles[k2])
    ensures forall px: nat, py: nat :: px < w && py < h ==> Covered(tiles, px, py)
  {
    var rows := CeilDiv(h, ts);
    tiles := [];
    var y, r := 0, 0;
    CeilDivSpec(h, ts, r, r * ts);
    while y < h
      invariant y == r * ts && r <= rows && (y < h <==> r < rows)
      invariant |tiles| == r * CeilDiv(w, ts)
      invariant AllOnGrid(tiles, w, h, ts) && Ascending(tiles) && AllBefore(tiles, 0, y)
      invariant CoveredUpTo(tiles, w, h, 0, y, ts)
      decreases h - y
    {
      tiles := AppendRow(tiles, w, h, ts, y, r);
      NextMultiple(r, CeilDiv(w, ts), r * CeilDiv(w, ts), (r + 1) * CeilDiv(w, ts));
      NextMultiple(r, ts, y, (r + 1) * ts);
      y, r := y + ts, r + 1;
      CeilDivSpec(h, ts, r, r * ts);
    }
  }

  /** The inner loop of `generate_tiles`: the tiles of the row band at
      `y`, from left to right. */
  method AppendRow(tiles0: seq<Tile>, w: nat, h: nat, ts: nat, y: nat, r: nat) returns (tiles: seq<Tile>)
    requires ts > 0 && y < h && y == r * ts
    requires AllOnGrid(tiles0, w, h, ts) && Ascending(tiles0) && AllBefore(tiles0, 0, y)
    requires CoveredUpTo(tiles0, w, h, 0, y, ts)
    ensures |tiles| == |tiles0| + CeilDiv(w, ts)
    ensures AllOnGrid(tiles, w, h, ts) && Ascending(tiles) && AllBefore(tiles, 0, y + ts)
    ensures CoveredUpTo(tiles, w, h, 0, y + ts, ts)
  {
    var cols := CeilDiv(w, ts);
    tiles := tiles0;
    var x, c := 0, 0;
    CeilDivSpec(w, ts, c, c * ts);
    MultipleAligned(r, ts, y);
    while x < w
      invariant x == c * ts && c <= cols && (x < w <==> c < cols)
      invariant |tiles| == |tiles0| + c
      invariant AllOnGrid(tiles, w, h, ts) && Ascending(tiles) && AllBefore(tiles, x, y)
      invariant CoveredUpTo(tiles, w, h, x, y, ts)
      decreases w - x
    {
      var t := Tile(x, y, MinNat(x + ts, w) - x, MinNat(y + ts, h) - y);
      MultipleAligned(c, ts, x);
      assert OnGrid(t, w, h, ts);
      CoverExtends(tiles, t, w, h, x, y, ts);
      tiles := tiles + [t];
      NextMultiple(c, ts, x, (c + 1) * ts);
      x, c := x + ts, c + 1;
      CeilDivSpec(w, ts, c, c * ts);
    }
    CoveredBand(tiles, w, h, x, y, ts);
  }

  /** Once the cursor has passed the right edge, the whole band is covered. */
  lemma CoveredBand(tiles: seq<Tile>, w: nat, h: nat, x: nat, y: nat, ts: nat)
    requires x >= w && CoveredUpTo(tiles, w, h, x, y, ts)
    ensures CoveredUpTo(tiles, w, h, 0, y + ts, ts)
  {}

  /** Appending the tile at the cursor `(x, y)` extends the covered
      region of the current row band by one stride. */
  lemma CoverExtends(tiles: seq<Tile>, t: Tile, w: nat, h: nat, x: nat, y: nat, ts: nat)
    requires x < w && y < h
    requires t == Tile(x, y, MinNat(x + ts, w) - x, MinNat(y + ts, h) - y)
    requires CoveredUpTo(tiles, w, h, x, y, ts)
    ensures CoveredUpTo(tiles + [t], w, h, x + ts, y, ts)
  {
    forall px: nat, py: nat | px < w && py < h && (py < y || (py < y + ts && px < x + ts))
      ensures Covered(tiles + [t], px, py)
    {
      if py < y || (py < y + ts && px < x) {
        assert Covered(tiles, px, py);
        var k :| 0 <= k < |tiles| && Contains(tiles[k], px, py);
        assert (tiles + [t])[k] == tiles[k];
      } else {
        assert (tiles + [t])[|tiles|] == t;
      }
    }
  }

  /** A multiple of the stride lies on the grid. */
  lemma MultipleAligned(c: nat, ts: nat, x: int)
    requires ts > 0 && x == c * ts
    ensures x % ts == 0
  {
    DivModOf(x, c, 0, ts, x);
  }

  /** Every grid tile is nonempty, no larger than the stride, and inside
      the image. */
  lemma GridTileShape(t: Tile, w: nat, h: nat, ts: nat)
    requires ts > 0 && OnGrid(t, w, h, ts)
    ensures 1 <= t.width <= ts && 1 <= t.height <= ts
    ensures t.x + t.width <= w && t.y + t.height <= h
  {}

  /** A grid tile holding a pixel has its corner at the grid point below
      and left of that pixel. */
  lemma GridOwner(t: Tile, w: nat, h: nat, ts: nat, px: nat, py: nat)
    requires ts > 0 && OnGrid(t, w, h, ts) && Contains(t, px, py)
    ensures t.x == (px / ts) * ts && t.y == (py / ts) * ts
  {
    OwnerAlong(t.x, px, ts);
    OwnerAlong(t.y, py, ts);
  }

  lemma OwnerAlong(a: nat, p: nat, ts: nat)
    requires ts > 0 && a % ts == 0 && a <= p < a + ts
    ensures a == (p / ts) * ts
  {
    var c := a / ts;
    DivBounds(a, ts, c * ts);
    DivModOf(p, c, p - a, ts, a);
  }

  /** Tiles listed in strictly increasing row-major order on the grid
      never share a pixel: with the covering guarantee of
      `GenerateTiles`, every pixel lies in exactly one tile. */
  lemma GridTilesDisjoint(tiles: seq<Tile>, w: nat, h: nat, ts: nat, k1: int, k2: int, px: nat, py: nat)
    requires ts > 0
    requires forall k :: 0 <= k < |tiles| ==> OnGrid(tiles[k], w, h, ts)
    requires forall i, j :: 0 <= i < j < |tiles| ==> Before(tiles[i], tiles[j])
    requires 0 <= k1 < |tiles| && 0 <= k2 < |tiles|
    requires Contains(tiles[k1], px, py) && Contains(tiles[k2], px, py)
    ensures k1 == k2
  {
    GridOwner(tiles[k1], w, h, ts, px, py);
    GridOwner(tiles[k2], w, h, ts, px, py);
  }
}
