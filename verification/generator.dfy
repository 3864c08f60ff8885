/** The UV-sphere and UV-torus generators (`UVSphere::generate`,
    `UVTorus::generate`) and `triangulate`. Both shapes are a grid of
    `rows + 1` by `cols + 1` vertices, row-major, with two triangles per
    grid cell: the sphere's rows are its stacks and its columns its
    sectors, the torus's rows its segments and its columns its sides.

    The trigonometry is a parameter: a `TrigTable` gives the cosine and
    sine of each angle index, and `SpherePoint` and `TorusPoint` place a
    vertex from them by the source's formulas. Normals (`unit_vector`,
    which needs a square root) are not modelled. */
module Generators {
  import opened Options
  import opened IntArith
  import opened Vectors
  import opened Materials
  import opened Scene

  /** An index triple `(i0, i1, i2)`. */
  type Triple = (nat, nat, nat)

  /** The texture coordinate `(u, v)` of a vertex; a component is `None`
      where the source divides zero by zero and gets NaN (a grid with no
      rows or no columns). */
  type Uv = (Option<real>, Option<real>)

  /** What `generate` returns, without the normals. */
  datatype Grid = Grid(vertices: seq<Vec3>, uvs: seq<Uv>, indices: seq<Triple>)

  // ---------------------------------------------------------------------
  // Indices

  /** One of the two triangles of grid cell `(i, j)` in a grid `cols`
      cells wide. With `first = i * (cols + 1) + j` the cell's corner and
      `second = first + cols + 1` the vertex one row further, the lower
      triangle is `(first, second, first + 1)` and the upper one
      `(first + 1, second, second + 1)`. */
  function CellTriangle(cols: nat, i: nat, j: nat, upper: bool): Triple {
    var first := i * (cols + 1) + j;
    var second := first + cols + 1;
    if upper then (first + 1, second, second + 1) else (first, second, first + 1)
  }

  /** Triangle number `k` of the index list: cells in row-major order,
      each contributing its lower then its upper triangle. */
  function GridTriangle(cols: nat, k: nat): Triple
    requires cols > 0
  {
    var c := k / 2;
    CellTriangle(cols, c / cols, c % cols, k % 2 == 1)
  }

  predicate TripleBelow(t: Triple, n: nat) {
    t.0 < n && t.1 < n && t.2 < n
  }

  /** The three corners of the triangle are different vertices. */
  predicate Distinct(t: Triple) {
    t.0 != t.1 && t.1 != t.2 && t.0 != t.2
  }

  /** The index loop shared by both generators. It produces two triangles
      per cell, every index names one of the `(rows + 1) * (cols + 1)`
      vertices, no triangle repeats a vertex, and triangle `k` is
      `GridTriangle(cols, k)`. */
  method GridIndices(rows: nat, cols: nat) returns (indices: seq<Triple>)
    ensures |indices| == 2 * (rows * cols)
    ensures forall k :: 0 <= k < |indices| ==>
      TripleBelow(indices[k], (rows + 1) * (cols + 1)) && Distinct(indices[k])
    ensures cols > 0 ==> forall k :: 0 <= k < |indices| ==> indices[k] == GridTriangle(cols, k)
  {
    indices := [];
    var i := 0;
    while i < rows
      invariant i <= rows && |indices| == 2 * (i * cols)
      invariant cols > 0 ==> forall k :: 0 <= k < |indices| ==> indices[k] == GridTriangle(cols, k)
    {
      var j := 0;
      while j < cols
        invariant j <= cols && |indices| == 2 * (i * cols + j)
        invariant cols > 0 ==> forall k :: 0 <= k < |indices| ==> indices[k] == GridTriangle(cols, k)
      {
        CellPosition(cols, i, j, i * cols);
        indices := indices + [CellTriangle(cols, i, j, false), CellTriangle(cols, i, j, true)];
        j := j + 1;
      }
      NextMultiple(i, cols, i * cols, (i + 1) * cols);
      i := i + 1;
    }
    forall k | 0 <= k < |indices|
      ensures TripleBelow(indices[k], (rows + 1) * (cols + 1)) && Distinct(indices[k])
    {
      GridTriangleInRange(rows, cols, k);
    }
  }

  /** The two triangles of cell `(i, j)` sit at positions
      `2 * (i * cols + j)` and the one after it. */
  lemma CellPosition(cols: nat, i: nat, j: nat, p: nat)
    requires j < cols && p == i * cols
    ensures GridTriangle(cols, 2 * (p + j)) == CellTriangle(cols, i, j, false)
    ensures GridTriangle(cols, 2 * (p + j) + 1) == CellTriangle(cols, i, j, true)
  {
    var c := p + j;
    DivModOf(c, i, j, cols, p);
    assert (2 * c) / 2 == c && (2 * c + 1) / 2 == c;
  }

  /** Every triangle of a grid with `rows` rows names vertices of the
      grid, and three different ones. */
  lemma GridTriangleInRange(rows: nat, cols: nat, k: nat)
    requires cols > 0 && k < 2 * (rows * cols)
    ensures TripleBelow(GridTriangle(cols, k), (rows + 1) * (cols + 1))
    ensures Distinct(GridTriangle(cols, k))
  {
    var c := k / 2;
    var i, j := c / cols, c % cols;
    DivBounds(c, cols, i * cols);
    if i >= rows {
      MulLe(rows, i, cols, rows * cols, i * cols);
      assert false;
    }
    var n := cols + 1;
    NextMultiple(i, n, i * n, (i + 1) * n);
    NextMultiple(i + 1, n, (i + 1) * n, (i + 2) * n);
    MulLe(i + 2, rows + 1, n, (i + 2) * n, (rows + 1) * n);
  }

  // ---------------------------------------------------------------------
  // Vertices and texture coordinates

  /** The vertex loop shared by both generators: `f(i, j)` for `i` in
      `0..=rows` and `j` in `0..=cols`, row-major, so the value of grid
      vertex `(i, j)` lands at position `i * (cols + 1) + j`. */
  method GridValues<T>(rows: nat, cols: nat, f: (nat, nat) -> T) returns (vs: seq<T>)
    ensures |vs| == (rows + 1) * (cols + 1)
    ensures forall k :: 0 <= k < |vs| ==> vs[k] == f(k / (cols + 1), k % (cols + 1))
  {
    var n := cols + 1;
    vs := [];
    var i := 0;
    ghost var row := 0;  // i * n, kept by addition
    while i <= rows
      invariant i <= rows + 1 && row == i * n && |vs| == row
      invariant forall k :: 0 <= k < |vs| ==> vs[k] == f(k / n, k % n)
    {
      var j := 0;
      while j <= cols
        invariant j <= n && |vs| == row + j
        invariant forall k :: 0 <= k < |vs| ==> vs[k] == f(k / n, k % n)
      {
        DivModOf(|vs|, i, j, n, row);
        vs := vs + [f(i, j)];
        j := j + 1;
      }
      NextMultiple(i, n, row, (i + 1) * n);
      row := row + n;
      i := i + 1;
    }
  }

  /** `a as f32 / b as f32`; `None` for `0 / 0` (NaN). Inside the grid
      `a <= b`, so a denominator of zero only ever meets a zero numerator. */
  function Ratio(a: nat, b: nat): (r: Option<real>)
    ensures r.None? <==> b == 0
    ensures r.Some? ==> r.value * (b as real) == a as real
    ensures r.Some? && a <= b ==> 0.0 <= r.value <= 1.0
  {
    if b == 0 then None else Some((a as real) / (b as real))
  }

  /** The sphere's `(u, v) = (j / sectors, i / stacks)`. */
  function SphereUv(stacks: nat, sectors: nat): (nat, nat) -> Uv {
    (i: nat, j: nat) => (Ratio(j, sectors), Ratio(i, stacks))
  }

  /** The torus's `(u, v) = (i / segments, j / sides)`. */
  function TorusUv(segments: nat, sides: nat): (nat, nat) -> Uv {
    (i: nat, j: nat) => (Ratio(i, segments), Ratio(j, sides))
  }

  /** Both coordinates are defined and lie in `[0, 1]`. */
  predicate UvInUnitSquare(uv: Uv) {
    uv.0.Some? && uv.1.Some? && 0.0 <= uv.0.value <= 1.0 && 0.0 <= uv.1.value <= 1.0
  }

  /** Grid vertex number `k` of a grid with `rows` rows sits in a row
      `<= rows` and a column `<= cols`. */
  lemma GridCell(rows: nat, cols: nat, k: nat)
    requires k < (rows + 1) * (cols + 1)
    ensures k / (cols + 1) <= rows && k % (cols + 1) <= cols
  {
    var n := cols + 1;
    DivBounds(k, n, (k / n) * n);
    if k / n > rows {
      MulLe(rows + 1, k / n, n, (rows + 1) * n, (k / n) * n);
      assert false;
    }
  }

  /** Every sphere vertex has texture coordinates in the unit square. */
  lemma SphereUvInUnitSquare(stacks: nat, sectors: nat, k: nat)
    requires stacks > 0 && sectors > 0 && k < (stacks + 1) * (sectors + 1)
    ensures UvInUnitSquare(SphereUv(stacks, sectors)(k / (sectors + 1), k % (sectors + 1)))
  {
    GridCell(stacks, sectors, k);
  }

  /** Every torus vertex has texture coordinates in the unit square. */
  lemma TorusUvInUnitSquare(segments: nat, sides: nat, k: nat)
    requires segments > 0 && sides > 0 && k < (segments + 1) * (sides + 1)
    ensures UvInUnitSquare(TorusUv(segments, sides)(k / (sides + 1), k % (sides + 1)))
  {
    GridCell(segments, sides, k);
  }

  // ---------------------------------------------------------------------
  // The two shapes

  /** The position of a sphere vertex with stack angle `a` and sector
      angle `b`, given their cosines and sines: `xy = radius * cos a`,
      `(xy cos b, xy sin b, radius sin a)`. */
  function SpherePoint(radius: real, cosA: real, sinA: real, cosB: real, sinB: real): Vec3 {
    var xy := radius * cosA;
    Vec3(xy * cosB, xy * sinB, radius * sinA)
  }

  /** With exact cosines and sines every vertex lies on the sphere. */
  lemma SpherePointOnSphere(radius: real, cosA: real, sinA: real, cosB: real, sinB: real)
    requires cosA * cosA + sinA * sinA == 1.0 && cosB * cosB + sinB * sinB == 1.0
    ensures LengthSquared(SpherePoint(radius, cosA, sinA, cosB, sinB)) == radius * radius
  {
    var xy := radius * cosA;
    SquaresScaled(xy, cosB, sinB);
    SquaresScaled(radius, cosA, sinA);
  }

  /** `(m c)^2 + (m s)^2 == m^2` when `c^2 + s^2 == 1`. */
  lemma SquaresScaled(m: real, c: real, s: real)
    requires c * c + s * s == 1.0
    ensures (m * c) * (m * c) + (m * s) * (m * s) == m * m
  {
    assert (m * c) * (m * c) + (m * s) * (m * s) == m * m * (c * c + s * s);
  }

  /** The position of a torus vertex with segment angle `a` and side
      angle `b`: `((R + r cos b) cos a, (R + r cos b) sin a, r sin b)`
      moved by the torus position. */
  function TorusPoint(major: real, minor: real, pos: Vec3, cosA: real, sinA: real, cosB: real, sinB: real): Vec3 {
    var ring := major + minor * cosB;
    Vectors.Add(Vec3(ring * cosA, ring * sinA, minor * sinB), pos)
  }

  /** The point of the tube's centre circle at segment angle `a`, from
      which the source measures the vertex normal. */
  function TorusCenter(major: real, pos: Vec3, cosA: real, sinA: real): Vec3 {
    Vec3(major * cosA + pos.x, major * sinA + pos.y, pos.z)
  }

  /** With exact cosines and sines every vertex lies on the tube: at
      distance `minor` from the centre circle point of its segment. */
  lemma TorusPointOnTube(major: real, minor: real, pos: Vec3, cosA: real, sinA: real, cosB: real, sinB: real)
    requires cosA * cosA + sinA * sinA == 1.0 && cosB * cosB + sinB * sinB == 1.0
    ensures LengthSquared(Sub(TorusPoint(major, minor, pos, cosA, sinA, cosB, sinB), TorusCenter(major, pos, cosA, sinA)))
            == minor * minor
  {
    var d := Sub(TorusPoint(major, minor, pos, cosA, sinA, cosB, sinB), TorusCenter(major, pos, cosA, sinA));
    var m := minor * cosB;
    assert d == Vec3(m * cosA, m * sinA, minor * sinB);
    SquaresScaled(m, cosA, sinA);
    SquaresScaled(minor, cosB, sinB);
  }

  /** The grid with positions `point`, texture coordinates `uv` and the
      shared index pattern. */
  method Generate(rows: nat, cols: nat, point: (nat, nat) -> Vec3, uv: (nat, nat) -> Uv) returns (g: Grid)
    ensures |g.vertices| == (rows + 1) * (cols + 1) && |g.uvs| == |g.vertices|
    ensures forall k :: 0 <= k < |g.vertices| ==> g.vertices[k] == point(k / (cols + 1), k % (cols + 1))
    ensures forall k :: 0 <= k < |g.uvs| ==> g.uvs[k] == uv(k / (cols + 1), k % (cols + 1))
    ensures |g.indices| == 2 * (rows * cols)
    ensures forall k :: 0 <= k < |g.indices| ==> TripleBelow(g.indices[k], |g.vertices|) && Distinct(g.indices[k])
    ensures cols > 0 ==> forall k :: 0 <= k < |g.indices| ==> g.indices[k] == GridTriangle(cols, k)
  {
    var vs := GridValues(rows, cols, point);
    var uvs := GridValues(rows, cols, uv);
    var ids := GridIndices(rows, cols);
    g := Grid(vs, uvs, ids);
  }

  /** The cosine and sine the source computes for each angle index: entry
      `i` of a table is `(cos, sin)` of the `i`-th stack, sector, segment
      or side angle. */
  type TrigTable = nat -> (real, real)

  /** The table holds exact cosines and sines for indices `0..=n`. */
  predicate ExactTrig(t: TrigTable, n: nat) {
    forall i :: 0 <= i <= n ==> t(i).0 * t(i).0 + t(i).1 * t(i).1 == 1.0
  }

  /** Sphere vertex `(i, j)`: stack `i`, sector `j`. */
  function SphereVertex(radius: real, stack: TrigTable, sector: TrigTable): (nat, nat) -> Vec3 {
    (i: nat, j: nat) => SpherePoint(radius, stack(i).0, stack(i).1, sector(j).0, sector(j).1)
  }

  /** Torus vertex `(i, j)`: segment `i`, side `j`. */
  function TorusVertex(major: real, minor: real, pos: Vec3, segment: TrigTable, side: TrigTable): (nat, nat) -> Vec3 {
    (i: nat, j: nat) => TorusPoint(major, minor, pos, segment(i).0, segment(i).1, side(j).0, side(j).1)
  }

  /** With exact tables, every sphere grid vertex is at distance
      `radius` from the centre. */
  lemma SphereVertexOnSphere(radius: real, stack: TrigTable, sector: TrigTable, stacks: nat, sectors: nat, i: nat, j: nat)
    requires ExactTrig(stack, stacks) && ExactTrig(sector, sectors) && i <= stacks && j <= sectors
    ensures LengthSquared(SphereVertex(radius, stack, sector)(i, j)) == radius * radius
  {
    SpherePointOnSphere(radius, stack(i).0, stack(i).1, sector(j).0, sector(j).1);
  }

  /** With exact tables, every torus grid vertex is at distance `minor`
      from its segment's point of the centre circle. */
  lemma TorusVertexOnTube(major: real, minor: real, pos: Vec3, segment: TrigTable, side: TrigTable,
                          segments: nat, sides: nat, i: nat, j: nat)
    requires ExactTrig(segment, segments) && ExactTrig(side, sides) && i <= segments && j <= sides
    ensures LengthSquared(Sub(TorusVertex(major, minor, pos, segment, side)(i, j),
                              TorusCenter(major, pos, segment(i).0, segment(i).1))) == minor * minor
  {
    TorusPointOnTube(major, minor, pos, segment(i).0, segment(i).1, side(j).0, side(j).1);
  }

  /** `UVSphere::generate`: `(stacks + 1) * (sectors + 1)` vertices,
      vertex `(i, j)` placed by the sphere formula from the cosine and sine
      of stack angle `i` and sector angle `j`, hence at distance `radius`
      from the centre when those are exact; `2 * stacks * sectors`
      triangles over them, and texture coordinates in the unit square
      whenever there is at least one stack and one sector. */
  method UvSphere(radius: real, stacks: nat, sectors: nat, stack: TrigTable, sector: TrigTable) returns (g: Grid)
    ensures |g.vertices| == (stacks + 1) * (sectors + 1) && |g.uvs| == |g.vertices|
    ensures forall k :: 0 <= k < |g.vertices| ==>
      g.vertices[k] == SphereVertex(radius, stack, sector)(k / (sectors + 1), k % (sectors + 1))
    ensures ExactTrig(stack, stacks) && ExactTrig(sector, sectors) ==>
      forall k :: 0 <= k < |g.vertices| ==> LengthSquared(g.vertices[k]) == radius * radius
    ensures |g.indices| == 2 * (stacks * sectors)
    ensures forall k :: 0 <= k < |g.indices| ==> TripleBelow(g.indices[k], |g.vertices|) && Distinct(g.indices[k])
    ensures forall k :: 0 <= k < |g.uvs| ==> g.uvs[k] == SphereUv(stacks, sectors)(k / (sectors + 1), k % (sectors + 1))
    ensures stacks > 0 && sectors > 0 ==> forall k :: 0 <= k < |g.uvs| ==> UvInUnitSquare(g.uvs[k])
  {
    g := Generate(stacks, sectors, SphereVertex(radius, stack, sector), SphereUv(stacks, sectors));
    forall k | 0 <= k < |g.uvs|
      ensures stacks > 0 && sectors > 0 ==> UvInUnitSquare(g.uvs[k])
    {
      if stacks > 0 && sectors > 0 {
        SphereUvInUnitSquare(stacks, sectors, k);
      }
    }
    if ExactTrig(stack, stacks) && ExactTrig(sector, sectors) {
      forall k | 0 <= k < |g.vertices|
        ensures LengthSquared(g.vertices[k]) == radius * radius
      {
        GridCell(stacks, sectors, k);
        SphereVertexOnSphere(radius, stack, sector, stacks, sectors, k / (sectors + 1), k % (sectors + 1));
      }
    }
  }

  /** `UVTorus::generate`: `(segments + 1) * (sides + 1)` vertices,
      vertex `(i, j)` placed by the torus formula from the cosine and sine
      of segment angle `i` and side angle `j`, hence at distance
      `minor_radius` from its segment's point of the centre circle when
      those are exact; `2 * segments * sides` triangles over them, and
      texture coordinates in the unit square whenever there is at least
      one segment and one side. */
  method UvTorus(major: real, minor: real, pos: Vec3, segments: nat, sides: nat,
                 segment: TrigTable, side: TrigTable) returns (g: Grid)
    ensures |g.vertices| == (segments + 1) * (sides + 1) && |g.uvs| == |g.vertices|
    ensures forall k :: 0 <= k < |g.vertices| ==>
      g.vertices[k] == TorusVertex(major, minor, pos, segment, side)(k / (sides + 1), k % (sides + 1))
    ensures ExactTrig(segment, segments) && ExactTrig(side, sides) ==>
      forall k :: 0 <= k < |g.vertices| ==>
        LengthSquared(Sub(g.vertices[k], TorusCenter(major, pos, segment(k / (sides + 1)).0, segment(k / (sides + 1)).1)))
        == minor * minor
    ensures |g.indices| == 2 * (segments * sides)
    ensures forall k :: 0 <= k < |g.indices| ==> TripleBelow(g.indices[k], |g.vertices|) && Distinct(g.indices[k])
    ensures forall k :: 0 <= k < |g.uvs| ==> g.uvs[k] == TorusUv(segments, sides)(k / (sides + 1), k % (sides + 1))
    ensures segments > 0 && sides > 0 ==> forall k :: 0 <= k < |g.uvs| ==> UvInUnitSquare(g.uvs[k])
  {
    g := Generate(segments, sides, TorusVertex(major, minor, pos, segment, side), TorusUv(segments, sides));
    forall k | 0 <= k < |g.uvs|
      ensures segments > 0 && sides > 0 ==> UvInUnitSquare(g.uvs[k])
    {
      if segments > 0 && sides > 0 {
        TorusUvInUnitSquare(segments, sides, k);
      }
    }
    if ExactTrig(segment, segments) && ExactTrig(side, sides) {
      forall k | 0 <= k < |g.vertices|
        ensures LengthSquared(Sub(g.vertices[k], TorusCenter(major, pos, segment(k / (sides + 1)).0, segment(k / (sides + 1)).1)))
                == minor * minor
      {
        GridCell(segments, sides, k);
        TorusVertexOnTube(major, minor, pos, segment, side, segments, sides, k / (sides + 1), k % (sides + 1));
      }
    }
  }

  // ---------------------------------------------------------------------
  // Triangulation

  /** `triangulate`: one triangle per index triple, in order, with the
      material of the shape. The source indexes the vertex list unchecked,
      so every index must name a vertex. */
  function Triangulate(vertices: seq<Vec3>, indices: seq<Triple>, mat: Material): (objs: seq<Object>)
    requires forall k :: 0 <= k < |indices| ==> TripleBelow(indices[k], |vertices|)
    ensures |objs| == |indices|
    ensures forall k :: 0 <= k < |objs| ==> objs[k].TriangleObj? && objs[k].mat == mat
  {
    if |indices| == 0 then []
    else
      var t := indices[0];
      assert TripleBelow(t, |vertices|);
      [TriangleObj(vertices[t.0], vertices[t.1], vertices[t.2], mat)] + Triangulate(vertices, indices[1..], mat)
  }

  /** The triples written out one index after another, as an indexed
      mesh stores them. */
  function Flatten(indices: seq<Triple>): (f: seq<nat>)
    ensures |f| == 3 * |indices|
  {
    if |indices| == 0 then []
    else [indices[0].0, indices[0].1, indices[0].2] + Flatten(indices[1..])
  }

  lemma {:induction false} FlattenValid(vertices: seq<Vec3>, indices: seq<Triple>)
    requires forall k :: 0 <= k < |indices| ==> TripleBelow(indices[k], |vertices|)
    ensures MeshIndicesValid(vertices, Flatten(indices))
  {
    if |indices| > 0 {
      FlattenValid(vertices, indices[1..]);
      var f, rest := Flatten(indices), Flatten(indices[1..]);
      forall i | 0 <= i < |f|
        ensures f[i] < |vertices|
      {
        if i >= 3 {
          assert f[i] == rest[i - 3];
        }
      }
    }
  }

  /** The triangulated shape is the indexed mesh over the same vertices
      and the flattened triples, triangle for triangle: a mesh object and
      its triangulation are hit alike. */
  lemma {:induction false} TriangulateIsMesh(vertices: seq<Vec3>, indices: seq<Triple>, mat: Material)
    requires forall k :: 0 <= k < |indices| ==> TripleBelow(indices[k], |vertices|)
    ensures MeshIndicesValid(vertices, Flatten(indices))
    ensures Triangulate(vertices, indices, mat) == MeshTriangles(vertices, Flatten(indices), mat)
  {
    FlattenValid(vertices, indices);
    if |indices| > 0 {
      var f := Flatten(indices);
      assert f[3..] == Flatten(indices[1..]);
      TriangulateIsMesh(vertices, indices[1..], mat);
    }
  }
}
