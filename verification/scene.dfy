/** The objects a ray is traced against — spheres, triangles, indexed
    meshes and BVH nodes — and the closest-hit scan that the hittable list,
    the indexed mesh and the BVH node share: query each object with the
    closest hit so far as the new `t_max`, and keep the last hit found. */
module Scene {
  import opened Options
  import opened Vectors
  import opened Materials
  import opened Hits
  import opened Boxes
  import opened Primitives

  /** A hittable object. `Node` is a `BVHNode`: two children and the box
      that was computed for them when the tree was built. */
  datatype Object =
    | SphereObj(center: Vec3, radius: real, mat: Material)
    | TriangleObj(v0: Vec3, v1: Vec3, v2: Vec3, mat: Material)
    | MeshObj(vertices: seq<Vec3>, indices: seq<nat>, mat: Material)
    | Node(left: Object, right: Object, bbox: Aabb)

  /** The primitives every other object is made of. */
  predicate IsLeaf(o: Object) {
    o.SphereObj? || o.TriangleObj?
  }

  function Height(o: Object): nat {
    match o
    case Node(l, r, _) => 1 + (if Height(l) < Height(r) then Height(r) else Height(l))
    case MeshObj(_, _, _) => 1
    case _ => 0
  }

  function MaxHeight(objs: seq<Object>): nat {
    if |objs| == 0 then 0
    else if Height(objs[0]) < MaxHeight(objs[1..]) then MaxHeight(objs[1..])
    else Height(objs[0])
  }

  /** The mesh reads only complete index triples, and every index in them
      must name a vertex (the source indexes `vertices` unchecked and
      panics otherwise). */
  predicate MeshIndicesValid(vertices: seq<Vec3>, indices: seq<nat>) {
    forall i :: 0 <= i < |indices| - |indices| % 3 ==> indices[i] < |vertices|
  }

  predicate Valid(o: Object) {
    match o
    case MeshObj(vs, ids, _) => MeshIndicesValid(vs, ids)
    case Node(l, r, _) => Valid(l) && Valid(r)
    case _ => true
  }

  /** The triangles `indexed_mesh_hit` visits: one per index triple at
      offsets 0, 3, 6, ..., stopping before an incomplete trailing triple. */
  function MeshTriangles(vertices: seq<Vec3>, indices: seq<nat>, mat: Material): (tris: seq<Object>)
    requires MeshIndicesValid(vertices, indices)
    ensures |tris| == |indices| / 3
    ensures forall k :: 0 <= k < |tris| ==> 3 * k + 2 < |indices| && indices[3 * k + 2] < |vertices|
    ensures forall k :: 0 <= k < |tris| ==>
      tris[k] == TriangleObj(vertices[indices[3 * k]], vertices[indices[3 * k + 1]], vertices[indices[3 * k + 2]], mat)
    decreases |indices|
  {
    if |indices| < 3 then []
    else
      assert MeshIndicesValid(vertices, indices[3..]) by {
        forall i | 0 <= i < |indices[3..]| - |indices[3..]| % 3
          ensures indices[3..][i] < |vertices|
        {
          assert indices[3..][i] == indices[i + 3];
        }
      }
      var rest := MeshTriangles(vertices, indices[3..], mat);
      var t := TriangleObj(vertices[indices[0]], vertices[indices[1]], vertices[indices[2]], mat);
      assert forall k :: 1 <= k < 1 + |rest| ==> ([t] + rest)[k] == rest[k - 1];
      [t] + rest
  }

  lemma TrianglesAreFlat(tris: seq<Object>)
    requires forall k :: 0 <= k < |tris| ==> tris[k].TriangleObj?
    ensures MaxHeight(tris) == 0
  {
    if |tris| > 0 {
      TrianglesAreFlat(tris[1..]);
    }
  }

  /** The `t_max` the next object is queried with: the closest hit so far,
      or the caller's `t_max` while nothing has been hit. */
  function Bound(acc: Option<HitRecord>, tmax: real): real {
    if acc.Some? then acc.value.t else tmax
  }

  /** `Hittable::hit` for each kind of object; `None` means `false`, with
      the caller's record left as it was. A node first tests its box with
      `rule` and, when the box is hit, queries the left child and then the
      right child with `t_max` narrowed to the left hit. */
  function Hit(o: Object, r: Ray, tmin: real, tmax: real, sqrt: real -> real, rule: SlabRule): (res: Option<HitRecord>)
    requires Valid(o)
    ensures res.Some? ==> tmin <= res.value.t <= tmax
    decreases Height(o), 2, 0
  {
    match o
    case SphereObj(c, rad, m) => SphereHit(c, rad, m, r, tmin, tmax, sqrt)
    case TriangleObj(a, b, c, m) => TriangleHit(a, b, c, m, r, tmin, tmax, sqrt)
    case MeshObj(vs, ids, m) =>
      var tris := MeshTriangles(vs, ids, m);
      TrianglesAreFlat(tris);
      Scan(tris, r, tmin, tmax, None, sqrt, rule)
    case Node(left, right, box) =>
      if !RenderHit(box, r, tmin, tmax, rule) then None
      else Step(right, r, tmin, tmax, Step(left, r, tmin, tmax, None, sqrt, rule), sqrt, rule)
  }

  /** One iteration of the closest-hit loop: query `o` on
      `[t_min, closest so far]`; a hit replaces the record so far. */
  function Step(o: Object, r: Ray, tmin: real, tmax: real, acc: Option<HitRecord>,
                sqrt: real -> real, rule: SlabRule): (res: Option<HitRecord>)
    requires Valid(o)
    ensures acc.Some? ==> res.Some? && res.value.t <= acc.value.t
    ensures res.Some? && res != acc ==> tmin <= res.value.t <= Bound(acc, tmax)
    decreases Height(o), 3, 0
  {
    var h := Hit(o, r, tmin, Bound(acc, tmax), sqrt, rule);
    if h.Some? then h else acc
  }

  /** The closest-hit loop over `objs`, starting from the record `acc`. */
  function Scan(objs: seq<Object>, r: Ray, tmin: real, tmax: real, acc: Option<HitRecord>,
                sqrt: real -> real, rule: SlabRule): (res: Option<HitRecord>)
    requires forall i :: 0 <= i < |objs| ==> Valid(objs[i])
    ensures acc.Some? ==> res.Some? && res.value.t <= acc.value.t
    ensures res.Some? && res != acc ==> tmin <= res.value.t <= Bound(acc, tmax)
    decreases MaxHeight(objs), 4, |objs|
  {
    if |objs| == 0 then acc
    else Scan(objs[1..], r, tmin, tmax, Step(objs[0], r, tmin, tmax, acc, sqrt, rule), sqrt, rule)
  }


  /** Some object of `objs` reports a hit on the full interval. */
  predicate SomeObjectHits(objs: seq<Object>, r: Ray, tmin: real, tmax: real, sqrt: real -> real, rule: SlabRule)
    requires forall i :: 0 <= i < |objs| ==> Valid(objs[i])
  {
    exists i :: 0 <= i < |objs| && Hit(objs[i], r, tmin, tmax, sqrt, rule).Some?
  }

  /** The loop ends with a record exactly when it started with one or
      some object reports a hit on the full interval: until the first hit
      every query uses `t_max` itself. */
  lemma {:induction false} ScanSomeIff(objs: seq<Object>, r: Ray, tmin: real, tmax: real,
                                       acc: Option<HitRecord>, sqrt: real -> real, rule: SlabRule)
    requires forall i :: 0 <= i < |objs| ==> Valid(objs[i])
    ensures Scan(objs, r, tmin, tmax, acc, sqrt, rule).Some?
        <==> acc.Some? || SomeObjectHits(objs, r, tmin, tmax, sqrt, rule)
    decreases |objs|
  {
    if |objs| > 0 && acc.None? {
      var next := Step(objs[0], r, tmin, tmax, acc, sqrt, rule);
      ScanSomeIff(objs[1..], r, tmin, tmax, next, sqrt, rule);
      if next.None? {
        if SomeObjectHits(objs, r, tmin, tmax, sqrt, rule) {
          var i :| 0 <= i < |objs| && Hit(objs[i], r, tmin, tmax, sqrt, rule).Some?;
          assert objs[1..][i - 1] == objs[i];
        }
      }
    }
  }

  /** `HittableList::hit`: true exactly when some object reports a hit
      within `[t_min, t_max]`, and then a hit within that interval. */
  function ListHit(objs: seq<Object>, r: Ray, tmin: real, tmax: real, sqrt: real -> real, rule: SlabRule): (res: Option<HitRecord>)
    requires forall i :: 0 <= i < |objs| ==> Valid(objs[i])
    ensures res.Some? ==> tmin <= res.value.t <= tmax
    ensures res.Some? <==> SomeObjectHits(objs, r, tmin, tmax, sqrt, rule)
  {
    ScanSomeIff(objs, r, tmin, tmax, None, sqrt, rule);
    Scan(objs, r, tmin, tmax, None, sqrt, rule)
  }

  /** `HittableList::add`. */
  function Add(objs: seq<Object>, o: Object): seq<Object> {
    objs + [o]
  }

  /** Scanning one more object continues the scan of the others. */
  lemma {:induction false} ScanAppend(objs: seq<Object>, o: Object, r: Ray, tmin: real, tmax: real,
                                      acc: Option<HitRecord>, sqrt: real -> real, rule: SlabRule)
    requires forall i :: 0 <= i < |objs| ==> Valid(objs[i])
    requires Valid(o)
    ensures forall i :: 0 <= i < |objs + [o]| ==> Valid((objs + [o])[i])
    ensures Scan(objs + [o], r, tmin, tmax, acc, sqrt, rule)
         == Step(o, r, tmin, tmax, Scan(objs, r, tmin, tmax, acc, sqrt, rule), sqrt, rule)
    decreases |objs|
  {
    assert forall i :: 0 <= i < |objs + [o]| ==> Valid((objs + [o])[i]);
    if |objs| == 0 {
      assert (objs + [o])[1..] == [];
    } else {
      assert (objs + [o])[1..] == objs[1..] + [o];
      ScanAppend(objs[1..], o, r, tmin, tmax, Step(objs[0], r, tmin, tmax, acc, sqrt, rule), sqrt, rule);
    }
  }

  /** After `add(o)` the list's answer is its old answer refined by one more
      query of `o`; the objects already present keep their order. */
  lemma ListHitAdd(objs: seq<Object>, o: Object, r: Ray, tmin: real, tmax: real, sqrt: real -> real, rule: SlabRule)
    requires forall i :: 0 <= i < |objs| ==> Valid(objs[i])
    requires Valid(o)
    ensures Add(objs, o)[..|objs|] == objs && Add(objs, o)[|objs|] == o
    ensures forall i :: 0 <= i < |Add(objs, o)| ==> Valid(Add(objs, o)[i])
    ensures ListHit(Add(objs, o), r, tmin, tmax, sqrt, rule)
         == Step(o, r, tmin, tmax, ListHit(objs, r, tmin, tmax, sqrt, rule), sqrt, rule)
  {
    ScanAppend(objs, o, r, tmin, tmax, None, sqrt, rule);
  }

  /** The hittable list's loop: `closest_so_far` starts at `t_max` and only
      decreases, `hit_anything` records whether any object was hit, and `rec`
      is overwritten by each hit; an empty scan leaves `rec` unchanged. */
  method ClosestHit(objs: seq<Object>, r: Ray, tmin: real, tmax: real, sqrt: real -> real, rule: SlabRule,
                    rec0: HitRecord) returns (hitAnything: bool, rec: HitRecord)
    requires forall i :: 0 <= i < |objs| ==> Valid(objs[i])
    ensures hitAnything <==> ListHit(objs, r, tmin, tmax, sqrt, rule).Some?
    ensures rec == ListHit(objs, r, tmin, tmax, sqrt, rule).UnwrapOr(rec0)
    ensures hitAnything <==> exists i :: 0 <= i < |objs| && Hit(objs[i], r, tmin, tmax, sqrt, rule).Some?
  {
    hitAnything, rec := false, rec0;
    var closest := tmax;
    for i := 0 to |objs|
      invariant closest <= tmax
      invariant hitAnything ==> closest == rec.t
      invariant !hitAnything ==> closest == tmax && rec == rec0
      invariant ListHit(objs, r, tmin, tmax, sqrt, rule)
             == Scan(objs[i..], r, tmin, tmax, if hitAnything then Some(rec) else None, sqrt, rule)
    {
      var acc := if hitAnything then Some(rec) else None;
      assert objs[i..][1..] == objs[i + 1..];
      var h := Hit(objs[i], r, tmin, closest, sqrt, rule);
      if h.Some? {
        hitAnything, closest, rec := true, h.value.t, h.value;
      }
    }
  }

  // ---------------------------------------------------------------------
  // Leaves and the nearest hit

  /** The primitives an object is made of, left to right. */
  function Leaves(o: Object): (ls: seq<Object>)
    requires Valid(o)
    ensures forall i :: 0 <= i < |ls| ==> IsLeaf(ls[i])
  {
    match o
    case SphereObj(_, _, _) => [o]
    case TriangleObj(_, _, _, _) => [o]
    case MeshObj(vs, ids, m) => MeshTriangles(vs, ids, m)
    case Node(l, r, _) => Leaves(l) + Leaves(r)
  }

  function AllLeaves(objs: seq<Object>): (ls: seq<Object>)
    requires forall i :: 0 <= i < |objs| ==> Valid(objs[i])
    ensures forall i :: 0 <= i < |ls| ==> IsLeaf(ls[i])
  {
    if |objs| == 0 then [] else Leaves(objs[0]) + AllLeaves(objs[1..])
  }

  /** The hit of one primitive on its own. */
  function LeafHit(l: Object, r: Ray, tmin: real, tmax: real, sqrt: real -> real): (res: Option<HitRecord>)
    requires IsLeaf(l)
    ensures res.Some? ==> tmin <= res.value.t <= tmax && res.value.p == At(r, res.value.t)
  {
    match l
    case SphereObj(c, rad, m) => SphereHit(c, rad, m, r, tmin, tmax, sqrt)
    case TriangleObj(a, b, c, m) => TriangleHit(a, b, c, m, r, tmin, tmax, sqrt)
  }

  /** The hit of each primitive on its own, in order. */
  function LeafHits(leaves: seq<Object>, r: Ray, tmin: real, tmax: real, sqrt: real -> real): (hs: seq<Option<HitRecord>>)
    requires forall i :: 0 <= i < |leaves| ==> IsLeaf(leaves[i])
    ensures |hs| == |leaves|
    ensures forall i :: 0 <= i < |hs| ==> hs[i] == LeafHit(leaves[i], r, tmin, tmax, sqrt)
  {
    seq(|leaves|, i requires 0 <= i < |leaves| => LeafHit(leaves[i], r, tmin, tmax, sqrt))
  }

  lemma LeafHitsAppend(p: seq<Object>, q: seq<Object>, r: Ray, tmin: real, tmax: real, sqrt: real -> real)
    requires forall i :: 0 <= i < |p| ==> IsLeaf(p[i])
    requires forall i :: 0 <= i < |q| ==> IsLeaf(q[i])
    ensures forall i :: 0 <= i < |p + q| ==> IsLeaf((p + q)[i])
    ensures LeafHits(p + q, r, tmin, tmax, sqrt) == LeafHits(p, r, tmin, tmax, sqrt) + LeafHits(q, r, tmin, tmax, sqrt)
  {
    assert forall i :: 0 <= i < |p + q| ==> (p + q)[i] == if i < |p| then p[i] else q[i - |p|];
  }

  /** `res` is a closest hit among the hits `hs`: it is `None` exactly when
      every one is `None`, and otherwise it is one of them and no hit in
      `hs` is nearer. */
  predicate Nearest(res: Option<HitRecord>, hs: seq<Option<HitRecord>>) {
    && (res.None? <==> forall h :: h in hs ==> h.None?)
    && (res.Some? ==> res in hs)
    && (res.Some? ==> forall h :: h in hs && h.Some? ==> res.value.t <= h.value.t)
  }

  /** A closest hit among the primitives `leaves` on `[t_min, t_max]`. */
  ghost predicate IsNearest(res: Option<HitRecord>, leaves: seq<Object>, r: Ray, tmin: real, tmax: real,
                            sqrt: real -> real)
    requires forall i :: 0 <= i < |leaves| ==> IsLeaf(leaves[i])
  {
    Nearest(res, LeafHits(leaves, r, tmin, tmax, sqrt))
  }

  /** One step of a closest-hit loop on abstract hits. `acc` is closest
      among `hp`; `h` is closest among `hc`, which are the hits `hq` seen
      through the narrowed bound `c` (a narrowed hit is the full hit, a full
      hit below `c` survives narrowing, and `c` is the distance of `acc`, or
      no narrowing at all when `acc` is `None`). Keeping `h` when it exists
      and `acc` otherwise is closest among `hp + hq`. */
  lemma NearestCombine(acc: Option<HitRecord>, h: Option<HitRecord>, hp: seq<Option<HitRecord>>,
                       hq: seq<Option<HitRecord>>, hc: seq<Option<HitRecord>>, c: real)
    requires Nearest(acc, hp) && Nearest(h, hc) && |hc| == |hq|
    requires acc.Some? ==> c == acc.value.t
    requires acc.None? ==> hc == hq
    requires forall j :: 0 <= j < |hc| && hc[j].Some? ==> hc[j] == hq[j] && hc[j].value.t <= c
    requires forall j :: 0 <= j < |hq| && hq[j].Some? && hq[j].value.t < c ==> hc[j] == hq[j]
    ensures Nearest(if h.Some? then h else acc, hp + hq)
  {
    var all := hp + hq;
    var res := if h.Some? then h else acc;
    assert forall k :: 0 <= k < |all| ==> all[k] == if k < |hp| then hp[k] else hq[k - |hp|];
    if h.Some? {
      var j :| 0 <= j < |hc| && hc[j] == h;
      assert all[|hp| + j] == h;
    } else if acc.Some? {
      var i :| 0 <= i < |hp| && hp[i] == acc;
      assert all[i] == acc;
    }
    forall k | 0 <= k < |all| && all[k].Some? && res.Some?
      ensures res.value.t <= all[k].value.t
    {
      if k < |hp| {
        assert hp[k] in hp;
        if h.Some? {
          var j :| 0 <= j < |hc| && hc[j] == h;
        }
      } else {
        var j := k - |hp|;
        assert hq[j] == all[k];
        if acc.None? || hq[j].value.t < c {
          assert hc[j] in hc;
        }
      }
    }
    forall k | 0 <= k < |all| && res.None?
      ensures all[k].None?
    {
      if k >= |hp| {
        assert hc[k - |hp|] in hc;
      } else {
        assert hp[k] in hp;
      }
    }
  }

  /** A primitive's hit on a narrowed interval `[t_min, c]` is its hit on
      `[t_min, t_max]` whenever either lies below `c`. */
  lemma LeafRestrict(l: Object, r: Ray, tmin: real, tmax: real, c: real, sqrt: real -> real)
    requires IsLeaf(l) && IsSqrt(sqrt) && c <= tmax
    ensures LeafHit(l, r, tmin, c, sqrt).Some? ==> LeafHit(l, r, tmin, c, sqrt) == LeafHit(l, r, tmin, tmax, sqrt)
    ensures LeafHit(l, r, tmin, tmax, sqrt).Some? && LeafHit(l, r, tmin, tmax, sqrt).value.t < c ==>
      LeafHit(l, r, tmin, c, sqrt) == LeafHit(l, r, tmin, tmax, sqrt)
  {
    match l
    case SphereObj(ce, rad, m) => SphereHitRestrict(ce, rad, m, r, tmin, tmax, c, sqrt);
    case TriangleObj(a, b, cc, m) => TriangleHitRestrict(a, b, cc, m, r, tmin, tmax, c, sqrt);
  }

  /** The heart of every closest-hit loop: if `acc` is nearest among the
      leaves `p` on `[t_min, t_max]`, and `h` is nearest among the leaves `q`
      on `[t_min, closest so far]`, then keeping `h` when it exists and `acc`
      otherwise is nearest among `p + q` on `[t_min, t_max]`. */
  lemma NearestStep(acc: Option<HitRecord>, h: Option<HitRecord>, p: seq<Object>, q: seq<Object>,
                    r: Ray, tmin: real, tmax: real, sqrt: real -> real)
    requires IsSqrt(sqrt)
    requires forall i :: 0 <= i < |p| ==> IsLeaf(p[i])
    requires forall i :: 0 <= i < |q| ==> IsLeaf(q[i])
    requires IsNearest(acc, p, r, tmin, tmax, sqrt)
    requires IsNearest(h, q, r, tmin, Bound(acc, tmax), sqrt)
    ensures forall i :: 0 <= i < |p + q| ==> IsLeaf((p + q)[i])
    ensures IsNearest(if h.Some? then h else acc, p + q, r, tmin, tmax, sqrt)
  {
    var c := Bound(acc, tmax);
    var hp := LeafHits(p, r, tmin, tmax, sqrt);
    var hq := LeafHits(q, r, tmin, tmax, sqrt);
    var hc := LeafHits(q, r, tmin, c, sqrt);
    if acc.Some? {
      var i :| 0 <= i < |hp| && hp[i] == acc;
      assert c <= tmax;
    }
    forall j | 0 <= j < |q|
      ensures hc[j].Some? ==> hc[j] == hq[j] && hc[j].value.t <= c
      ensures hq[j].Some? && hq[j].value.t < c ==> hc[j] == hq[j]
    {
      LeafRestrict(q[j], r, tmin, tmax, c, sqrt);
    }
    NearestCombine(acc, h, hp, hq, hc, c);
    LeafHitsAppend(p, q, r, tmin, tmax, sqrt);
  }

  /** Nothing is nearest among no leaves. */
  lemma NearestEmpty(r: Ray, tmin: real, tmax: real, sqrt: real -> real)
    ensures IsNearest(None, [], r, tmin, tmax, sqrt)
  {}

  /** A primitive's own hit is the nearest among itself. */
  lemma NearestLeaf(l: Object, r: Ray, tmin: real, tmax: real, sqrt: real -> real)
    requires IsLeaf(l)
    ensures IsNearest(LeafHit(l, r, tmin, tmax, sqrt), [l], r, tmin, tmax, sqrt)
  {
    var hs := LeafHits([l], r, tmin, tmax, sqrt);
    assert hs[0] == LeafHit(l, r, tmin, tmax, sqrt);
  }
  // ---------------------------------------------------------------------
  // Boxes

  /** The box `bounding_box` reports: the cube around a sphere, the
      `triangle_aabb` of a triangle, nothing for a mesh, and the stored box
      of a node. */
  function BoundingBox(o: Object): Option<Aabb> {
    match o
    case SphereObj(c, rad, _) => Some(SphereBox(c, rad))
    case TriangleObj(a, b, c, _) => Some(TriangleAabb(a, b, c))
    case MeshObj(_, _, _) => None
    case Node(_, _, box) => Some(box)
  }

  /** `o` has a box inside `b`, and a sphere's radius is not negative (a
      negative radius turns the sphere's box inside out). */
  predicate BoxedIn(o: Object, b: Aabb) {
    BoundingBox(o).Some? && Contains(b, BoundingBox(o).value) && (o.SphereObj? ==> o.radius >= 0.0)
  }

  /** Every node's box holds both children's boxes, all the way down. */
  predicate WellBoxed(o: Object) {
    match o
    case Node(l, r, b) => BoxedIn(l, b) && BoxedIn(r, b) && WellBoxed(l) && WellBoxed(r)
    case _ => true
  }

  /** In a well-boxed object with a box, every primitive's hit point lies in
      that box. */
  lemma LeafHitsInBox(o: Object, r: Ray, tmin: real, tmax: real, sqrt: real -> real, i: int)
    requires IsSqrt(sqrt) && Valid(o) && WellBoxed(o) && BoxedIn(o, BoundingBox(o).UnwrapOr(Aabb(Zero, Zero)))
    requires 0 <= i < |Leaves(o)| && LeafHit(Leaves(o)[i], r, tmin, tmax, sqrt).Some?
    ensures Inside(LeafHit(Leaves(o)[i], r, tmin, tmax, sqrt).value.p, BoundingBox(o).value)
  {
    match o
    case SphereObj(c, rad, m) =>
      SphereHitInBox(c, rad, m, r, tmin, tmax, sqrt);
    case TriangleObj(a, b, c, m) =>
      TriangleHitOnTriangle(a, b, c, m, r, tmin, tmax, sqrt);
    case Node(l, rt, box) =>
      var nl := |Leaves(l)|;
      if i < nl {
        assert Leaves(o)[i] == Leaves(l)[i];
        LeafHitsInBox(l, r, tmin, tmax, sqrt, i);
        InsideContained(LeafHit(Leaves(l)[i], r, tmin, tmax, sqrt).value.p, BoundingBox(l).value, box);
      } else {
        assert Leaves(o)[i] == Leaves(rt)[i - nl];
        LeafHitsInBox(rt, r, tmin, tmax, sqrt, i - nl);
        InsideContained(LeafHit(Leaves(rt)[i - nl], r, tmin, tmax, sqrt).value.p, BoundingBox(rt).value, box);
      }
  }

  // ---------------------------------------------------------------------
  // The closest-hit theorem

  /** An object's hit is a primitive's hit: for a primitive, its own. */
  lemma HitOfLeaf(l: Object, r: Ray, tmin: real, tmax: real, sqrt: real -> real, rule: SlabRule)
    requires IsLeaf(l)
    ensures Hit(l, r, tmin, tmax, sqrt, rule) == LeafHit(l, r, tmin, tmax, sqrt)
  {}

  /** Under the closed slab rule, the hit of a valid, well-boxed object is
      a nearest hit among its primitives: the node's box test never culls a
      primitive hit, and the narrowing `t_max` never loses a nearer one. */
  lemma {:induction false} ObjectNearest(o: Object, r: Ray, tmin: real, tmax: real, sqrt: real -> real)
    requires IsSqrt(sqrt) && Valid(o) && WellBoxed(o)
    ensures IsNearest(Hit(o, r, tmin, tmax, sqrt, Closed), Leaves(o), r, tmin, tmax, sqrt)
    decreases Height(o), 1, 0
  {
    match o
    case SphereObj(_, _, _) =>
      NearestLeaf(o, r, tmin, tmax, sqrt);
    case TriangleObj(_, _, _, _) =>
      NearestLeaf(o, r, tmin, tmax, sqrt);
    case MeshObj(vs, ids, m) =>
      var tris := MeshTriangles(vs, ids, m);
      TrianglesAreFlat(tris);
      ScanNearest(tris, [], None, r, tmin, tmax, sqrt);
      assert [] + AllLeaves(tris) == tris by {
        TrianglesAreOwnLeaves(tris);
      }
    case Node(l, rt, box) =>
      var ls := Leaves(o);
      if !RenderHit(box, r, tmin, tmax, Closed) {
        forall i | 0 <= i < |ls|
          ensures LeafHit(ls[i], r, tmin, tmax, sqrt).None?
        {
          if LeafHit(ls[i], r, tmin, tmax, sqrt).Some? {
            var h := LeafHit(ls[i], r, tmin, tmax, sqrt).value;
            LeafHitsInBox(o, r, tmin, tmax, sqrt, i);
            HitWhenInside(box, r, tmin, tmax, h.t);
          }
        }
      } else {
        NearestEmpty(r, tmin, tmax, sqrt);
        var acc1 := Step(l, r, tmin, tmax, None, sqrt, Closed);
        ObjectNearest(l, r, tmin, tmax, sqrt);
        NearestStep(None, Hit(l, r, tmin, tmax, sqrt, Closed), [], Leaves(l), r, tmin, tmax, sqrt);
        assert [] + Leaves(l) == Leaves(l);
        ObjectNearest(rt, r, tmin, Bound(acc1, tmax), sqrt);
        NearestStep(acc1, Hit(rt, r, tmin, Bound(acc1, tmax), sqrt, Closed), Leaves(l), Leaves(rt),
                    r, tmin, tmax, sqrt);
      }
  }

  /** Each triangle of a mesh is its own only primitive. */
  lemma {:induction false} TrianglesAreOwnLeaves(tris: seq<Object>)
    requires forall k :: 0 <= k < |tris| ==> tris[k].TriangleObj?
    ensures AllLeaves(tris) == tris
  {
    if |tris| > 0 {
      TrianglesAreOwnLeaves(tris[1..]);
      assert tris == [tris[0]] + tris[1..];
    }
  }

  /** Scanning well-boxed objects after a nearest record among `p` gives a
      nearest record among `p` followed by every primitive of the objects. */
  lemma {:induction false} ScanNearest(objs: seq<Object>, p: seq<Object>, acc: Option<HitRecord>,
                                       r: Ray, tmin: real, tmax: real, sqrt: real -> real)
    requires IsSqrt(sqrt)
    requires forall i :: 0 <= i < |objs| ==> Valid(objs[i]) && WellBoxed(objs[i])
    requires forall i :: 0 <= i < |p| ==> IsLeaf(p[i])
    requires IsNearest(acc, p, r, tmin, tmax, sqrt)
    ensures forall i :: 0 <= i < |p + AllLeaves(objs)| ==> IsLeaf((p + AllLeaves(objs))[i])
    ensures IsNearest(Scan(objs, r, tmin, tmax, acc, sqrt, Closed), p + AllLeaves(objs), r, tmin, tmax, sqrt)
    decreases MaxHeight(objs), 2, |objs|
  {
    var pl := p + AllLeaves(objs);
    assert forall i :: 0 <= i < |pl| ==> IsLeaf(pl[i]);
    if |objs| == 0 {
      assert pl == p;
    } else {
      var o := objs[0];
      var acc1 := Step(o, r, tmin, tmax, acc, sqrt, Closed);
      var p1 := p + Leaves(o);
      assert forall i :: 0 <= i < |p1| ==> IsLeaf(p1[i]);
      assert IsNearest(acc1, p1, r, tmin, tmax, sqrt) by {
        var c := Bound(acc, tmax);
        ObjectNearest(o, r, tmin, c, sqrt);
        NearestStep(acc, Hit(o, r, tmin, c, sqrt, Closed), p, Leaves(o), r, tmin, tmax, sqrt);
      }
      assert Scan(objs, r, tmin, tmax, acc, sqrt, Closed) == Scan(objs[1..], r, tmin, tmax, acc1, sqrt, Closed);
      ScanNearest(objs[1..], p1, acc1, r, tmin, tmax, sqrt);
      LeavesSplit(objs, p);
    }
  }

  lemma LeavesSplit(objs: seq<Object>, p: seq<Object>)
    requires |objs| > 0 && forall i :: 0 <= i < |objs| ==> Valid(objs[i])
    ensures p + Leaves(objs[0]) + AllLeaves(objs[1..]) == p + AllLeaves(objs)
  {
    ConcatAssoc(p, Leaves(objs[0]), AllLeaves(objs[1..]), AllLeaves(objs));
  }

  lemma ConcatAssoc(p: seq<Object>, a: seq<Object>, b: seq<Object>, c: seq<Object>)
    requires c == a + b
    ensures p + a + b == p + c
  {}

  /** `HittableList::hit` returns a nearest hit among all primitives of all
      its objects under the closed slab rule: `false` exactly when no
      primitive is hit on `[t_min, t_max]`, and otherwise a primitive's own
      record with no primitive hit nearer. */
  lemma ListNearest(objs: seq<Object>, r: Ray, tmin: real, tmax: real, sqrt: real -> real)
    requires IsSqrt(sqrt)
    requires forall i :: 0 <= i < |objs| ==> Valid(objs[i]) && WellBoxed(objs[i])
    ensures IsNearest(ListHit(objs, r, tmin, tmax, sqrt, Closed), AllLeaves(objs), r, tmin, tmax, sqrt)
  {
    NearestEmpty(r, tmin, tmax, sqrt);
    ScanNearest(objs, [], None, r, tmin, tmax, sqrt);
    assert [] + AllLeaves(objs) == AllLeaves(objs);
  }

  /** Closest hits among two collections holding the same hits agree on
      whether there is a hit and on its distance. */
  lemma NearestSame(x: Option<HitRecord>, y: Option<HitRecord>, hx: seq<Option<HitRecord>>, hy: seq<Option<HitRecord>>)
    requires forall h :: h in hx <==> h in hy
    requires Nearest(x, hx) && Nearest(y, hy)
    ensures x.None? <==> y.None?
    ensures x.Some? ==> y.Some? && x.value.t == y.value.t
  {}

  /** Nearest hits over the same primitives, in any order, agree on
      whether there is a hit and on its distance, and each is the hit of
      one of the other collection's primitives. */
  lemma NearestAgree(x: Option<HitRecord>, y: Option<HitRecord>, lx: seq<Object>, ly: seq<Object>,
                     r: Ray, tmin: real, tmax: real, sqrt: real -> real)
    requires forall i :: 0 <= i < |lx| ==> IsLeaf(lx[i])
    requires forall i :: 0 <= i < |ly| ==> IsLeaf(ly[i])
    requires multiset(lx) == multiset(ly)
    requires IsNearest(x, lx, r, tmin, tmax, sqrt) && IsNearest(y, ly, r, tmin, tmax, sqrt)
    ensures x.None? <==> y.None?
    ensures x.Some? ==> y.Some? && x.value.t == y.value.t
    ensures x.Some? ==> x in LeafHits(ly, r, tmin, tmax, sqrt)
  {
    var hx := LeafHits(lx, r, tmin, tmax, sqrt);
    var hy := LeafHits(ly, r, tmin, tmax, sqrt);
    forall h | h in hx
      ensures h in hy
    {
      var i :| 0 <= i < |hx| && hx[i] == h;
      assert lx[i] in multiset(ly);
      var j :| 0 <= j < |ly| && ly[j] == lx[i];
      assert hy[j] == h;
    }
    forall h | h in hy
      ensures h in hx
    {
      var j :| 0 <= j < |hy| && hy[j] == h;
      assert ly[j] in multiset(lx);
      var i :| 0 <= i < |lx| && lx[i] == ly[j];
      assert hx[i] == h;
    }
    NearestSame(x, y, hx, hy);
  }
}
