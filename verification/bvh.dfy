/** `BVHNode::build`: sort the objects by the minimum corner of their boxes
    on a randomly chosen axis, then split them in half and recurse. Under
    the closed slab rule the tree answers every ray as the flat list of its
    objects does; under the source's rule it loses every axis-aligned
    flat group of objects. */
module Bvh {
  import opened Options
  import opened Vectors
  import opened Materials
  import opened Hits
  import opened Boxes
  import opened Primitives
  import opened Scene
  import opened FloorHit

  predicate HasBox(o: Object) {
    BoundingBox(o).Some?
  }

  predicate AllHaveBoxes(objs: seq<Object>) {
    forall i :: 0 <= i < |objs| ==> HasBox(objs[i])
  }

  /** The sort key of `compare_x`/`compare_y`/`compare_z`: the minimum
      corner of the box on the axis (only objects with a box are sorted). */
  function Key(o: Object, a: Axis): real {
    if HasBox(o) then Get(BoundingBox(o).value.minimum, a) else 0.0
  }

  /** The comparator of `sort_by` says `x` does not come after `y` exactly
      when the key of `x` is not above the key of `y`. */
  lemma CompareKey(x: Object, y: Object, a: Axis)
    requires HasBox(x) && HasBox(y)
    ensures CompareAxis(a, BoundingBox(x).value, BoundingBox(y).value) != Greater <==> Key(x, a) <= Key(y, a)
  {}

  /** The axis `rand::random_range(0..3)` picks: 0 is `x`, 1 is `y`,
      anything else `z`. */
  function AxisOf(k: int): Axis {
    if k == 0 then X else if k == 1 then Y else Z
  }

  predicate Sorted(objs: seq<Object>, key: Object -> real) {
    forall i, j :: 0 <= i < j < |objs| ==> key(objs[i]) <= key(objs[j])
  }

  /** Place `x` in the sorted `s`, before the first element whose key is
      not below its own, so that `x` stays ahead of every element of equal
      key. */
  function Insert(x: Object, s: seq<Object>, key: Object -> real): (res: seq<Object>)
    ensures multiset(res) == multiset(s) + multiset{x}
    ensures |res| == |s| + 1
    ensures res[0] == x || (|s| > 0 && res[0] == s[0])
  {
    if |s| == 0 || key(x) <= key(s[0]) then
      [x] + s
    else
      var rest := Insert(x, s[1..], key);
      assert s == [s[0]] + s[1..];
      [s[0]] + rest
  }

  /** Inserting into a sorted sequence keeps it sorted. */
  lemma {:induction false} InsertSorted(x: Object, s: seq<Object>, key: Object -> real)
    requires Sorted(s, key)
    ensures Sorted(Insert(x, s, key), key)
  {
    if |s| == 0 || key(x) <= key(s[0]) {
      assert Insert(x, s, key) == [x] + s;
    } else {
      var rest := Insert(x, s[1..], key);
      InsertSorted(x, s[1..], key);
      assert key(s[0]) <= key(rest[0]);
      assert Insert(x, s, key) == [s[0]] + rest;
    }
  }

  /** `objects.sort_by(comparator)`: a permutation of the objects in key
      order. The sort is stable, as Rust's is, and a stable sort has one
      possible result. */
  function SortBy(objs: seq<Object>, key: Object -> real): (res: seq<Object>)
    ensures multiset(res) == multiset(objs)
    ensures |res| == |objs|
    ensures Sorted(res, key)
  {
    if |objs| == 0 then []
    else
      assert objs == [objs[0]] + objs[1..];
      InsertSorted(objs[0], SortBy(objs[1..], key), key);
      Insert(objs[0], SortBy(objs[1..], key), key)
  }

  /** The key of the comparator drawn for the axis. */
  function AxisKey(a: Axis): Object -> real {
    o => Key(o, a)
  }

  /** A node over two objects that have boxes, with the `surrounding_box`
      of their boxes. */
  function Join(left: Object, right: Object): (n: Object)
    requires HasBox(left) && HasBox(right)
    ensures n.Node? && n.left == left && n.right == right
  {
    Node(left, right, SurroundingBox(BoundingBox(left).value, BoundingBox(right).value))
  }

  /** The node over a pair is boxed by the union of the two boxes, which
      holds both children's boxes (and, by `SurroundingBoxLeast`, lies
      inside every box that does). */
  lemma JoinBox(left: Object, right: Object)
    requires HasBox(left) && HasBox(right)
    ensures Join(left, right).bbox == SurroundingBox(BoundingBox(left).value, BoundingBox(right).value)
    ensures Contains(Join(left, right).bbox, BoundingBox(left).value)
    ensures Contains(Join(left, right).bbox, BoundingBox(right).value)
  {}

  /** `BVHNode::build`. `choose(path)` stands for the random draw made at
      the call reached by `path` (`false` for a left half, `true` for a
      right half). One object is returned as it is; two become a node
      over the sorted pair; more are split at `len / 2`. The source calls
      `bounding_box().unwrap()` while sorting two or more objects, and
      recurses forever on none. */
  function Build(objs: seq<Object>, choose: seq<bool> -> int, path: seq<bool>): (o: Object)
    requires |objs| >= 1
    requires |objs| >= 2 ==> AllHaveBoxes(objs)
    ensures |objs| == 1 ==> o == objs[0]
    ensures |objs| >= 2 ==> o.Node?
    ensures AllHaveBoxes(objs) ==> HasBox(o)
    decreases |objs|
  {
    if |objs| == 1 then objs[0]
    else
      var key := AxisKey(AxisOf(choose(path)));
      var sorted := SortBy(objs, key);
      var mid := |objs| / 2;
      SortedBoxes(objs, key, mid);
      if |objs| == 2 then Join(sorted[0], sorted[1])
      else
        Join(Build(sorted[..mid], choose, path + [false]), Build(sorted[mid..], choose, path + [true]))
  }

  // ---------------------------------------------------------------------
  // What the tree holds

  /** Every element of `sub` is one of `objs`. */
  predicate MembersOf(sub: seq<Object>, objs: seq<Object>) {
    forall i :: 0 <= i < |sub| ==> sub[i] in objs
  }

  /** A property of every object carries over to any selection of them. */
  lemma MembersKeep(sub: seq<Object>, objs: seq<Object>, P: Object -> bool)
    requires MembersOf(sub, objs) && forall i :: 0 <= i < |objs| ==> P(objs[i])
    ensures forall i :: 0 <= i < |sub| ==> P(sub[i])
  {
    forall i | 0 <= i < |sub|
      ensures P(sub[i])
    {
      var j :| 0 <= j < |objs| && objs[j] == sub[i];
    }
  }

  /** A permutation draws its elements from the original. */
  lemma PermutationMembers(s: seq<Object>, objs: seq<Object>)
    requires multiset(s) == multiset(objs)
    ensures MembersOf(s, objs)
  {
    forall i | 0 <= i < |s|
      ensures s[i] in objs
    {
      assert s[i] in multiset(s);
    }
  }

  /** Both halves of a selection are selections. */
  lemma HalvesMembers(s: seq<Object>, objs: seq<Object>, mid: int)
    requires 0 <= mid <= |s| && MembersOf(s, objs)
    ensures MembersOf(s[..mid], objs) && MembersOf(s[mid..], objs)
  {
    forall i | 0 <= i < mid
      ensures s[..mid][i] in objs
    {
      assert s[..mid][i] == s[i];
    }
    forall i | 0 <= i < |s| - mid
      ensures s[mid..][i] in objs
    {
      assert s[mid..][i] == s[mid + i];
    }
  }

  /** The sorted objects, and both halves of them, are drawn from the
      originals. */
  lemma SortedHalves(objs: seq<Object>, key: Object -> real, mid: int)
    requires 0 <= mid <= |objs|
    ensures MembersOf(SortBy(objs, key), objs)
    ensures MembersOf(SortBy(objs, key)[..mid], objs)
    ensures MembersOf(SortBy(objs, key)[mid..], objs)
  {
    PermutationMembers(SortBy(objs, key), objs);
    HalvesMembers(SortBy(objs, key), objs, mid);
  }

  /** Sorting keeps every object boxed, in both halves. */
  lemma SortedBoxes(objs: seq<Object>, key: Object -> real, mid: int)
    requires 0 <= mid <= |objs|
    ensures AllHaveBoxes(objs) ==> AllHaveBoxes(SortBy(objs, key))
    ensures AllHaveBoxes(objs) ==> AllHaveBoxes(SortBy(objs, key)[..mid])
    ensures AllHaveBoxes(objs) ==> AllHaveBoxes(SortBy(objs, key)[mid..])
  {
    SortedHalves(objs, key, mid);
    if AllHaveBoxes(objs) {
      MembersKeep(SortBy(objs, key), objs, HasBox);
      MembersKeep(SortBy(objs, key)[..mid], objs, HasBox);
      MembersKeep(SortBy(objs, key)[mid..], objs, HasBox);
    }
  }

  /** The tree of valid objects is valid. */
  lemma {:induction false} BuildValid(objs: seq<Object>, choose: seq<bool> -> int, path: seq<bool>)
    requires |objs| >= 1
    requires |objs| >= 2 ==> AllHaveBoxes(objs)
    requires forall i :: 0 <= i < |objs| ==> Valid(objs[i])
    ensures Valid(Build(objs, choose, path))
    decreases |objs|
  {
    if |objs| >= 2 {
      var key := AxisKey(AxisOf(choose(path)));
      var sorted := SortBy(objs, key);
      var mid := |objs| / 2;
      SortedHalves(objs, key, mid);
      MembersKeep(sorted, objs, Valid);
      if |objs| > 2 {
        MembersKeep(sorted[..mid], objs, Valid);
        MembersKeep(sorted[mid..], objs, Valid);
        BuildValid(sorted[..mid], choose, path + [false]);
        BuildValid(sorted[mid..], choose, path + [true]);
      }
    }
  }

  /** A sphere, if `o` is one, has a radius that is not negative. */
  predicate RadiusOk(o: Object) {
    o.SphereObj? ==> o.radius >= 0.0
  }

  /** Each node's stored box holds its children's boxes: `surrounding_box`
      of the two. */
  lemma {:induction false} BuildWellBoxed(objs: seq<Object>, choose: seq<bool> -> int, path: seq<bool>)
    requires |objs| >= 1
    requires |objs| >= 2 ==> AllHaveBoxes(objs)
    requires forall i :: 0 <= i < |objs| ==> WellBoxed(objs[i]) && RadiusOk(objs[i])
    ensures WellBoxed(Build(objs, choose, path)) && RadiusOk(Build(objs, choose, path))
    decreases |objs|
  {
    if |objs| >= 2 {
      var key := AxisKey(AxisOf(choose(path)));
      var sorted := SortBy(objs, key);
      var mid := |objs| / 2;
      SortedHalves(objs, key, mid);
      MembersKeep(sorted, objs, HasBox);
      MembersKeep(sorted, objs, WellBoxed);
      MembersKeep(sorted, objs, RadiusOk);
      if |objs| > 2 {
        var left, right := sorted[..mid], sorted[mid..];
        MembersKeep(left, objs, HasBox);
        MembersKeep(right, objs, HasBox);
        MembersKeep(left, objs, WellBoxed);
        MembersKeep(right, objs, WellBoxed);
        MembersKeep(left, objs, RadiusOk);
        MembersKeep(right, objs, RadiusOk);
        BuildWellBoxed(left, choose, path + [false]);
        BuildWellBoxed(right, choose, path + [true]);
      }
    }
  }

  // ---------------------------------------------------------------------
  // The tree holds the same primitives

  /** The concatenation of `f` over the objects, in order. */
  function Gather(objs: seq<Object>, f: Object -> seq<Object>): seq<Object> {
    if |objs| == 0 then [] else f(objs[0]) + Gather(objs[1..], f)
  }

  lemma {:induction false} GatherAppend(s: seq<Object>, t: seq<Object>, f: Object -> seq<Object>)
    ensures Gather(s + t, f) == Gather(s, f) + Gather(t, f)
    decreases |s|
  {
    if |s| == 0 {
      assert s + t == t;
    } else {
      assert (s + t)[0] == s[0] && (s + t)[1..] == s[1..] + t;
      GatherAppend(s[1..], t, f);
    }
  }

  lemma {:induction false} GatherInsert(x: Object, s: seq<Object>, key: Object -> real, f: Object -> seq<Object>)
    ensures multiset(Gather(Insert(x, s, key), f)) == multiset(f(x)) + multiset(Gather(s, f))
    decreases |s|
  {
    var res := Insert(x, s, key);
    if |s| == 0 || key(x) <= key(s[0]) {
      assert res[0] == x && res[1..] == s;
    } else {
      GatherInsert(x, s[1..], key, f);
      assert res[0] == s[0] && res[1..] == Insert(x, s[1..], key);
    }
  }

  /** Sorting permutes the objects, so the gathered sequence keeps its
      elements. */
  lemma {:induction false} GatherSort(objs: seq<Object>, key: Object -> real, f: Object -> seq<Object>)
    ensures multiset(Gather(SortBy(objs, key), f)) == multiset(Gather(objs, f))
    decreases |objs|
  {
    if |objs| > 0 {
      GatherSort(objs[1..], key, f);
      GatherInsert(objs[0], SortBy(objs[1..], key), key, f);
    }
  }

  /** The primitives of a valid object. */
  function LeavesOf(o: Object): seq<Object> {
    if Valid(o) then Leaves(o) else []
  }

  lemma {:induction false} AllLeavesGather(objs: seq<Object>)
    requires forall i :: 0 <= i < |objs| ==> Valid(objs[i])
    ensures AllLeaves(objs) == Gather(objs, LeavesOf)
    decreases |objs|
  {
    if |objs| > 0 {
      AllLeavesGather(objs[1..]);
    }
  }

  lemma JoinLeaves(l: Object, r: Object)
    requires HasBox(l) && HasBox(r) && Valid(l) && Valid(r)
    ensures LeavesOf(Join(l, r)) == LeavesOf(l) + LeavesOf(r)
  {}

  lemma GatherSingle(s: seq<Object>, f: Object -> seq<Object>)
    requires |s| == 1
    ensures Gather(s, f) == f(s[0])
  {
    assert s[1..] == [];
    assert f(s[0]) + [] == f(s[0]);
  }

  lemma GatherPair(s: seq<Object>, f: Object -> seq<Object>)
    requires |s| == 2
    ensures Gather(s, f) == f(s[0]) + f(s[1])
  {
    assert s[1..][0] == s[1] && s[1..][1..] == [];
    assert Gather(s[1..], f) == f(s[1]) + Gather(s[1..][1..], f);
    assert f(s[1]) + [] == f(s[1]);
  }

  /** A node over a pair holds the primitives of the pair. */
  lemma PairLeaves(s: seq<Object>)
    requires |s| == 2 && HasBox(s[0]) && HasBox(s[1]) && Valid(s[0]) && Valid(s[1])
    ensures multiset(LeavesOf(Join(s[0], s[1]))) == multiset(Gather(s, LeavesOf))
  {
    JoinLeaves(s[0], s[1]);
    GatherPair(s, LeavesOf);
  }

  /** A node over trees of two halves holds the primitives of both. */
  lemma HalvesLeaves(s: seq<Object>, mid: int, l: Object, r: Object)
    requires 0 <= mid <= |s|
    requires HasBox(l) && HasBox(r) && Valid(l) && Valid(r)
    requires multiset(LeavesOf(l)) == multiset(Gather(s[..mid], LeavesOf))
    requires multiset(LeavesOf(r)) == multiset(Gather(s[mid..], LeavesOf))
    ensures multiset(LeavesOf(Join(l, r))) == multiset(Gather(s, LeavesOf))
  {
    var a, b := s[..mid], s[mid..];
    assert s == a + b;
    GatherAppend(a, b, LeavesOf);
    JoinLeaves(l, r);
    var la, lb := LeavesOf(l), LeavesOf(r);
    assert multiset(la + lb) == multiset(la) + multiset(lb);
    var ga, gb := Gather(a, LeavesOf), Gather(b, LeavesOf);
    assert multiset(ga + gb) == multiset(ga) + multiset(gb);
  }

  /** The node built over two objects holds the primitives of both. */
  lemma BuildPairLeaves(objs: seq<Object>, choose: seq<bool> -> int, path: seq<bool>)
    requires |objs| == 2 && AllHaveBoxes(objs)
    requires forall i :: 0 <= i < |objs| ==> Valid(objs[i])
    ensures multiset(LeavesOf(Build(objs, choose, path))) == multiset(Gather(objs, LeavesOf))
  {
    var key := AxisKey(AxisOf(choose(path)));
    var sorted := SortBy(objs, key);
    SortedHalves(objs, key, 1);
    MembersKeep(sorted, objs, Valid);
    MembersKeep(sorted, objs, HasBox);
    GatherSort(objs, key, LeavesOf);
    PairLeaves(sorted);
  }

  /** Over more than two objects the tree is a node joining the trees of
      the two sorted halves. */
  lemma BuildNode(objs: seq<Object>, choose: seq<bool> -> int, path: seq<bool>)
    requires |objs| > 2 && AllHaveBoxes(objs)
    ensures var s := SortBy(objs, AxisKey(AxisOf(choose(path))));
      AllHaveBoxes(s[..|objs| / 2]) && AllHaveBoxes(s[|objs| / 2..]) &&
      Build(objs, choose, path) ==
        Join(Build(s[..|objs| / 2], choose, path + [false]), Build(s[|objs| / 2..], choose, path + [true]))
  {
    var s := SortBy(objs, AxisKey(AxisOf(choose(path))));
    SortedHalves(objs, AxisKey(AxisOf(choose(path))), |objs| / 2);
    MembersKeep(s[..|objs| / 2], objs, HasBox);
    MembersKeep(s[|objs| / 2..], objs, HasBox);
  }

  /** The tree's primitives are the list's, counted with multiplicity:
      building neither drops nor duplicates an object. */
  lemma {:induction false} BuildLeaves(objs: seq<Object>, choose: seq<bool> -> int, path: seq<bool>)
    requires |objs| >= 1
    requires |objs| >= 2 ==> AllHaveBoxes(objs)
    requires forall i :: 0 <= i < |objs| ==> Valid(objs[i])
    ensures Valid(Build(objs, choose, path))
    ensures multiset(LeavesOf(Build(objs, choose, path))) == multiset(Gather(objs, LeavesOf))
    decreases |objs|
  {
    BuildValid(objs, choose, path);
    if |objs| == 1 {
      GatherSingle(objs, LeavesOf);
    } else if |objs| == 2 {
      BuildPairLeaves(objs, choose, path);
    } else {
      var key := AxisKey(AxisOf(choose(path)));
      var sorted := SortBy(objs, key);
      var mid := |objs| / 2;
      var left, right := sorted[..mid], sorted[mid..];
      BuildNode(objs, choose, path);
      SortedHalves(objs, key, mid);
      MembersKeep(left, objs, Valid);
      MembersKeep(right, objs, Valid);
      BuildLeaves(left, choose, path + [false]);
      BuildLeaves(right, choose, path + [true]);
      GatherSort(objs, key, LeavesOf);
      HalvesLeaves(sorted, mid, Build(left, choose, path + [false]), Build(right, choose, path + [true]));
    }
  }

  /** Under the closed slab rule the tree and the list of its objects
      agree on every ray: both miss, or both hit at the same distance, and
      the tree's record is the record of one of the list's primitives. */
  lemma BvhMatchesList(objs: seq<Object>, choose: seq<bool> -> int, path: seq<bool>,
                       r: Ray, tmin: real, tmax: real, sqrt: real -> real)
    requires |objs| >= 1
    requires |objs| >= 2 ==> AllHaveBoxes(objs)
    requires forall i :: 0 <= i < |objs| ==> Valid(objs[i]) && WellBoxed(objs[i]) && RadiusOk(objs[i])
    requires IsSqrt(sqrt)
    ensures Valid(Build(objs, choose, path))
    ensures Hit(Build(objs, choose, path), r, tmin, tmax, sqrt, Closed).None?
        <==> ListHit(objs, r, tmin, tmax, sqrt, Closed).None?
    ensures Hit(Build(objs, choose, path), r, tmin, tmax, sqrt, Closed).Some? ==>
      Hit(Build(objs, choose, path), r, tmin, tmax, sqrt, Closed).value.t
        == ListHit(objs, r, tmin, tmax, sqrt, Closed).value.t
    ensures Hit(Build(objs, choose, path), r, tmin, tmax, sqrt, Closed).Some? ==>
      Hit(Build(objs, choose, path), r, tmin, tmax, sqrt, Closed) in LeafHits(AllLeaves(objs), r, tmin, tmax, sqrt)
  {
    var tree := Build(objs, choose, path);
    BuildLeaves(objs, choose, path);
    AllLeavesGather(objs);
    BuildWellBoxed(objs, choose, path);
    TreeMatchesList(tree, objs, r, tmin, tmax, sqrt);
  }

  /** Any well-boxed tree over the same primitives as a list of objects
      agrees with that list under the closed slab rule. */
  lemma TreeMatchesList(tree: Object, objs: seq<Object>, r: Ray, tmin: real, tmax: real, sqrt: real -> real)
    requires IsSqrt(sqrt) && Valid(tree) && WellBoxed(tree)
    requires forall i :: 0 <= i < |objs| ==> Valid(objs[i]) && WellBoxed(objs[i])
    requires multiset(Leaves(tree)) == multiset(AllLeaves(objs))
    ensures Hit(tree, r, tmin, tmax, sqrt, Closed).None? <==> ListHit(objs, r, tmin, tmax, sqrt, Closed).None?
    ensures Hit(tree, r, tmin, tmax, sqrt, Closed).Some? ==>
      Hit(tree, r, tmin, tmax, sqrt, Closed).value.t == ListHit(objs, r, tmin, tmax, sqrt, Closed).value.t
    ensures Hit(tree, r, tmin, tmax, sqrt, Closed).Some? ==>
      Hit(tree, r, tmin, tmax, sqrt, Closed) in LeafHits(AllLeaves(objs), r, tmin, tmax, sqrt)
  {
    ObjectNearest(tree, r, tmin, tmax, sqrt);
    ListNearest(objs, r, tmin, tmax, sqrt);
    NearestAgree(Hit(tree, r, tmin, tmax, sqrt, Closed), ListHit(objs, r, tmin, tmax, sqrt, Closed),
                 Leaves(tree), AllLeaves(objs), r, tmin, tmax, sqrt);
  }

  // ---------------------------------------------------------------------
  // The source's slab rule and flat geometry

  /** `o` has a box that is flat on axis `a`, in the plane at `k`. */
  predicate FlatAt(o: Object, a: Axis, k: real) {
    HasBox(o) && Get(BoundingBox(o).value.minimum, a) == k && Get(BoundingBox(o).value.maximum, a) == k
  }

  lemma SurroundingFlat(b0: Aabb, b1: Aabb, a: Axis, k: real)
    requires Get(b0.minimum, a) == k == Get(b0.maximum, a)
    requires Get(b1.minimum, a) == k == Get(b1.maximum, a)
    ensures Get(SurroundingBox(b0, b1).minimum, a) == k == Get(SurroundingBox(b0, b1).maximum, a)
  {}

  /** Joining two objects flat in one plane gives a node flat in it. */
  lemma JoinFlat(l: Object, r: Object, a: Axis, k: real)
    requires FlatAt(l, a, k) && FlatAt(r, a, k)
    ensures FlatAt(Join(l, r), a, k)
  {
    SurroundingFlat(BoundingBox(l).value, BoundingBox(r).value, a, k);
  }

  /** A tree over objects that all lie in one axis-aligned plane has a box
      flat in that plane. */
  lemma {:induction false} BuildFlat(objs: seq<Object>, choose: seq<bool> -> int, path: seq<bool>, a: Axis, k: real)
    requires |objs| >= 1 && forall i :: 0 <= i < |objs| ==> FlatAt(objs[i], a, k)
    ensures AllHaveBoxes(objs)
    ensures FlatAt(Build(objs, choose, path), a, k)
    decreases |objs|
  {
    assert AllHaveBoxes(objs);
    if |objs| >= 2 {
      var key := AxisKey(AxisOf(choose(path)));
      var sorted := SortBy(objs, key);
      var mid := |objs| / 2;
      var flat := o => FlatAt(o, a, k);
      SortedHalves(objs, key, mid);
      MembersKeep(sorted, objs, flat);
      MembersKeep(sorted, objs, HasBox);
      if |objs| == 2 {
        JoinFlat(sorted[0], sorted[1], a, k);
      } else {
        var left, right := sorted[..mid], sorted[mid..];
        MembersKeep(left, objs, flat);
        MembersKeep(right, objs, flat);
        MembersKeep(left, objs, HasBox);
        MembersKeep(right, objs, HasBox);
        BuildFlat(left, choose, path + [false], a, k);
        BuildFlat(right, choose, path + [true], a, k);
        JoinFlat(Build(left, choose, path + [false]), Build(right, choose, path + [true]), a, k);
      }
    }
  }

  /** Under the source's slab rule, a tree of two or more objects lying in
      one axis-aligned plane (a flat floor mesh, say) is missed by every
      ray that is not parallel to the plane, whatever its objects. */
  lemma BvhCullsFlatGroup(objs: seq<Object>, choose: seq<bool> -> int, path: seq<bool>, a: Axis, k: real,
                          r: Ray, tmin: real, tmax: real, sqrt: real -> real)
    requires |objs| >= 2 && forall i :: 0 <= i < |objs| ==> FlatAt(objs[i], a, k) && Valid(objs[i])
    requires Get(r.direction, a) != 0.0
    ensures AllHaveBoxes(objs) && Valid(Build(objs, choose, path))
    ensures Hit(Build(objs, choose, path), r, tmin, tmax, sqrt, AsWritten).None?
  {
    BuildFlat(objs, choose, path, a, k);
    BuildValid(objs, choose, path);
    var tree := Build(objs, choose, path);
    FlatAxisRejected(tree.bbox, r, a, tmin, tmax);
  }

  const Gray: Material := LambertianMaterial(Lambertian(Vec3(0.5, 0.5, 0.5)))
  const FloorA: Object := TriangleObj(Vec3(0.0, 0.0, 0.0), Vec3(1.0, 0.0, 0.0), Vec3(0.0, 0.0, 1.0), Gray)
  const FloorB: Object := TriangleObj(Vec3(10.0, 0.0, 10.0), Vec3(11.0, 0.0, 10.0), Vec3(10.0, 0.0, 11.0), Gray)
  const DownRay: Ray := Ray(Vec3(0.25, 1.0, 0.25), Vec3(0.0, -1.0, 0.0))

  /** A triangle object hits like its triangle, whatever the slab rule. */
  lemma TriangleObjHit(a: Object, r: Ray, tmin: real, tmax: real, sqrt: real -> real, rule: SlabRule)
    requires a.TriangleObj?
    ensures Hit(a, r, tmin, tmax, sqrt, rule) == TriangleHit(a.v0, a.v1, a.v2, a.mat, r, tmin, tmax, sqrt)
  {}

  /** Both floor triangles lie in the plane `y = 0`, so do their boxes. */
  lemma FloorFlat()
    ensures FlatAt(FloorA, Y, 0.0) && FlatAt(FloorB, Y, 0.0) && Valid(FloorB)
  {}

  /** A list of two objects hits when its first object, a triangle, accepts
      the ray. */
  lemma PairListHits(a: Object, b: Object, r: Ray, tmin: real, tmax: real, sqrt: real -> real, rule: SlabRule)
    requires a.TriangleObj? && Valid(b) && TriangleParam(TriangleSolve(a.v0, a.v1, a.v2, r), tmin, tmax).Some?
    ensures ListHit([a, b], r, tmin, tmax, sqrt, rule).Some?
  {
    TriangleParamHit(a.v0, a.v1, a.v2, a.mat, r, tmin, tmax, sqrt);
    TriangleObjHit(a, r, tmin, tmax, sqrt, rule);
    var first := Step(a, r, tmin, tmax, None, sqrt, rule);
    assert [a, b][1..] == [b];
    assert ListHit([a, b], r, tmin, tmax, sqrt, rule) == Scan([b], r, tmin, tmax, first, sqrt, rule);
  }

  /** The list `objs` reports a hit for `r` on `[tmin, tmax]` under the
      source's slab rule, while the tree `build` makes from the same
      objects with the draws `choose` reports none. */
  predicate ListTreeDisagree(objs: seq<Object>, choose: seq<bool> -> int, r: Ray, tmin: real, tmax: real,
                             sqrt: real -> real) {
    |objs| >= 2 && AllHaveBoxes(objs) && (forall i :: 0 <= i < |objs| ==> Valid(objs[i]))
    && ListHit(objs, r, tmin, tmax, sqrt, AsWritten).Some?
    && Valid(Build(objs, choose, []))
    && Hit(Build(objs, choose, []), r, tmin, tmax, sqrt, AsWritten).None?
  }

  /** A triangle that accepts a ray, next to another object in the same
      axis-aligned plane: the list reports a hit, the tree built from the
      two, whatever axes are drawn, reports none. */
  lemma FlatPairDisagree(a: Object, b: Object, choose: seq<bool> -> int, ax: Axis, k: real,
                         r: Ray, tmin: real, tmax: real, sqrt: real -> real)
    requires a.TriangleObj? && TriangleParam(TriangleSolve(a.v0, a.v1, a.v2, r), tmin, tmax).Some?
    requires FlatAt(a, ax, k) && FlatAt(b, ax, k) && Valid(b)
    requires Get(r.direction, ax) != 0.0
    ensures ListHit([a, b], r, tmin, tmax, sqrt, AsWritten).Some?
    ensures AllHaveBoxes([a, b]) && Valid(Build([a, b], choose, []))
    ensures Hit(Build([a, b], choose, []), r, tmin, tmax, sqrt, AsWritten).None?
    ensures ListTreeDisagree([a, b], choose, r, tmin, tmax, sqrt)
  {
    PairListHits(a, b, r, tmin, tmax, sqrt, AsWritten);
    BvhCullsFlatGroup([a, b], choose, [], ax, k, r, tmin, tmax, sqrt);
    var objs := [a, b];
    assert forall i :: 0 <= i < |objs| ==> Valid(objs[i]);
  }

  /** The first floor triangle accepts the ray straight down. */
  lemma FloorAAccepts()
    ensures FloorA.TriangleObj? && TriangleParam(TriangleSolve(FloorA.v0, FloorA.v1, FloorA.v2, DownRay), 0.001, 1000.0).Some?
  {
    FloorAAcceptedAt(FloorA.v0, FloorA.v1, FloorA.v2, DownRay);
  }

  /** The ray points straight down, across the plane of the floor. */
  lemma DownRayCrosses()
    ensures Get(DownRay.direction, Y) != 0.0
  {}

  /** Two triangles of a floor at `y = 0`, and a ray straight down onto the
      first: the list reports the hit at `t = 1`, the tree built from the
      same two triangles, for every axis drawn, reports nothing. */
  lemma FloorCounterexample(choose: seq<bool> -> int, sqrt: real -> real)
    ensures ListTreeDisagree([FloorA, FloorB], choose, DownRay, 0.001, 1000.0, sqrt)
  {
    FloorAAccepts();
    FloorFlat();
    DownRayCrosses();
    FlatPairDisagree(FloorA, FloorB, choose, Y, 0.0, DownRay, 0.001, 1000.0, sqrt);
  }
}
