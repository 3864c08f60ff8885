/** Axis-aligned bounding boxes (`AABB`) and the slab test, in the two
    variants the repository ships: the per-axis test of the renderer crate,
    which compares every axis against the caller's original interval, and the
    narrowing test of the core crate, which carries the shrinking interval
    from one axis to the next. */
module Boxes {
  import opened Common
  import opened RealArith
  import opened Options
  import opened Vectors

  datatype Aabb = Aabb(minimum: Vec3, maximum: Vec3)

  /** The extended `f32` values the slab test produces: `1.0 / 0.0` is an
      infinity, and `0.0 * infinity` is NaN. */
  datatype Ext = NegInf | Fin(v: real) | PosInf | NaN

  /** Which comparison rejects a slab. `AsWritten` is the source's
      `t_max <= t_min`; `Closed` is the strict `t_max < t_min` that accepts
      a ray touching a box of zero thickness. */
  datatype SlabRule = AsWritten | Closed {
    /** Whether the rule treats the ray interval as open. */
    predicate Strict() {
      this == AsWritten
    }
  }

  /** `p` lies in the closed box. */
  predicate Inside(p: Vec3, b: Aabb) {
    b.minimum.x <= p.x <= b.maximum.x &&
    b.minimum.y <= p.y <= b.maximum.y &&
    b.minimum.z <= p.z <= b.maximum.z
  }

  /** `outer` encloses `inner` on every axis. */
  predicate Contains(outer: Aabb, inner: Aabb) {
    outer.minimum.x <= inner.minimum.x && inner.maximum.x <= outer.maximum.x &&
    outer.minimum.y <= inner.minimum.y && inner.maximum.y <= outer.maximum.y &&
    outer.minimum.z <= inner.minimum.z && inner.maximum.z <= outer.maximum.z
  }

  /** `AABB::surrounding_box`: componentwise minimum of the minima and
      maximum of the maxima. The result encloses both boxes. */
  function SurroundingBox(b0: Aabb, b1: Aabb): (r: Aabb)
    ensures Contains(r, b0) && Contains(r, b1)
  {
    Aabb(Vec3(Min(b0.minimum.x, b1.minimum.x), Min(b0.minimum.y, b1.minimum.y), Min(b0.minimum.z, b1.minimum.z)),
         Vec3(Max(b0.maximum.x, b1.maximum.x), Max(b0.maximum.y, b1.maximum.y), Max(b0.maximum.z, b1.maximum.z)))
  }

  /** No box smaller than the surrounding box holds both boxes. */
  lemma SurroundingBoxLeast(b0: Aabb, b1: Aabb, c: Aabb)
    requires Contains(c, b0) && Contains(c, b1)
    ensures Contains(c, SurroundingBox(b0, b1))
  {}

  /** The union of boxes does not depend on argument order. */
  lemma SurroundingBoxCommutes(b0: Aabb, b1: Aabb)
    ensures SurroundingBox(b0, b1) == SurroundingBox(b1, b0)
  {}

  /** A point inside either box is inside their union. */
  lemma InsideSurrounding(p: Vec3, b0: Aabb, b1: Aabb)
    requires Inside(p, b0) || Inside(p, b1)
    ensures Inside(p, SurroundingBox(b0, b1))
  {}

  /** Enclosure carries points along. */
  lemma InsideContained(p: Vec3, inner: Aabb, outer: Aabb)
    requires Contains(outer, inner) && Inside(p, inner)
    ensures Inside(p, outer)
  {}

  /** `triangle_aabb`: the componentwise extremes of the three vertices. The
      box holds every vertex and has `minimum <= maximum`. */
  function TriangleAabb(v0: Vec3, v1: Vec3, v2: Vec3): (r: Aabb)
    ensures Inside(v0, r) && Inside(v1, r) && Inside(v2, r)
    ensures Inside(r.minimum, r) && Inside(r.maximum, r)
  {
    Aabb(Vec3(Min(Min(v0.x, v1.x), v2.x), Min(Min(v0.y, v1.y), v2.y), Min(Min(v0.z, v1.z), v2.z)),
         Vec3(Max(Max(v0.x, v1.x), v2.x), Max(Max(v0.y, v1.y), v2.y), Max(Max(v0.z, v1.z), v2.z)))
  }

  /** Every box holding the three vertices holds `triangle_aabb`. */
  lemma TriangleAabbLeast(v0: Vec3, v1: Vec3, v2: Vec3, c: Aabb)
    requires Inside(v0, c) && Inside(v1, c) && Inside(v2, c)
    ensures Contains(c, TriangleAabb(v0, v1, v2))
  {}

  /** `std::cmp::Ordering`. */
  datatype Ordering = Less | Equal | Greater {
    function Reverse(): Ordering {
      match this
      case Less => Greater
      case Equal => Equal
      case Greater => Less
    }
  }

  /** `compare_x`, `compare_y`, `compare_z`: order boxes by their minimum
      coordinate on the axis (`partial_cmp` never fails on reals). */
  function CompareAxis(a: Axis, b0: Aabb, b1: Aabb): (r: Ordering)
    ensures r == Less <==> Get(b0.minimum, a) < Get(b1.minimum, a)
    ensures r == Greater <==> Get(b1.minimum, a) < Get(b0.minimum, a)
  {
    var k0, k1 := Get(b0.minimum, a), Get(b1.minimum, a);
    if k0 < k1 then Less else if k0 == k1 then Equal else Greater
  }

  /** Swapping the operands of a comparison reverses it: the order is
      antisymmetric. */
  lemma CompareAxisAntisymmetric(a: Axis, b0: Aabb, b1: Aabb)
    ensures CompareAxis(a, b1, b0) == CompareAxis(a, b0, b1).Reverse()
  {}

  // ---------------------------------------------------------------------
  // Extended arithmetic of the slab test

  /** `1.0 / d`. A zero component is taken as `+0.0`, whose reciprocal is
      `+inf`. */
  function Recip(d: real): (r: Ext)
    ensures d > 0.0 ==> r.Fin? && r.v > 0.0
    ensures d < 0.0 ==> r.Fin? && r.v < 0.0
    ensures d == 0.0 <==> r == PosInf
    ensures d != 0.0 ==> r == Fin(1.0 / d)
  {
    if d == 0.0 then PosInf
    else
      if d > 0.0 then DivLeMono(0.0, 1.0, d); Fin(1.0 / d)
      else NegRecip(d); Fin(1.0 / d)
  }

  lemma NegRecip(d: real)
    requires d < 0.0
    ensures 1.0 / d < 0.0
  {
    DivLeMono(0.0, 1.0, -d);
    assert 1.0 / d == -(1.0 / -d);
  }

  /** `k * e` for a finite `k`. */
  function Times(k: real, e: Ext): Ext {
    match e
    case Fin(v) => Fin(k * v)
    case PosInf => if k > 0.0 then PosInf else if k < 0.0 then NegInf else NaN
    case NegInf => if k > 0.0 then NegInf else if k < 0.0 then PosInf else NaN
    case NaN => NaN
  }

  /** IEEE `<` and `<=`, both false when either side is NaN. */
  predicate Lt(a: Ext, b: Ext) {
    match (a, b)
    case (NaN, _) => false
    case (_, NaN) => false
    case (NegInf, NegInf) => false
    case (NegInf, _) => true
    case (Fin(x), Fin(y)) => x < y
    case (Fin(_), PosInf) => true
    case (_, _) => false
  }

  predicate Le(a: Ext, b: Ext) {
    Lt(a, b) || (a == b && a != NaN)
  }

  /** `x.max(e)` for a finite `x`: Rust's `f32::max` returns the other
      operand when one is NaN. */
  function MaxWith(x: real, e: Ext): (r: Ext)
    ensures r.Fin? || r == PosInf
    ensures r.Fin? ==> r.v >= x
  {
    match e
    case Fin(v) => Fin(Max(x, v))
    case PosInf => PosInf
    case _ => Fin(x)
  }

  /** `x.min(e)` for a finite `x`. */
  function MinWith(x: real, e: Ext): (r: Ext)
    ensures r.Fin? || r == NegInf
    ensures r.Fin? ==> r.v <= x
  {
    match e
    case Fin(v) => Fin(Min(x, v))
    case NegInf => NegInf
    case _ => Fin(x)
  }

  /** The entry and exit parameters of the ray through the slab of axis
      `a`: `t0 = (min - origin) * inv_d`, `t1 = (max - origin) * inv_d`,
      swapped when `inv_d < 0`. */
  function SlabEnds(b: Aabb, r: Ray, a: Axis): (Ext, Ext) {
    var inv := Recip(Get(r.direction, a));
    var t0 := Times(Get(b.minimum, a) - Get(r.origin, a), inv);
    var t1 := Times(Get(b.maximum, a) - Get(r.origin, a), inv);
    if inv.Fin? && inv.v < 0.0 then (t1, t0) else (t0, t1)
  }

  /** The test that ends the loop body: reject when the narrowed interval is
      empty under the rule. */
  predicate Rejects(rule: SlabRule, lo: Ext, hi: Ext) {
    if rule.Strict() then Le(hi, lo) else Lt(hi, lo)
  }

  /** `t` lies in the interval from `lo` to `hi`, open when `strict`. */
  predicate Within(t: real, lo: real, hi: real, strict: bool) {
    if strict then lo < t < hi else lo <= t <= hi
  }

  /** The slab of axis `a` lets the ray parameter `t` through: `t` lies past
      the entry and before the exit, where a NaN end (a ray lying in the
      slab's boundary plane) constrains nothing, as `f32::max`/`min` skip
      it. */
  predicate AxisAdmits(b: Aabb, r: Ray, a: Axis, t: real, strict: bool) {
    var (t0, t1) := SlabEnds(b, r, a);
    (t0 == NaN || (if strict then Lt(t0, Fin(t)) else Le(t0, Fin(t)))) &&
    (t1 == NaN || (if strict then Lt(Fin(t), t1) else Le(Fin(t), t1)))
  }

  /** Every slab admits `t`. */
  predicate AllAdmit(b: Aabb, r: Ray, t: real, strict: bool) {
    AxisAdmits(b, r, X, t, strict) && AxisAdmits(b, r, Y, t, strict) && AxisAdmits(b, r, Z, t, strict)
  }

  /** One iteration of the slab loop on axis `a` with the interval
      `[tmin, tmax]`: `None` when the loop returns `false`, otherwise the
      narrowed interval `(t_min.max(t0), t_max.min(t1))`. Whenever the loop
      continues both ends are finite, and the narrowed interval holds exactly
      the parameters that lie in the old interval and in the slab. */
  function NarrowAxis(b: Aabb, r: Ray, a: Axis, tmin: real, tmax: real, rule: SlabRule): (res: Option<(real, real)>)
    ensures res.Some? ==> tmin <= res.value.0 && res.value.1 <= tmax
    ensures res.Some? ==> forall t :: Within(t, res.value.0, res.value.1, rule.Strict()) <==>
      Within(t, tmin, tmax, rule.Strict()) && AxisAdmits(b, r, a, t, rule.Strict())
    ensures res.None? ==> forall t :: !(Within(t, tmin, tmax, rule.Strict()) && AxisAdmits(b, r, a, t, rule.Strict()))
  {
    var (t0, t1) := SlabEnds(b, r, a);
    var lo, hi := MaxWith(tmin, t0), MinWith(tmax, t1);
    if Rejects(rule, lo, hi) then None else Some((lo.v, hi.v))
  }

  /** `crust-render`'s `AABB::hit`: every axis is tested against the
      caller's `[t_min, t_max]`; the narrowed bounds are loop-local and are
      not carried to the next axis. */
  function RenderHit(b: Aabb, r: Ray, tmin: real, tmax: real, rule: SlabRule): bool {
    NarrowAxis(b, r, X, tmin, tmax, rule).Some? &&
    NarrowAxis(b, r, Y, tmin, tmax, rule).Some? &&
    NarrowAxis(b, r, Z, tmin, tmax, rule).Some?
  }

  /** `crust-core`'s `AABB::hit`: the narrowed `t_min` and `t_max` of one
      axis are the interval of the next. */
  function CoreHit(b: Aabb, r: Ray, tmin: real, tmax: real, rule: SlabRule): bool {
    match NarrowAxis(b, r, X, tmin, tmax, rule)
    case None => false
    case Some((l1, h1)) =>
      match NarrowAxis(b, r, Y, l1, h1, rule)
      case None => false
      case Some((l2, h2)) => NarrowAxis(b, r, Z, l2, h2, rule).Some?
  }

  /** The slab of axis `a`, taken alone, meets the ray interval. */
  ghost predicate SlabMeets(b: Aabb, r: Ray, a: Axis, tmin: real, tmax: real, strict: bool) {
    exists t :: Within(t, tmin, tmax, strict) && AxisAdmits(b, r, a, t, strict)
  }

  /** One axis survives iff its slab meets the interval. */
  lemma NarrowAxisIff(b: Aabb, r: Ray, a: Axis, tmin: real, tmax: real, rule: SlabRule)
    ensures NarrowAxis(b, r, a, tmin, tmax, rule).Some? <==> SlabMeets(b, r, a, tmin, tmax, rule.Strict())
  {
    var s := rule.Strict();
    var res := NarrowAxis(b, r, a, tmin, tmax, rule);
    if res.Some? {
      var (l, h) := res.value;
      var t := if s then (l + h) / 2.0 else l;
      assert Within(t, l, h, s);
    }
  }

  /** The per-axis test accepts iff every slab, taken alone, meets the ray
      interval; a ray may pass all three tests and still miss the box. */
  lemma RenderHitIff(b: Aabb, r: Ray, tmin: real, tmax: real, rule: SlabRule)
    ensures RenderHit(b, r, tmin, tmax, rule) <==>
      SlabMeets(b, r, X, tmin, tmax, rule.Strict()) &&
      SlabMeets(b, r, Y, tmin, tmax, rule.Strict()) &&
      SlabMeets(b, r, Z, tmin, tmax, rule.Strict())
  {
    NarrowAxisIff(b, r, X, tmin, tmax, rule);
    NarrowAxisIff(b, r, Y, tmin, tmax, rule);
    NarrowAxisIff(b, r, Z, tmin, tmax, rule);
  }

  /** The narrowing test accepts iff one ray parameter in `[t_min, t_max]`
      lies in all three slabs at once: the slab intersection meets the
      interval (open under the source's rule, closed under `Closed`). */
  lemma CoreHitIff(b: Aabb, r: Ray, tmin: real, tmax: real, rule: SlabRule)
    ensures CoreHit(b, r, tmin, tmax, rule) <==>
      exists t :: Within(t, tmin, tmax, rule.Strict()) && AllAdmit(b, r, t, rule.Strict())
  {
    var s := rule.Strict();
    match NarrowAxis(b, r, X, tmin, tmax, rule)
    case None =>
    case Some((l1, h1)) =>
      match NarrowAxis(b, r, Y, l1, h1, rule)
      case None =>
      case Some((l2, h2)) =>
        NarrowAxisIff(b, r, Z, l2, h2, rule);
        if CoreHit(b, r, tmin, tmax, rule) {
          var t :| Within(t, l2, h2, s) && AxisAdmits(b, r, Z, t, s);
          assert AllAdmit(b, r, t, s);
        }
  }

  /** Anything the narrowing test accepts, the per-axis test accepts too:
      the per-axis test never culls more. */
  lemma CoreHitImpliesRenderHit(b: Aabb, r: Ray, tmin: real, tmax: real, rule: SlabRule)
    requires CoreHit(b, r, tmin, tmax, rule)
    ensures RenderHit(b, r, tmin, tmax, rule)
  {
    var s := rule.Strict();
    CoreHitIff(b, r, tmin, tmax, rule);
    var t :| Within(t, tmin, tmax, s) && AllAdmit(b, r, t, s);
    RenderHitIff(b, r, tmin, tmax, rule);
  }

  // ---------------------------------------------------------------------
  // Soundness of the slab test for points on the ray

  lemma CancelRecip(t: real, d: real)
    requires d != 0.0
    ensures (t * d) * (1.0 / d) == t
  {}

  lemma TimesZero(t: real)
    ensures t * 0.0 == 0.0
  {}

  /** With a positive direction component, a point of the slab is reached
      between the entry and the exit parameter. */
  lemma SlabPositive(mn: real, mx: real, o: real, d: real, t: real)
    requires d > 0.0 && mn <= o + t * d <= mx
    ensures (mn - o) * (1.0 / d) <= t <= (mx - o) * (1.0 / d)
  {
    DivLeMono(0.0, 1.0, d);
    MulLeMono(mn - o, t * d, 1.0 / d);
    MulLeMono(t * d, mx - o, 1.0 / d);
    CancelRecip(t, d);
  }

  /** With a negative direction component the roles of the two planes swap. */
  lemma SlabNegative(mn: real, mx: real, o: real, d: real, t: real)
    requires d < 0.0 && mn <= o + t * d <= mx
    ensures (mx - o) * (1.0 / d) <= t <= (mn - o) * (1.0 / d)
  {
    NegRecip(d);
    MulLeAnti(t * d, mx - o, 1.0 / d);
    MulLeAnti(mn - o, t * d, 1.0 / d);
    CancelRecip(t, d);
  }

  /** The slab ends for a nonzero direction component, in real terms:
      `(mn - o) / d` and `(mx - o) / d`, entry first. */
  lemma SlabEndsFinite(b: Aabb, r: Ray, a: Axis, mn: real, mx: real, o: real, d: real)
    requires mn == Get(b.minimum, a) && mx == Get(b.maximum, a)
    requires o == Get(r.origin, a) && d == Get(r.direction, a) && d != 0.0
    ensures d > 0.0 ==> SlabEnds(b, r, a) == (Fin((mn - o) * (1.0 / d)), Fin((mx - o) * (1.0 / d)))
    ensures d < 0.0 ==> SlabEnds(b, r, a) == (Fin((mx - o) * (1.0 / d)), Fin((mn - o) * (1.0 / d)))
  {
    var inv := Recip(d);
    assert inv == Fin(1.0 / d);
    var t0 := Times(mn - o, inv);
    var t1 := Times(mx - o, inv);
    assert t0 == Fin((mn - o) * (1.0 / d));
    assert t1 == Fin((mx - o) * (1.0 / d));
    assert SlabEnds(b, r, a) == if inv.v < 0.0 then (t1, t0) else (t0, t1);
  }

  /** For a zero direction component the ends are infinite or NaN: the
      origin's side of each plane decides. */
  lemma SlabEndsParallel(b: Aabb, r: Ray, a: Axis)
    requires Get(r.direction, a) == 0.0
    requires Get(b.minimum, a) <= Get(r.origin, a) <= Get(b.maximum, a)
    ensures SlabEnds(b, r, a).0 in {NegInf, NaN} && SlabEnds(b, r, a).1 in {PosInf, NaN}
  {}

  /** A ray parameter whose point lies in the closed slab of axis `a` passes
      that slab's closed test. */
  lemma AxisAdmitsPoint(b: Aabb, r: Ray, a: Axis, t: real)
    requires Get(b.minimum, a) <= Get(At(r, t), a) <= Get(b.maximum, a)
    ensures AxisAdmits(b, r, a, t, false)
  {
    var mn, mx, o, d := Get(b.minimum, a), Get(b.maximum, a), Get(r.origin, a), Get(r.direction, a);
    assert Get(At(r, t), a) == o + t * d by {
      match a
      case X =>
      case Y =>
      case Z =>
    }
    if d > 0.0 {
      SlabPositive(mn, mx, o, d, t);
      SlabEndsFinite(b, r, a, mn, mx, o, d);
    } else if d < 0.0 {
      SlabNegative(mn, mx, o, d, t);
      SlabEndsFinite(b, r, a, mn, mx, o, d);
    } else {
      TimesZero(t);
      SlabEndsParallel(b, r, a);
    }
  }

  /** A ray parameter in the closed interval whose point lies in the closed
      box passes both slab tests under the closed rule. */
  lemma HitWhenInside(b: Aabb, r: Ray, tmin: real, tmax: real, t: real)
    requires tmin <= t <= tmax && Inside(At(r, t), b)
    ensures CoreHit(b, r, tmin, tmax, Closed)
    ensures RenderHit(b, r, tmin, tmax, Closed)
  {
    AxisAdmitsPoint(b, r, X, t);
    AxisAdmitsPoint(b, r, Y, t);
    AxisAdmitsPoint(b, r, Z, t);
    assert Within(t, tmin, tmax, false) && AllAdmit(b, r, t, false);
    CoreHitIff(b, r, tmin, tmax, Closed);
    CoreHitImpliesRenderHit(b, r, tmin, tmax, Closed);
  }

  /** The source's rule culls a box of zero thickness that the ray meets: a
      ray straight down onto the flat box `[0, 1] x [0, 0] x [0, 1]` reaches
      it at `t = 1`, inside `[0.001, 1000]`, yet both slab tests reject. */
  lemma FlatBoxRejected()
    ensures var b := Aabb(Vec3(0.0, 0.0, 0.0), Vec3(1.0, 0.0, 1.0));
            var r := Ray(Vec3(0.25, 1.0, 0.25), Vec3(0.0, -1.0, 0.0));
            Inside(At(r, 1.0), b) &&
            !RenderHit(b, r, 0.001, 1000.0, AsWritten) && !CoreHit(b, r, 0.001, 1000.0, AsWritten)
  {
    var b := Aabb(Vec3(0.0, 0.0, 0.0), Vec3(1.0, 0.0, 1.0));
    var r := Ray(Vec3(0.25, 1.0, 0.25), Vec3(0.0, -1.0, 0.0));
    assert SlabEnds(b, r, X) == (NegInf, PosInf);
    assert NarrowAxis(b, r, X, 0.001, 1000.0, AsWritten) == Some((0.001, 1000.0));
    assert 1.0 / -1.0 == -1.0;
    assert Recip(-1.0) == Fin(-1.0);
    assert SlabEnds(b, r, Y) == (Fin(1.0), Fin(1.0));
    assert NarrowAxis(b, r, Y, 0.001, 1000.0, AsWritten).None?;
  }

  /** Under the source's rule, a box of zero thickness on axis `a` is missed
      by every ray that is not parallel to its plane, whatever the ray
      interval: entry and exit coincide, and an empty narrowed interval
      is rejected. */
  lemma FlatAxisRejected(b: Aabb, r: Ray, a: Axis, tmin: real, tmax: real)
    requires Get(b.minimum, a) == Get(b.maximum, a) && Get(r.direction, a) != 0.0
    ensures NarrowAxis(b, r, a, tmin, tmax, AsWritten).None?
    ensures !RenderHit(b, r, tmin, tmax, AsWritten)
  {
    var (t0, t1) := SlabEnds(b, r, a);
    assert t0 == t1 && t0.Fin?;
    var lo, hi := MaxWith(tmin, t0), MinWith(tmax, t1);
    assert hi.v <= t0.v <= lo.v;
  }
}
