/** Ray–primitive intersection: the sphere's root selection and the
    Möller–Trumbore triangle test. `f32::sqrt` is a parameter; the
    properties that need a true square root say so with `IsSqrt`. */
module Primitives {
  import opened Options
  import opened Common
  import opened RealArith
  import opened Vectors
  import opened Materials
  import opened Hits
  import opened Boxes

  /** `sqrt` returns the nonnegative square root of every nonnegative
      number. */
  ghost predicate IsSqrt(sqrt: real -> real) {
    forall x :: 0.0 <= x ==> 0.0 <= sqrt(x) && sqrt(x) * sqrt(x) == x
  }

  // ---------------------------------------------------------------------
  // Sphere

  /** The coefficients of the quadratic `a t^2 + 2 half_b t + c` whose roots
      are the ray parameters on the sphere. */
  function SphereA(r: Ray): real {
    LengthSquared(r.direction)
  }

  function SphereHalfB(center: Vec3, r: Ray): real {
    Dot(Sub(r.origin, center), r.direction)
  }

  function SphereC(center: Vec3, radius: real, r: Ray): real {
    LengthSquared(Sub(r.origin, center)) - radius * radius
  }

  function Discriminant(center: Vec3, radius: real, r: Ray): real {
    var hb := SphereHalfB(center, r);
    hb * hb - SphereA(r) * SphereC(center, radius, r)
  }

  /** The value of the quadratic at `t`. */
  function Quadratic(a: real, hb: real, c: real, t: real): real {
    a * t * t + 2.0 * hb * t + c
  }

  /** `p` lies on the sphere's surface. */
  predicate OnSphere(p: Vec3, center: Vec3, radius: real) {
    LengthSquared(Sub(p, center)) == radius * radius
  }

  /** The root selection of `Sphere::hit`: the smaller root
      `(-half_b - sqrt_d) / a` when it lies strictly inside
      `(t_min, t_max)`, else the larger root `(-half_b + sqrt_d) / a` when
      it does, else nothing. */
  function PickRoot(a: real, hb: real, sd: real, tmin: real, tmax: real): (res: Option<real>)
    requires a != 0.0
    ensures res.Some? ==> tmin < res.value < tmax
    ensures res.Some? ==> res.value == (-hb - sd) / a || res.value == (-hb + sd) / a
  {
    var root := (-hb - sd) / a;
    if !(root <= tmin || tmax <= root) then Some(root)
    else
      var root2 := (-hb + sd) / a;
      if root2 <= tmin || tmax <= root2 then None
      else Some(root2)
  }

  /** The parameter `Sphere::hit` accepts: none for a negative
      discriminant, otherwise the root `PickRoot` selects. */
  function SphereParam(center: Vec3, radius: real, r: Ray, tmin: real, tmax: real,
                       sqrt: real -> real): (res: Option<real>)
    ensures Discriminant(center, radius, r) < 0.0 ==> res.None?
    ensures res.Some? ==> tmin < res.value < tmax
  {
    var a := SphereA(r);
    var disc := Discriminant(center, radius, r);
    if disc < 0.0 || a == 0.0 then None
    else PickRoot(a, SphereHalfB(center, r), sqrt(disc), tmin, tmax)
  }

  /** What `Sphere::hit` writes once a root is accepted: the parameter, the
      point, the face-oriented normal `(p - center) / radius` and the
      material. Every field of the record is overwritten. */
  function SphereRecord(center: Vec3, radius: real, mat: Material, r: Ray, t: real): (rec: HitRecord)
    ensures rec.t == t && rec.p == At(r, t) && rec.mat == Some(mat)
    ensures Dot(r.direction, rec.normal) <= 0.0
    ensures radius != 0.0 ==>
      rec.normal == Scale(1.0 / radius, Sub(At(r, t), center))
      || rec.normal == Neg(Scale(1.0 / radius, Sub(At(r, t), center)))
    ensures radius != 0.0 ==>
      (rec.frontFace <==> Dot(r.direction, Scale(1.0 / radius, Sub(At(r, t), center))) < 0.0)
  {
    var p := At(r, t);
    var outward := if radius == 0.0 then Zero else Scale(1.0 / radius, Sub(p, center));
    SetFaceNormal(DefaultRecord.(t := t, p := p), r, outward).(mat := Some(mat))
  }

  /** `Sphere::hit`. */
  function SphereHit(center: Vec3, radius: real, mat: Material, r: Ray, tmin: real, tmax: real,
                     sqrt: real -> real): (res: Option<HitRecord>)
    ensures Discriminant(center, radius, r) < 0.0 ==> res.None?
    ensures res.Some? ==> tmin < res.value.t < tmax
    ensures res.Some? ==> res.value == SphereRecord(center, radius, mat, r, res.value.t)
  {
    match SphereParam(center, radius, r, tmin, tmax, sqrt)
    case None => None
    case Some(t) => Some(SphereRecord(center, radius, mat, r, t))
  }

  lemma ExpandSquareParts(ox: real, oy: real, oz: real, dx: real, dy: real, dz: real, t: real,
                          a: real, hb: real, oo: real, lw: real)
    requires a == dx * dx + dy * dy + dz * dz && hb == ox * dx + oy * dy + oz * dz
    requires oo == ox * ox + oy * oy + oz * oz
    requires lw == (ox + t * dx) * (ox + t * dx) + (oy + t * dy) * (oy + t * dy) + (oz + t * dz) * (oz + t * dz)
    ensures lw == oo + 2.0 * hb * t + a * t * t
  {}

  /** `|o + t d|^2 = |o|^2 + 2 (o . d) t + |d|^2 t^2`, for `p = o + t d`
      and the three coefficients named by the caller. */
  lemma ExpandSquare(o: Vec3, d: Vec3, t: real, p: Vec3, lo: real, hb: real, a: real)
    requires p == Add(o, Scale(t, d))
    requires lo == LengthSquared(o) && hb == Dot(o, d) && a == LengthSquared(d)
    ensures LengthSquared(p) == lo + 2.0 * hb * t + a * t * t
  {
    ExpandDot(o, d, t);
  }

  lemma ExpandDot(o: Vec3, d: Vec3, t: real)
    ensures Dot(Add(o, Scale(t, d)), Add(o, Scale(t, d))) == Dot(o, o) + 2.0 * Dot(o, d) * t + Dot(d, d) * t * t
  {
    ExpandSquareParts(o.x, o.y, o.z, d.x, d.y, d.z, t, Dot(d, d), Dot(o, d), Dot(o, o),
                      Dot(Add(o, Scale(t, d)), Add(o, Scale(t, d))));
  }

  /** The squared distance from the center along the ray, as a quadratic
      in `t`. */
  lemma SquaredDistance(center: Vec3, r: Ray, t: real)
    ensures LengthSquared(Sub(At(r, t), center)) ==
      LengthSquared(Sub(r.origin, center)) + 2.0 * SphereHalfB(center, r) * t + SphereA(r) * t * t
  {
    var oc := Sub(r.origin, center);
    ExpandSquare(oc, r.direction, t, Sub(At(r, t), center), LengthSquared(oc), SphereHalfB(center, r), SphereA(r));
  }

  lemma RootShift(lw: real, lo: real, rr: real, a: real, hb: real, t: real)
    requires lw == lo + 2.0 * hb * t + a * t * t
    ensures lw == rr <==> Quadratic(a, hb, lo - rr, t) == 0.0
  {}

  /** A point of the ray lies on the sphere iff its parameter is a root of
      the quadratic. */
  lemma OnSphereIffRoot(center: Vec3, radius: real, r: Ray, t: real)
    ensures OnSphere(At(r, t), center, radius) <==>
      Quadratic(SphereA(r), SphereHalfB(center, r), SphereC(center, radius, r), t) == 0.0
  {
    SquaredDistance(center, r, t);
    RootShift(LengthSquared(Sub(At(r, t), center)), LengthSquared(Sub(r.origin, center)), radius * radius,
              SphereA(r), SphereHalfB(center, r), t);
  }

  lemma QuadFactor(a: real, hb: real, c: real, s: real, t: real)
    ensures a * (a * t * t + 2.0 * hb * t + c) - (a * t + hb - s) * (a * t + hb + s) == a * c - hb * hb + s * s
  {}

  /** With `a > 0` and `s` the nonnegative square root of the discriminant,
      the quadratic's roots are exactly `(-hb - s) / a <= (-hb + s) / a`. */
  lemma QuadraticRoots(a: real, hb: real, c: real, s: real, t: real)
    requires a > 0.0 && s >= 0.0 && s * s == hb * hb - a * c
    ensures (-hb - s) / a <= (-hb + s) / a
    ensures Quadratic(a, hb, c, t) == 0.0 <==> t == (-hb - s) / a || t == (-hb + s) / a
  {
    DivLeMono(-hb - s, -hb + s, a);
    var q := a * t * t + 2.0 * hb * t + c;
    QuadFactor(a, hb, c, s, t);
    ProductZero(a, q);
    ProductZero(a * t + hb - s, a * t + hb + s);
    DivEq(-hb - s, a, t);
    DivEq(-hb + s, a, t);
  }

  /** Without real roots the quadratic never vanishes. */
  lemma NoRealRoot(a: real, hb: real, c: real, t: real)
    requires hb * hb - a * c < 0.0
    ensures Quadratic(a, hb, c, t) != 0.0
  {
    QuadFactor(a, hb, c, 0.0, t);
    SquareNonneg(a * t + hb);
    ProductZero(a, Quadratic(a, hb, c, t));
  }

  /** `PickRoot` returns the least root in `(t_min, t_max)`, and nothing
      when the interval holds no root. */
  lemma PickRootLeast(a: real, hb: real, c: real, s: real, tmin: real, tmax: real, t: real)
    requires a > 0.0 && s >= 0.0 && s * s == hb * hb - a * c
    ensures var res := PickRoot(a, hb, s, tmin, tmax);
            res.Some? ==> Quadratic(a, hb, c, res.value) == 0.0
    ensures var res := PickRoot(a, hb, s, tmin, tmax);
            res.Some? && tmin < t < res.value ==> Quadratic(a, hb, c, t) != 0.0
    ensures var res := PickRoot(a, hb, s, tmin, tmax);
            res.None? && tmin < t < tmax ==> Quadratic(a, hb, c, t) != 0.0
  {
    var res := PickRoot(a, hb, s, tmin, tmax);
    QuadraticRoots(a, hb, c, s, t);
    if res.Some? {
      QuadraticRoots(a, hb, c, s, res.value);
    }
  }

  /** The sphere test finds the nearest surface point in the open interval:
      an accepted parameter lies on the sphere with no surface point between
      `t_min` and it, and when nothing is accepted no surface point lies in
      `(t_min, t_max)` at all (for a ray with a nonzero direction). */
  lemma SphereParamNearest(center: Vec3, radius: real, r: Ray, tmin: real, tmax: real,
                           sqrt: real -> real, t: real)
    requires IsSqrt(sqrt)
    ensures var res := SphereParam(center, radius, r, tmin, tmax, sqrt);
            res.Some? ==> OnSphere(At(r, res.value), center, radius)
    ensures var res := SphereParam(center, radius, r, tmin, tmax, sqrt);
            res.Some? && tmin < t < res.value ==> !OnSphere(At(r, t), center, radius)
    ensures var res := SphereParam(center, radius, r, tmin, tmax, sqrt);
            res.None? && SphereA(r) > 0.0 && tmin < t < tmax ==> !OnSphere(At(r, t), center, radius)
  {
    var res := SphereParam(center, radius, r, tmin, tmax, sqrt);
    var a, hb, c := SphereA(r), SphereHalfB(center, r), SphereC(center, radius, r);
    var disc := Discriminant(center, radius, r);
    OnSphereIffRoot(center, radius, r, t);
    if disc < 0.0 {
      NoRealRoot(a, hb, c, t);
    } else if a != 0.0 {
      PickRootLeast(a, hb, c, sqrt(disc), tmin, tmax, t);
      if res.Some? {
        OnSphereIffRoot(center, radius, r, res.value);
      }
    }
  }

  /** Narrowing `t_max` to `c` keeps a selected root below `c` and never
      invents one. */
  lemma PickRootRestrict(a: real, hb: real, s: real, tmin: real, tmax: real, c: real)
    requires a > 0.0 && s >= 0.0 && c <= tmax
    ensures var near := PickRoot(a, hb, s, tmin, c);
            near.Some? ==> near == PickRoot(a, hb, s, tmin, tmax)
    ensures var far := PickRoot(a, hb, s, tmin, tmax);
            far.Some? && far.value < c ==> PickRoot(a, hb, s, tmin, c) == far
  {
    DivLeMono(-hb - s, -hb + s, a);
  }

  /** The sphere's parameter under a narrowed `t_max`. */
  lemma SphereParamRestrict(center: Vec3, radius: real, r: Ray, tmin: real, tmax: real,
                            c: real, sqrt: real -> real)
    requires IsSqrt(sqrt) && c <= tmax
    ensures var near := SphereParam(center, radius, r, tmin, c, sqrt);
            near.Some? ==> near == SphereParam(center, radius, r, tmin, tmax, sqrt)
    ensures var far := SphereParam(center, radius, r, tmin, tmax, sqrt);
            far.Some? && far.value < c ==> SphereParam(center, radius, r, tmin, c, sqrt) == far
  {
    var a, disc := SphereA(r), Discriminant(center, radius, r);
    if disc >= 0.0 && a != 0.0 {
      PickRootRestrict(a, SphereHalfB(center, r), sqrt(disc), tmin, tmax, c);
    }
  }

  /** Narrowing `t_max` to `c` keeps a sphere hit that lies below `c` and
      never invents one: what the list and the BVH rely on when they pass
      the closest hit so far as the new `t_max`. */
  lemma SphereHitRestrict(center: Vec3, radius: real, mat: Material, r: Ray, tmin: real, tmax: real,
                          c: real, sqrt: real -> real)
    requires IsSqrt(sqrt) && c <= tmax
    ensures var near := SphereHit(center, radius, mat, r, tmin, c, sqrt);
            near.Some? ==> near == SphereHit(center, radius, mat, r, tmin, tmax, sqrt)
    ensures var far := SphereHit(center, radius, mat, r, tmin, tmax, sqrt);
            far.Some? && far.value.t < c ==> SphereHit(center, radius, mat, r, tmin, c, sqrt) == far
  {
    SphereParamRestrict(center, radius, r, tmin, tmax, c, sqrt);
  }

  /** The record of an accepted sphere hit sits at the accepted parameter. */
  lemma SphereHitParam(center: Vec3, radius: real, mat: Material, r: Ray, tmin: real, tmax: real,
                       sqrt: real -> real)
    ensures SphereHit(center, radius, mat, r, tmin, tmax, sqrt).Some?
        <==> SphereParam(center, radius, r, tmin, tmax, sqrt).Some?
    ensures SphereHit(center, radius, mat, r, tmin, tmax, sqrt).Some? ==>
      SphereHit(center, radius, mat, r, tmin, tmax, sqrt).value.p
        == At(r, SphereParam(center, radius, r, tmin, tmax, sqrt).value)
  {}

  /** The cube `center -+ radius`. The render crate's sphere has no
      `bounding_box` of its own; this is the core crate's
      `Sphere::bounding_box`, which the BVH needs to sort spheres. */
  function SphereBox(center: Vec3, radius: real): Aabb {
    var rv := Vec3(radius, radius, radius);
    Aabb(Sub(center, rv), Add(center, rv))
  }

  /** A coordinate offset of a point at distance `radius` is at most
      `radius` in size. */
  lemma OffsetWithin(d: real, e: real, f: real, radius: real)
    requires radius >= 0.0 && d * d + e * e + f * f == radius * radius
    ensures -radius <= d <= radius
  {
    SquareNonneg(e);
    SquareNonneg(f);
    if Abs(d) > radius {
      SquareLt(radius, Abs(d));
      SquareOfAbs(d);
      assert false;
    }
  }

  /** Every point of a sphere of nonnegative radius lies in its box. */
  lemma OnSphereInBox(p: Vec3, center: Vec3, radius: real)
    requires radius >= 0.0 && OnSphere(p, center, radius)
    ensures Inside(p, SphereBox(center, radius))
  {
    var w := Sub(p, center);
    OffsetWithin(w.x, w.y, w.z, radius);
    OffsetWithin(w.y, w.x, w.z, radius);
    OffsetWithin(w.z, w.x, w.y, radius);
  }

  /** A sphere hit lies on the sphere, hence in the sphere's box. */
  lemma SphereHitInBox(center: Vec3, radius: real, mat: Material, r: Ray, tmin: real, tmax: real,
                       sqrt: real -> real)
    requires IsSqrt(sqrt) && radius >= 0.0
    requires SphereHit(center, radius, mat, r, tmin, tmax, sqrt).Some?
    ensures OnSphere(SphereHit(center, radius, mat, r, tmin, tmax, sqrt).value.p, center, radius)
    ensures Inside(SphereHit(center, radius, mat, r, tmin, tmax, sqrt).value.p, SphereBox(center, radius))
  {
    SphereHitParam(center, radius, mat, r, tmin, tmax, sqrt);
    SphereParamNearest(center, radius, r, tmin, tmax, sqrt, tmin);
    OnSphereInBox(SphereHit(center, radius, mat, r, tmin, tmax, sqrt).value.p, center, radius);
  }

  // ---------------------------------------------------------------------
  // Triangle

  /** The parallel-ray threshold on the determinant. */
  const ParallelEps: real := 0.000001

  /** `normalize()`; a zero-length vector is returned unchanged. */
  function Normalize(v: Vec3, sqrt: real -> real): Vec3 {
    var len := sqrt(LengthSquared(v));
    if len == 0.0 then v else Scale(1.0 / len, v)
  }

  /** The record `triangle_hit` writes for an accepted `t`. */
  function TriangleRecord(v0: Vec3, v1: Vec3, v2: Vec3, mat: Material, r: Ray, t: real,
                          sqrt: real -> real): (rec: HitRecord)
    ensures rec.t == t && rec.p == At(r, t) && rec.mat == Some(mat)
    ensures Dot(r.direction, rec.normal) <= 0.0
    ensures var n := Normalize(Cross(Sub(v1, v0), Sub(v2, v0)), sqrt);
            (rec.normal == n || rec.normal == Neg(n)) && (rec.frontFace <==> Dot(r.direction, n) < 0.0)
  {
    var n := Normalize(Cross(Sub(v1, v0), Sub(v2, v0)), sqrt);
    SetFaceNormal(DefaultRecord.(t := t, p := At(r, t)), r, n).(mat := Some(mat))
  }

  /** The Möller–Trumbore quantities: the determinant `a`, and the
      unscaled `u`, `v` and `t` numerators. */
  datatype Solve = Solve(a: real, su: real, sv: real, st: real)

  function TriangleSolve(v0: Vec3, v1: Vec3, v2: Vec3, r: Ray): Solve {
    var e1, e2 := Sub(v1, v0), Sub(v2, v0);
    var h := Cross(r.direction, e2);
    var s := Sub(r.origin, v0);
    var q := Cross(s, e1);
    Solve(Dot(e1, h), Dot(s, h), Dot(r.direction, q), Dot(e2, q))
  }

  /** The barycentric coordinates `(u, v)` of a nondegenerate solve. */
  function Coordinates(m: Solve): (real, real)
    requires m.a != 0.0
  {
    ((1.0 / m.a) * m.su, (1.0 / m.a) * m.sv)
  }

  /** The parameter `triangle_hit` accepts: reject a near-parallel ray
      (`|a| < 1e-6`), then `u` outside `[0, 1]`, then `v < 0` or
      `u + v > 1`, then `t` outside the closed interval `[t_min, t_max]`. */
  function TriangleParam(m: Solve, tmin: real, tmax: real): (res: Option<real>)
    ensures Abs(m.a) < ParallelEps ==> res.None?
    ensures res.Some? ==> tmin <= res.value <= tmax && m.a != 0.0
    ensures res.Some? ==> var (u, v) := Coordinates(m); 0.0 <= u && 0.0 <= v && u + v <= 1.0
    ensures res.Some? ==> res.value == (1.0 / m.a) * m.st
    ensures (Abs(m.a) >= ParallelEps && (var (u, v) := Coordinates(m); 0.0 <= u && 0.0 <= v && u + v <= 1.0)
             && tmin <= (1.0 / m.a) * m.st <= tmax) ==> res == Some((1.0 / m.a) * m.st)
  {
    if Abs(m.a) < ParallelEps then None
    else
      var f := 1.0 / m.a;
      var u := f * m.su;
      if !(0.0 <= u <= 1.0) then None
      else
        var v := f * m.sv;
        if v < 0.0 || u + v > 1.0 then None
        else
          var t := f * m.st;
          if t < tmin || t > tmax then None
          else Some(t)
  }

  /** `triangle_hit`: the record for the accepted parameter, if any. */
  function TriangleHit(v0: Vec3, v1: Vec3, v2: Vec3, mat: Material, r: Ray, tmin: real, tmax: real,
                       sqrt: real -> real): (res: Option<HitRecord>)
    ensures Abs(TriangleSolve(v0, v1, v2, r).a) < ParallelEps ==> res.None?
    ensures res.Some? ==> tmin <= res.value.t <= tmax
    ensures res.Some? ==> res.value == TriangleRecord(v0, v1, v2, mat, r, res.value.t, sqrt)
    ensures res.Some? <==> TriangleParam(TriangleSolve(v0, v1, v2, r), tmin, tmax).Some?
  {
    match TriangleParam(TriangleSolve(v0, v1, v2, r), tmin, tmax)
    case None => None
    case Some(t) => Some(TriangleRecord(v0, v1, v2, mat, r, t, sqrt))
  }

  /** A triangle with a repeated first vertex has determinant zero. */
  lemma DegenerateDeterminant(v0: Vec3, v1: Vec3, v2: Vec3, r: Ray)
    requires v1 == v0 || v2 == v0
    ensures TriangleSolve(v0, v1, v2, r).a == 0.0
  {
    if v1 == v0 {
      assert Sub(v1, v0) == Zero;
    } else {
      assert Sub(v2, v0) == Zero;
      assert Cross(r.direction, Sub(v2, v0)) == Zero;
    }
  }

  /** A triangle with a repeated first vertex is never hit. */
  lemma DegenerateTriangleMisses(v0: Vec3, v1: Vec3, v2: Vec3, mat: Material, r: Ray, tmin: real, tmax: real,
                                 sqrt: real -> real)
    requires v1 == v0 || v2 == v0
    ensures TriangleHit(v0, v1, v2, mat, r, tmin, tmax, sqrt).None?
  {
    DegenerateDeterminant(v0, v1, v2, r);
  }

  lemma CramerX(dx: real, dy: real, dz: real, ax: real, ay: real, az: real, cx: real, cy: real, cz: real,
                sx: real, sy: real, sz: real, hx: real, hy: real, hz: real, qx: real, qy: real, qz: real,
                a: real, su: real, sv: real, st: real)
    requires hx == dy * cz - dz * cy && hy == dz * cx - dx * cz && hz == dx * cy - dy * cx
    requires qx == sy * az - sz * ay && qy == sz * ax - sx * az && qz == sx * ay - sy * ax
    requires a == ax * hx + ay * hy + az * hz && st == cx * qx + cy * qy + cz * qz
    requires su == sx * hx + sy * hy + sz * hz && sv == dx * qx + dy * qy + dz * qz
    ensures a * sx + st * dx == su * ax + sv * cx
  {}

  /** Dividing one Cramer equation by the determinant. */
  lemma Unscale(f: real, a: real, su: real, sv: real, st: real, sx: real, dx: real, ex: real, gx: real)
    requires a * sx + st * dx == su * ex + sv * gx && a != 0.0 && f == 1.0 / a
    ensures sx + (f * st) * dx == (f * su) * ex + (f * sv) * gx
  {
    assert f * a == 1.0;
    assert f * (a * sx + st * dx) == f * (su * ex + sv * gx);
  }

  /** Cramer's rule for the system `s + t d = u e1 + v e2` behind
      Möller–Trumbore, one coordinate at a time: with `h = d x e2`,
      `q = s x e1` and the determinant `a = e1 . h`, the numerators are
      `t a = e2 . q`, `u a = s . h` and `v a = d . q`. */
  lemma CramerComponentX(d: Vec3, e1: Vec3, e2: Vec3, s: Vec3, h: Vec3, q: Vec3, m: Solve)
    requires h == Cross(d, e2) && q == Cross(s, e1)
    requires m == Solve(Dot(e1, h), Dot(s, h), Dot(d, q), Dot(e2, q))
    ensures m.a * s.x + m.st * d.x == m.su * e1.x + m.sv * e2.x
  {
    CramerX(d.x, d.y, d.z, e1.x, e1.y, e1.z, e2.x, e2.y, e2.z, s.x, s.y, s.z, h.x, h.y, h.z, q.x, q.y, q.z, m.a, m.su, m.sv, m.st);
  }

  lemma CramerComponentY(d: Vec3, e1: Vec3, e2: Vec3, s: Vec3, h: Vec3, q: Vec3, m: Solve)
    requires h == Cross(d, e2) && q == Cross(s, e1)
    requires m == Solve(Dot(e1, h), Dot(s, h), Dot(d, q), Dot(e2, q))
    ensures m.a * s.y + m.st * d.y == m.su * e1.y + m.sv * e2.y
  {
    CramerX(d.y, d.z, d.x, e1.y, e1.z, e1.x, e2.y, e2.z, e2.x, s.y, s.z, s.x, h.y, h.z, h.x, q.y, q.z, q.x, m.a, m.su, m.sv, m.st);
  }

  lemma CramerComponentZ(d: Vec3, e1: Vec3, e2: Vec3, s: Vec3, h: Vec3, q: Vec3, m: Solve)
    requires h == Cross(d, e2) && q == Cross(s, e1)
    requires m == Solve(Dot(e1, h), Dot(s, h), Dot(d, q), Dot(e2, q))
    ensures m.a * s.z + m.st * d.z == m.su * e1.z + m.sv * e2.z
  {
    CramerX(d.z, d.x, d.y, e1.z, e1.x, e1.y, e2.z, e2.x, e2.y, s.z, s.x, s.y, h.z, h.x, h.y, q.z, q.x, q.y, m.a, m.su, m.sv, m.st);
  }

  /** The three Cramer equations for the numerators of a solve. */
  predicate CramerEquations(m: Solve, s: Vec3, d: Vec3, e1: Vec3, e2: Vec3) {
    && m.a * s.x + m.st * d.x == m.su * e1.x + m.sv * e2.x
    && m.a * s.y + m.st * d.y == m.su * e1.y + m.sv * e2.y
    && m.a * s.z + m.st * d.z == m.su * e1.z + m.sv * e2.z
  }

  /** All three Cramer equations for numerators built from `h` and `q`. */
  lemma CramerAll(d: Vec3, e1: Vec3, e2: Vec3, s: Vec3, h: Vec3, q: Vec3, m: Solve)
    requires h == Cross(d, e2) && q == Cross(s, e1)
    requires m == Solve(Dot(e1, h), Dot(s, h), Dot(d, q), Dot(e2, q))
    ensures CramerEquations(m, s, d, e1, e2)
  {
    CramerComponentX(d, e1, e2, s, h, q, m);
    CramerComponentY(d, e1, e2, s, h, q, m);
    CramerComponentZ(d, e1, e2, s, h, q, m);
  }

  lemma SolveCramer(v0: Vec3, v1: Vec3, v2: Vec3, r: Ray)
    ensures CramerEquations(TriangleSolve(v0, v1, v2, r), Sub(r.origin, v0), r.direction, Sub(v1, v0), Sub(v2, v0))
  {
    var e1, e2, s := Sub(v1, v0), Sub(v2, v0), Sub(r.origin, v0);
    CramerAll(r.direction, e1, e2, s, Cross(r.direction, e2), Cross(s, e1), TriangleSolve(v0, v1, v2, r));
  }

  /** Solving the Cramer equations: the ray point at `t = st / a` is
      `v0 + u e1 + v e2` with `u = su / a`, `v = sv / a`. */
  lemma CramerSolution(m: Solve, o: Vec3, d: Vec3, v0: Vec3, v1: Vec3, v2: Vec3)
    requires CramerEquations(m, Sub(o, v0), d, Sub(v1, v0), Sub(v2, v0)) && m.a != 0.0
    ensures Add(o, Scale((1.0 / m.a) * m.st, d)) == Convex(v0, v1, v2, (1.0 / m.a) * m.su, (1.0 / m.a) * m.sv)
  {
    var f := 1.0 / m.a;
    var s, e1, e2 := Sub(o, v0), Sub(v1, v0), Sub(v2, v0);
    Unscale(f, m.a, m.su, m.sv, m.st, s.x, d.x, e1.x, e2.x);
    Unscale(f, m.a, m.su, m.sv, m.st, s.y, d.y, e1.y, e2.y);
    Unscale(f, m.a, m.su, m.sv, m.st, s.z, d.z, e1.z, e2.z);
  }

  /** `u e1 + v e2 - t d`: the offset from `v0` to the origin of a ray
      that reaches `v0 + u e1 + v e2` at `t`. */
  function Combination(d: Vec3, e1: Vec3, e2: Vec3, u: real, v: real, t: real): Vec3 {
    Sub(Add(Scale(u, e1), Scale(v, e2)), Scale(t, d))
  }

  lemma DotCombination(d: Vec3, e1: Vec3, e2: Vec3, u: real, v: real, t: real, w: Vec3)
    ensures Dot(Combination(d, e1, e2, u, v, t), w) == u * Dot(e1, w) + v * Dot(e2, w) - t * Dot(d, w)
  {}

  /** The scalar triple product is invariant under rotation of its factors. */
  lemma TripleCyclic(a: Vec3, b: Vec3, c: Vec3)
    ensures Dot(a, Cross(b, c)) == Dot(b, Cross(c, a))
  {}

  /** The scalar triple product changes sign when two factors swap. */
  lemma TripleSwap(a: Vec3, b: Vec3, c: Vec3)
    ensures Dot(a, Cross(b, c)) == -Dot(a, Cross(c, b))
  {}

  /** Uniqueness in Cramer's rule, for `u`: if `s = u e1 + v e2 - t d`
      then `s . (d x e2) = u a`. */
  lemma NumeratorU(d: Vec3, e1: Vec3, e2: Vec3, u: real, v: real, t: real)
    ensures Dot(Combination(d, e1, e2, u, v, t), Cross(d, e2)) == u * Dot(e1, Cross(d, e2))
  {
    DotCombination(d, e1, e2, u, v, t, Cross(d, e2));
    var h := Cross(d, e2);
    assert Dot(e2, h) == 0.0 && Dot(d, h) == 0.0;
  }

  /** Uniqueness in Cramer's rule, for `v`: `d . (s x e1) = v a`. */
  lemma NumeratorV(d: Vec3, e1: Vec3, e2: Vec3, u: real, v: real, t: real)
    ensures Dot(d, Cross(Combination(d, e1, e2, u, v, t), e1)) == v * Dot(e1, Cross(d, e2))
  {
    var s := Combination(d, e1, e2, u, v, t);
    var w := Cross(e1, d);
    TripleCyclic(d, s, e1);
    DotCombination(d, e1, e2, u, v, t, w);
    assert Dot(e1, w) == 0.0 && Dot(d, w) == 0.0;
    TripleCyclic(e2, e1, d);
    TripleCyclic(e1, d, e2);
  }

  /** Uniqueness in Cramer's rule, for `t`: `e2 . (s x e1) = t a`. */
  lemma NumeratorT(d: Vec3, e1: Vec3, e2: Vec3, u: real, v: real, t: real)
    ensures Dot(e2, Cross(Combination(d, e1, e2, u, v, t), e1)) == t * Dot(e1, Cross(d, e2))
  {
    var s := Combination(d, e1, e2, u, v, t);
    var w := Cross(e1, e2);
    TripleCyclic(e2, s, e1);
    DotCombination(d, e1, e2, u, v, t, w);
    assert Dot(e1, w) == 0.0 && Dot(e2, w) == 0.0;
    TripleCyclic(d, e1, e2);
    TripleSwap(e1, e2, d);
  }

  /** The numerators of `m` are `u a`, `v a` and `t a`. */
  predicate ScaledSolve(m: Solve, u: real, v: real, t: real) {
    m.su == u * m.a && m.sv == v * m.a && m.st == t * m.a
  }

  /** A ray that reaches `v0 + u e1 + v e2` at `t` has the numerators
      `u a`, `v a` and `t a`. */
  lemma SolveOfPoint(v0: Vec3, v1: Vec3, v2: Vec3, r: Ray, u: real, v: real, t: real)
    requires At(r, t) == Convex(v0, v1, v2, u, v)
    ensures ScaledSolve(TriangleSolve(v0, v1, v2, r), u, v, t)
  {
    var d, e1, e2 := r.direction, Sub(v1, v0), Sub(v2, v0);
    assert Sub(r.origin, v0) == Combination(d, e1, e2, u, v, t);
    NumeratorU(d, e1, e2, u, v, t);
    NumeratorV(d, e1, e2, u, v, t);
    NumeratorT(d, e1, e2, u, v, t);
  }

  /** Dividing a numerator `x a` by the determinant gives back `x`. */
  lemma Unscaled(x: real, a: real, n: real)
    requires a != 0.0 && n == x * a
    ensures (1.0 / a) * n == x
  {
    assert (1.0 / a) * a == 1.0;
    assert (1.0 / a) * (x * a) == x * ((1.0 / a) * a);
  }

  /** A solve whose numerators are `u a`, `v a` and `t a`, with `(u, v)`
      in the triangle and `t` in the interval, is accepted at `t`. */
  lemma ParamOfScaled(m: Solve, tmin: real, tmax: real, u: real, v: real, t: real)
    requires Abs(m.a) >= ParallelEps && ScaledSolve(m, u, v, t)
    requires 0.0 <= u && 0.0 <= v && u + v <= 1.0 && tmin <= t <= tmax
    ensures TriangleParam(m, tmin, tmax) == Some(t)
  {
    Unscaled(u, m.a, m.su);
    Unscaled(v, m.a, m.sv);
    Unscaled(t, m.a, m.st);
  }

  /** The point a nondegenerate solve reaches: `origin + t d` equals
      `v0 + u e1 + v e2` with `(t, u, v)` the scaled numerators. */
  lemma SolveBarycentric(v0: Vec3, v1: Vec3, v2: Vec3, r: Ray, m: Solve)
    requires m == TriangleSolve(v0, v1, v2, r) && m.a != 0.0
    ensures At(r, (1.0 / m.a) * m.st) == Convex(v0, v1, v2, (1.0 / m.a) * m.su, (1.0 / m.a) * m.sv)
  {
    SolveCramer(v0, v1, v2, r);
    CramerSolution(m, r.origin, r.direction, v0, v1, v2);
  }

  /** The point `v0 + u (v1 - v0) + v (v2 - v0)` of barycentric
      coordinates `(u, v)`. */
  function Convex(v0: Vec3, v1: Vec3, v2: Vec3, u: real, v: real): Vec3 {
    Add(v0, Add(Scale(u, Sub(v1, v0)), Scale(v, Sub(v2, v0))))
  }

  lemma ConvexAxis(a: real, b: real, c: real, u: real, v: real, lo: real, hi: real, p: real)
    requires 0.0 <= u && 0.0 <= v && u + v <= 1.0
    requires lo <= a <= hi && lo <= b <= hi && lo <= c <= hi
    requires p == a + (u * (b - a) + v * (c - a))
    ensures lo <= p <= hi
  {
    ConvexBounds(a, b, c, u, v, lo, hi);
  }

  lemma ConvexGet(v0: Vec3, v1: Vec3, v2: Vec3, u: real, v: real, a: Axis)
    ensures Get(Convex(v0, v1, v2, u, v), a)
         == Get(v0, a) + (u * (Get(v1, a) - Get(v0, a)) + v * (Get(v2, a) - Get(v0, a)))
  {}

  lemma ConvexInsideAxis(v0: Vec3, v1: Vec3, v2: Vec3, u: real, v: real, lo: Vec3, hi: Vec3, a: Axis)
    requires 0.0 <= u && 0.0 <= v && u + v <= 1.0
    requires Get(lo, a) <= Get(v0, a) <= Get(hi, a)
    requires Get(lo, a) <= Get(v1, a) <= Get(hi, a)
    requires Get(lo, a) <= Get(v2, a) <= Get(hi, a)
    ensures Get(lo, a) <= Get(Convex(v0, v1, v2, u, v), a) <= Get(hi, a)
  {
    ConvexGet(v0, v1, v2, u, v, a);
    ConvexAxis(Get(v0, a), Get(v1, a), Get(v2, a), u, v, Get(lo, a), Get(hi, a), Get(Convex(v0, v1, v2, u, v), a));
  }

  /** A point of the triangle lies in every box that holds its vertices. */
  lemma ConvexInside(v0: Vec3, v1: Vec3, v2: Vec3, u: real, v: real, box: Aabb)
    requires 0.0 <= u && 0.0 <= v && u + v <= 1.0
    requires Inside(v0, box) && Inside(v1, box) && Inside(v2, box)
    ensures Inside(Convex(v0, v1, v2, u, v), box)
  {
    ConvexInsideAxis(v0, v1, v2, u, v, box.minimum, box.maximum, X);
    ConvexInsideAxis(v0, v1, v2, u, v, box.minimum, box.maximum, Y);
    ConvexInsideAxis(v0, v1, v2, u, v, box.minimum, box.maximum, Z);
  }

  /** A point of the triangle lies in the triangle's bounding box. */
  lemma ConvexInBox(v0: Vec3, v1: Vec3, v2: Vec3, u: real, v: real)
    requires 0.0 <= u && 0.0 <= v && u + v <= 1.0
    ensures Inside(Convex(v0, v1, v2, u, v), TriangleAabb(v0, v1, v2))
  {
    ConvexInside(v0, v1, v2, u, v, TriangleAabb(v0, v1, v2));
  }

  /** The point of an accepted triangle hit is the ray at the accepted
      parameter. */
  lemma TriangleHitParam(v0: Vec3, v1: Vec3, v2: Vec3, mat: Material, r: Ray, tmin: real, tmax: real,
                         sqrt: real -> real)
    requires TriangleHit(v0, v1, v2, mat, r, tmin, tmax, sqrt).Some?
    ensures TriangleParam(TriangleSolve(v0, v1, v2, r), tmin, tmax).Some?
    ensures TriangleHit(v0, v1, v2, mat, r, tmin, tmax, sqrt).value.p
         == At(r, TriangleParam(TriangleSolve(v0, v1, v2, r), tmin, tmax).value)
  {}

  /** The hit for an accepted parameter `t` is the record at `t`. */
  lemma TriangleHitAt(v0: Vec3, v1: Vec3, v2: Vec3, mat: Material, r: Ray, tmin: real, tmax: real,
                      sqrt: real -> real, t: real)
    requires TriangleParam(TriangleSolve(v0, v1, v2, r), tmin, tmax) == Some(t)
    ensures TriangleHit(v0, v1, v2, mat, r, tmin, tmax, sqrt) == Some(TriangleRecord(v0, v1, v2, mat, r, t, sqrt))
  {}

  /** A parameter the solve accepts gives a hit. */
  lemma TriangleParamHit(v0: Vec3, v1: Vec3, v2: Vec3, mat: Material, r: Ray, tmin: real, tmax: real,
                         sqrt: real -> real)
    requires TriangleParam(TriangleSolve(v0, v1, v2, r), tmin, tmax).Some?
    ensures TriangleHit(v0, v1, v2, mat, r, tmin, tmax, sqrt).Some?
  {}

  /** The point a solve accepts is a point of the triangle, given that the
      solve satisfies Cramer's rule. */
  lemma AcceptedOnTriangle(m: Solve, r: Ray, v0: Vec3, v1: Vec3, v2: Vec3, tmin: real, tmax: real, p: Vec3)
    requires TriangleParam(m, tmin, tmax).Some?
    requires At(r, (1.0 / m.a) * m.st) == Convex(v0, v1, v2, (1.0 / m.a) * m.su, (1.0 / m.a) * m.sv)
    requires p == At(r, TriangleParam(m, tmin, tmax).value)
    ensures exists u, v :: 0.0 <= u && 0.0 <= v && u + v <= 1.0 && p == Convex(v0, v1, v2, u, v)
    ensures Inside(p, TriangleAabb(v0, v1, v2))
  {
    OnTriangleInBox(v0, v1, v2, Coordinates(m).0, Coordinates(m).1, p);
  }

  lemma OnTriangleInBox(v0: Vec3, v1: Vec3, v2: Vec3, u: real, v: real, p: Vec3)
    requires 0.0 <= u && 0.0 <= v && u + v <= 1.0 && p == Convex(v0, v1, v2, u, v)
    ensures exists u, v :: 0.0 <= u && 0.0 <= v && u + v <= 1.0 && p == Convex(v0, v1, v2, u, v)
    ensures Inside(p, TriangleAabb(v0, v1, v2))
  {
    ConvexInBox(v0, v1, v2, u, v);
  }

  /** An accepted triangle hit lies on the triangle: its point is
      `v0 + u (v1 - v0) + v (v2 - v0)` with `u, v >= 0` and `u + v <= 1`, and
      hence inside `triangle_aabb` of the three vertices. */
  lemma TriangleHitOnTriangle(v0: Vec3, v1: Vec3, v2: Vec3, mat: Material, r: Ray, tmin: real, tmax: real,
                              sqrt: real -> real)
    requires TriangleHit(v0, v1, v2, mat, r, tmin, tmax, sqrt).Some?
    ensures var p := TriangleHit(v0, v1, v2, mat, r, tmin, tmax, sqrt).value.p;
            exists u, v :: 0.0 <= u && 0.0 <= v && u + v <= 1.0 &&
              p == Convex(v0, v1, v2, u, v)
    ensures Inside(TriangleHit(v0, v1, v2, mat, r, tmin, tmax, sqrt).value.p, TriangleAabb(v0, v1, v2))
  {
    TriangleHitParam(v0, v1, v2, mat, r, tmin, tmax, sqrt);
    var m := TriangleSolve(v0, v1, v2, r);
    SolveBarycentric(v0, v1, v2, r, m);
    AcceptedOnTriangle(m, r, v0, v1, v2, tmin, tmax,
                       TriangleHit(v0, v1, v2, mat, r, tmin, tmax, sqrt).value.p);
  }

  /** The converse of `TriangleHitOnTriangle`: a ray that reaches a point
      `v0 + u (v1 - v0) + v (v2 - v0)` of the triangle (`u, v >= 0`,
      `u + v <= 1`) at a `t` in `[t_min, t_max]` is reported hitting it
      there, unless the determinant is below the parallel threshold. */
  lemma TriangleHitComplete(v0: Vec3, v1: Vec3, v2: Vec3, mat: Material, r: Ray, tmin: real, tmax: real,
                            sqrt: real -> real, u: real, v: real, t: real)
    requires Abs(TriangleSolve(v0, v1, v2, r).a) >= ParallelEps
    requires 0.0 <= u && 0.0 <= v && u + v <= 1.0 && tmin <= t <= tmax
    requires At(r, t) == Convex(v0, v1, v2, u, v)
    ensures TriangleHit(v0, v1, v2, mat, r, tmin, tmax, sqrt).Some?
    ensures TriangleHit(v0, v1, v2, mat, r, tmin, tmax, sqrt).value.t == t
    ensures TriangleHit(v0, v1, v2, mat, r, tmin, tmax, sqrt).value.p == Convex(v0, v1, v2, u, v)
  {
    SolveOfPoint(v0, v1, v2, r, u, v, t);
    ParamOfScaled(TriangleSolve(v0, v1, v2, r), tmin, tmax, u, v, t);
    TriangleHitAt(v0, v1, v2, mat, r, tmin, tmax, sqrt, t);
  }

  /** Narrowing `t_max` to `c` keeps a triangle hit at or below `c` and
      never invents one. */
  lemma TriangleHitRestrict(v0: Vec3, v1: Vec3, v2: Vec3, mat: Material, r: Ray, tmin: real, tmax: real,
                            c: real, sqrt: real -> real)
    requires c <= tmax
    ensures var near := TriangleHit(v0, v1, v2, mat, r, tmin, c, sqrt);
            near.Some? ==> near == TriangleHit(v0, v1, v2, mat, r, tmin, tmax, sqrt)
    ensures var far := TriangleHit(v0, v1, v2, mat, r, tmin, tmax, sqrt);
            far.Some? && far.value.t <= c ==> TriangleHit(v0, v1, v2, mat, r, tmin, c, sqrt) == far
  {
    TriangleParamRestrict(TriangleSolve(v0, v1, v2, r), tmin, tmax, c);
  }

  /** Narrowing the upper bound of the accepted parameter. */
  lemma TriangleParamRestrict(m: Solve, tmin: real, tmax: real, c: real)
    requires c <= tmax
    ensures TriangleParam(m, tmin, c).Some? ==> TriangleParam(m, tmin, c) == TriangleParam(m, tmin, tmax)
    ensures TriangleParam(m, tmin, tmax).Some? && TriangleParam(m, tmin, tmax).value <= c ==>
              TriangleParam(m, tmin, c) == TriangleParam(m, tmin, tmax)
  {}
}
