/** Three-component vectors (`utils::Vec3`, also used as `Point3` and
    `Color`) and rays (`Ray`), over exact reals. */
module Vectors {
  import opened Common
  import opened RealArith

  datatype Vec3 = Vec3(x: real, y: real, z: real)

  /** The three coordinate axes, in the order the renderer loops over them
      (`for a in 0..3`). */
  datatype Axis = X | Y | Z

  const Zero: Vec3 := Vec3(0.0, 0.0, 0.0)

  /** `v[a]`. */
  function Get(v: Vec3, a: Axis): real {
    match a
    case X => v.x
    case Y => v.y
    case Z => v.z
  }

  function Add(u: Vec3, v: Vec3): Vec3 {
    Vec3(u.x + v.x, u.y + v.y, u.z + v.z)
  }

  function Sub(u: Vec3, v: Vec3): Vec3 {
    Vec3(u.x - v.x, u.y - v.y, u.z - v.z)
  }

  function Neg(v: Vec3): Vec3 {
    Vec3(-v.x, -v.y, -v.z)
  }

  /** `t * v` and `v * t`. */
  function Scale(t: real, v: Vec3): Vec3 {
    Vec3(t * v.x, t * v.y, t * v.z)
  }

  /** Componentwise product `u * v`, used for colours. */
  function Mul(u: Vec3, v: Vec3): Vec3 {
    Vec3(u.x * v.x, u.y * v.y, u.z * v.z)
  }

  /** `dot(u, v)`. */
  function Dot(u: Vec3, v: Vec3): real {
    u.x * v.x + u.y * v.y + u.z * v.z
  }

  /** `length_squared`: the dot product of the vector with itself, so never
      negative. */
  function LengthSquared(v: Vec3): (r: real)
    ensures r == Dot(v, v)
    ensures r >= 0.0
  {
    SquareNonneg(v.x);
    SquareNonneg(v.y);
    SquareNonneg(v.z);
    v.x * v.x + v.y * v.y + v.z * v.z
  }

  /** `cross(u, v)`: the result is perpendicular to both arguments. */
  function Cross(u: Vec3, v: Vec3): (r: Vec3)
    ensures Dot(r, u) == 0.0 && Dot(r, v) == 0.0
  {
    Vec3(u.y * v.z - u.z * v.y,
         u.z * v.x - u.x * v.z,
         u.x * v.y - u.y * v.x)
  }

  lemma DotSymmetric(u: Vec3, v: Vec3)
    ensures Dot(u, v) == Dot(v, u)
  {}

  /** A vector crossed with itself vanishes. */
  lemma CrossSelfZero(u: Vec3)
    ensures Cross(u, u) == Zero
  {}

  /** `reflect(v, n) = v - 2 dot(v, n) n`. For a unit normal the reflection
      flips the component along the normal. */
  function Reflect(v: Vec3, n: Vec3): (r: Vec3)
    ensures LengthSquared(n) == 1.0 ==> Dot(r, n) == -Dot(v, n)
    ensures Dot(r, n) == Dot(v, n) * (1.0 - 2.0 * LengthSquared(n))
  {
    var r := Sub(v, Scale(2.0 * Dot(v, n), n));
    ReflectParts(v.x, v.y, v.z, n.x, n.y, n.z, Dot(v, n), LengthSquared(n), Dot(r, n));
    r
  }

  /** The dot product of `v - 2 d n` with `n`, component by component. */
  lemma ReflectParts(vx: real, vy: real, vz: real, nx: real, ny: real, nz: real,
                     d: real, l: real, p: real)
    requires d == vx * nx + vy * ny + vz * nz && l == nx * nx + ny * ny + nz * nz
    requires p == (vx - 2.0 * d * nx) * nx + (vy - 2.0 * d * ny) * ny + (vz - 2.0 * d * nz) * nz
    ensures p == d * (1.0 - 2.0 * l)
    ensures l == 1.0 ==> p == -d
  {}

  /** `Vec3::lerp(self, other, t) = self * (1 - t) + other * t`, componentwise
      the scalar `Lerp`. */
  function LerpVec(a: Vec3, b: Vec3, t: real): (r: Vec3)
    ensures r == Vec3(Lerp(a.x, b.x, t), Lerp(a.y, b.y, t), Lerp(a.z, b.z, t))
    ensures t == 0.0 ==> r == a
    ensures t == 1.0 ==> r == b
  {
    Add(Scale(1.0 - t, a), Scale(t, b))
  }

  /** The threshold of `near_zero`. */
  const NearZeroEps: real := 0.00000001

  /** `near_zero`: every component strictly inside `(-1e-8, 1e-8)`. */
  function NearZero(v: Vec3): (b: bool)
    ensures b ==> LengthSquared(v) < 3.0 * NearZeroEps * NearZeroEps
    ensures v == Zero ==> b
  {
    if Abs(v.x) < NearZeroEps && Abs(v.y) < NearZeroEps && Abs(v.z) < NearZeroEps then
      SmallSquare(v.x, NearZeroEps);
      SmallSquare(v.y, NearZeroEps);
      SmallSquare(v.z, NearZeroEps);
      true
    else
      false
  }

  lemma SmallSquare(a: real, e: real)
    requires Abs(a) < e
    ensures a * a < e * e
  {
    var m := Abs(a);
    SquareOfAbs(a);
    SquareLt(m, e);
  }

  lemma SquareOfAbs(a: real)
    ensures Abs(a) * Abs(a) == a * a
  {
    if a < 0.0 {
      NegSquare(a);
    }
  }

  lemma NegSquare(a: real)
    ensures (-a) * (-a) == a * a
  {}

  lemma DiffOfSquares(m: real, k: real)
    ensures k * k - m * m == (k - m) * (k + m)
  {}

  /** Squaring is strictly increasing on the nonnegative reals. */
  lemma SquareLt(m: real, k: real)
    requires 0.0 <= m < k
    ensures m * m < k * k
  {
    MulPos(k - m, k + m);
    DiffOfSquares(m, k);
  }

  /** `Vec3::clamp(min, max)`: `clamp` on each component. */
  function ClampVec(v: Vec3, lo: real, hi: real): (r: Vec3)
    ensures lo <= hi ==> lo <= r.x <= hi && lo <= r.y <= hi && lo <= r.z <= hi
    ensures lo <= v.x <= hi && lo <= v.y <= hi && lo <= v.z <= hi ==> r == v
  {
    Vec3(Clamp(v.x, lo, hi), Clamp(v.y, lo, hi), Clamp(v.z, lo, hi))
  }

  /** `Ray`: origin plus direction; the direction need not be a unit vector. */
  datatype Ray = Ray(origin: Vec3, direction: Vec3)

  /** `ray.at(t) = origin + t * direction`. */
  function At(r: Ray, t: real): Vec3 {
    Add(r.origin, Scale(t, r.direction))
  }
}
