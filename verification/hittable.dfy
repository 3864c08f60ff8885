/** `HitRecord`, the result of a ray–object intersection, and the
    front-face orientation of its normal. */
module Hits {
  import opened Options
  import opened Vectors
  import opened Materials

  /** `HitRecord`: the point, the normal (always facing the incoming ray),
      the material of the object hit, the ray parameter and whether the ray
      arrived from the outside. */
  datatype HitRecord = HitRecord(p: Vec3, normal: Vec3, mat: Option<Material>, t: real, frontFace: bool)

  /** `HitRecord::default()`. */
  const DefaultRecord: HitRecord := HitRecord(Zero, Zero, None, 0.0, false)

  lemma DotNeg(u: Vec3, v: Vec3)
    ensures Dot(u, Neg(v)) == -Dot(u, v)
  {}

  /** `set_face_normal`: the ray hits the front face iff it travels against
      the outward normal; the stored normal is the outward one on the front
      face and its opposite on the back face, so it always opposes the ray.
      Nothing but `front_face` and `normal` changes. */
  function SetFaceNormal(rec: HitRecord, r: Ray, outward: Vec3): (res: HitRecord)
    ensures res.frontFace <==> Dot(r.direction, outward) < 0.0
    ensures res.normal == outward || res.normal == Neg(outward)
    ensures Dot(r.direction, res.normal) <= 0.0
    ensures Dot(r.direction, outward) < 0.0 ==> res.normal == outward
    ensures Dot(r.direction, outward) > 0.0 ==> res.normal == Neg(outward)
    ensures res.p == rec.p && res.mat == rec.mat && res.t == rec.t
  {
    var front := Dot(r.direction, outward) < 0.0;
    DotNeg(r.direction, outward);
    rec.(frontFace := front, normal := if front then outward else Neg(outward))
  }
}
