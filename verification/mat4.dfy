/** `utils::Mat4`: a row-major 4x4 matrix `data[row][col]` used for object
    placement (scale followed by translation). */
module Matrices {
  import opened Vectors
  import opened Options

  /** `[[f32; 4]; 4]`: exactly four rows of exactly four entries. */
  type Mat4 = m: seq<seq<real>> | |m| == 4 && forall i :: 0 <= i < 4 ==> |m[i]| == 4
    witness [[0.0, 0.0, 0.0, 0.0], [0.0, 0.0, 0.0, 0.0], [0.0, 0.0, 0.0, 0.0], [0.0, 0.0, 0.0, 0.0]]

  /** The Kronecker delta: the entries of `Mat4::identity`. */
  function Delta(i: int, j: int): real {
    if i == j then 1.0 else 0.0
  }

  /** `Mat4::identity`. */
  function Identity(): (m: Mat4)
    ensures forall i, j :: 0 <= i < 4 && 0 <= j < 4 ==> m[i][j] == Delta(i, j)
  {
    seq(4, i => seq(4, j => Delta(i, j)))
  }

  /** Overwrite entry `(i, j)`; the copy-and-assign `m.data[i][j] = v`. */
  function Set(m: Mat4, i: int, j: int, v: real): (r: Mat4)
    requires 0 <= i < 4 && 0 <= j < 4
    ensures r[i][j] == v
    ensures forall a, b :: 0 <= a < 4 && 0 <= b < 4 && (a != i || b != j) ==> r[a][b] == m[a][b]
  {
    m[i := m[i][j := v]]
  }

  /** `Mat4::translate(x, y, z)`: the identity with the last column set to the
      offset. */
  function Translate(x: real, y: real, z: real): Mat4 {
    Set(Set(Set(Identity(), 0, 3, x), 1, 3, y), 2, 3, z)
  }

  /** `Mat4::scale(s)`: the identity with the first three diagonal entries set
      to `s`. */
  function Scale(s: real): (m: Mat4)
    ensures forall i, j :: 0 <= i < 4 && 0 <= j < 4 ==>
      m[i][j] == if i != j then 0.0 else if i < 3 then s else 1.0
  {
    Set(Set(Set(Identity(), 0, 0, s), 1, 1, s), 2, 2, s)
  }

  /** `transform_point`: the affine map of the top three rows, with the point
      taken as `(x, y, z, 1)`. */
  function TransformPoint(m: Mat4, p: Vec3): Vec3 {
    Vec3(m[0][0] * p.x + m[0][1] * p.y + m[0][2] * p.z + m[0][3],
         m[1][0] * p.x + m[1][1] * p.y + m[1][2] * p.z + m[1][3],
         m[2][0] * p.x + m[2][1] * p.y + m[2][2] * p.z + m[2][3])
  }

  /** `transform_direction`: the linear part only; the result is the
      transformed point minus the transformed origin, so the translation
      column plays no part. */
  function TransformDirection(m: Mat4, v: Vec3): (r: Vec3)
    ensures r == Sub(TransformPoint(m, v), TransformPoint(m, Zero))
  {
    Vec3(m[0][0] * v.x + m[0][1] * v.y + m[0][2] * v.z,
         m[1][0] * v.x + m[1][1] * v.y + m[1][2] * v.z,
         m[2][0] * v.x + m[2][1] * v.y + m[2][2] * v.z)
  }

  /** `Mat4 * Mat4`: `result[i][j] = sum over k of self[i][k] * rhs[k][j]`. */
  function Mul(a: Mat4, b: Mat4): Mat4 {
    seq(4, i requires 0 <= i < 4 =>
      seq(4, j requires 0 <= j < 4 =>
        a[i][0] * b[0][j] + a[i][1] * b[1][j] + a[i][2] * b[2][j] + a[i][3] * b[3][j]))
  }

  /** `Mat4::inverse`: reciprocal of the three diagonal scale entries and the
      negated, rescaled translation column; every other entry is taken from
      the identity. A zero diagonal entry would make `1.0 / 0.0` infinite in
      `f32`; the model reports it as `None`. */
  function Inverse(m: Mat4): (r: Option<Mat4>)
    ensures r.Some? <==> m[0][0] != 0.0 && m[1][1] != 0.0 && m[2][2] != 0.0
  {
    if m[0][0] == 0.0 || m[1][1] == 0.0 || m[2][2] == 0.0 then None
    else Some(InvertScaleTranslate(m[0][0], m[1][1], m[2][2], m[0][3], m[1][3], m[2][3]))
  }

  /** The matrix `inverse` assembles from the diagonal `(a, b, c)` and the
      translation column `(tx, ty, tz)`. */
  function InvertScaleTranslate(a: real, b: real, c: real, tx: real, ty: real, tz: real): Mat4
    requires a != 0.0 && b != 0.0 && c != 0.0
  {
    var sx, sy, sz := 1.0 / a, 1.0 / b, 1.0 / c;
    var inv := Set(Set(Set(Identity(), 0, 0, sx), 1, 1, sy), 2, 2, sz);
    Set(Set(Set(inv, 0, 3, -tx * sx), 1, 3, -ty * sy), 2, 3, -tz * sz)
  }

  /** A matrix of the shape `translate * scale` produces, as far as points
      are concerned: per-axis scale on the diagonal, an offset in the last
      column and zeros elsewhere in the linear part. */
  predicate IsScaleTranslate(m: Mat4) {
    forall i, j :: 0 <= i < 4 && 0 <= j < 3 && i != j ==> m[i][j] == 0.0
  }

  /** The identity leaves every point where it is. */
  lemma TransformPointIdentity(p: Vec3)
    ensures TransformPoint(Identity(), p) == p
  {}

  /** `translate(x, y, z)` moves a point by `(x, y, z)`. */
  lemma TransformPointTranslate(x: real, y: real, z: real, p: Vec3)
    ensures TransformPoint(Translate(x, y, z), p) == Add(p, Vec3(x, y, z))
  {}

  /** `scale(s)` scales a point about the origin. */
  lemma TransformPointScale(s: real, p: Vec3)
    ensures TransformPoint(Scale(s), p) == Vectors.Scale(s, p)
  {}

  /** `transform_direction` ignores the translation: a translation moves no
      direction. */
  lemma TransformDirectionTranslate(x: real, y: real, z: real, v: Vec3)
    ensures TransformDirection(Translate(x, y, z), v) == v
  {}

  /** `identity * m == m == m * identity`. */
  lemma MulIdentity(m: Mat4)
    ensures Mul(Identity(), m) == m
    ensures Mul(m, Identity()) == m
  {
    var l, r := Mul(Identity(), m), Mul(m, Identity());
    forall i | 0 <= i < 4
      ensures l[i] == m[i] && r[i] == m[i]
    {
      forall j | 0 <= j < 4
        ensures l[i][j] == m[i][j] && r[i][j] == m[i][j]
      {
        RowDelta(i, m[0][j], m[1][j], m[2][j], m[3][j]);
        RowDelta(j, m[i][0], m[i][1], m[i][2], m[i][3]);
      }
    }
  }

  /** Summing against a row of the identity picks out one term. */
  lemma RowDelta(i: int, a: real, b: real, c: real, d: real)
    requires 0 <= i < 4
    ensures Delta(i, 0) * a + Delta(i, 1) * b + Delta(i, 2) * c + Delta(i, 3) * d
         == [a, b, c, d][i]
    ensures a * Delta(0, i) + b * Delta(1, i) + c * Delta(2, i) + d * Delta(3, i)
         == [a, b, c, d][i]
  {}

  /** The inverse of a translation is the opposite translation. */
  lemma InverseTranslate(x: real, y: real, z: real)
    ensures Inverse(Translate(x, y, z)) == Some(Translate(-x, -y, -z))
  {
    var t := Translate(x, y, z);
    assert t[0][0] == 1.0 && t[1][1] == 1.0 && t[2][2] == 1.0;
    Ext(Inverse(t).value, Translate(-x, -y, -z));
  }

  /** Two matrices with the same entries are equal. */
  lemma Ext(a: Mat4, b: Mat4)
    requires forall i, j :: 0 <= i < 4 && 0 <= j < 4 ==> a[i][j] == b[i][j]
    ensures a == b
  {
    forall i | 0 <= i < 4
      ensures a[i] == b[i]
    {}
  }

  /** For a nonzero factor, the inverse of `scale(s)` is `scale(1 / s)`, and
      it undoes `scale(s)`. */
  lemma InverseScale(s: real)
    requires s != 0.0
    ensures Inverse(Scale(s)) == Some(Scale(1.0 / s))
    ensures Mul(Inverse(Scale(s)).value, Scale(s)) == Identity()
  {
    var m := Scale(s);
    assert m[0][0] == s && m[1][1] == s && m[2][2] == s;
    assert m[0][3] == 0.0 && m[1][3] == 0.0 && m[2][3] == 0.0;
    Ext(Inverse(m).value, Scale(1.0 / s));
    var q := 1.0 / s;
    MulScale(q, s);
    assert q * s == 1.0;
    ScaleOne(q * s);
  }

  lemma ScaleOne(u: real)
    requires u == 1.0
    ensures Scale(u) == Identity()
  {
    Ext(Scale(u), Identity());
  }

  /** Scalings compose by multiplying their factors. */
  lemma MulScale(a: real, b: real)
    ensures Mul(Scale(a), Scale(b)) == Scale(a * b)
  {
    var p, sa, sb := Mul(Scale(a), Scale(b)), Scale(a), Scale(b);
    forall i, j | 0 <= i < 4 && 0 <= j < 4
      ensures p[i][j] == Scale(a * b)[i][j]
    {
      DiagProduct(i, j, [a, a, a, 1.0], [b, b, b, 1.0], sa, sb);
    }
    Ext(p, Scale(a * b));
  }

  /** An entry of the product of two diagonal matrices. */
  lemma DiagProduct(i: int, j: int, da: seq<real>, db: seq<real>, x: Mat4, y: Mat4)
    requires 0 <= i < 4 && 0 <= j < 4 && |da| == 4 && |db| == 4
    requires forall k, l :: 0 <= k < 4 && 0 <= l < 4 ==> x[k][l] == if k == l then da[k] else 0.0
    requires forall k, l :: 0 <= k < 4 && 0 <= l < 4 ==> y[k][l] == if k == l then db[k] else 0.0
    ensures Mul(x, y)[i][j] == if i == j then da[i] * db[i] else 0.0
  {
    assert Mul(x, y)[i][j] == x[i][0] * y[0][j] + x[i][1] * y[1][j] + x[i][2] * y[2][j] + x[i][3] * y[3][j];
  }

  /** `inverse` reads only the three diagonal entries and the translation
      column: two matrices that agree there have the same inverse, whatever
      their other (rotation, shear) entries are. */
  lemma InverseIgnoresOffDiagonal(m: Mat4, n: Mat4)
    requires forall i :: 0 <= i < 3 ==> m[i][i] == n[i][i] && m[i][3] == n[i][3]
    ensures Inverse(m) == Inverse(n)
  {
    assert m[0][0] == n[0][0] && m[0][3] == n[0][3];
    assert m[1][1] == n[1][1] && m[1][3] == n[1][3];
    assert m[2][2] == n[2][2] && m[2][3] == n[2][3];
  }

  /** On scale-plus-translate matrices `inverse` is a true left inverse, for
      points: applying `m` and then `inverse(m)` gives the point back. */
  lemma InverseUndoesScaleTranslate(m: Mat4, p: Vec3)
    requires IsScaleTranslate(m)
    requires Inverse(m).Some?
    ensures TransformPoint(Inverse(m).value, TransformPoint(m, p)) == p
  {}
}
