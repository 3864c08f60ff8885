/** The arithmetic of one concrete ray–triangle intersection: a ray
    straight down onto the unit right triangle in the plane `y = 0`. Kept
    apart from the tree so that the evaluation of literal vectors runs in a
    small context. */
module FloorHit {
  import opened Options
  import opened Vectors
  import opened Materials
  import opened Primitives

  /** `TriangleSolve` through its intermediate vectors. */
  lemma SolveParts(v0: Vec3, v1: Vec3, v2: Vec3, r: Ray, e1: Vec3, e2: Vec3, h: Vec3, s: Vec3, q: Vec3)
    requires e1 == Sub(v1, v0) && e2 == Sub(v2, v0) && h == Cross(r.direction, e2)
    requires s == Sub(r.origin, v0) && q == Cross(s, e1)
    ensures TriangleSolve(v0, v1, v2, r) == Solve(Dot(e1, h), Dot(s, h), Dot(r.direction, q), Dot(e2, q))
  {}

  lemma FloorAEdge1()
    ensures Sub(Vec3(1.0, 0.0, 0.0), Vec3(0.0, 0.0, 0.0)) == Vec3(1.0, 0.0, 0.0)
  {}

  lemma FloorAEdge2()
    ensures Sub(Vec3(0.0, 0.0, 1.0), Vec3(0.0, 0.0, 0.0)) == Vec3(0.0, 0.0, 1.0)
  {}

  lemma FloorAOffset()
    ensures Sub(Vec3(0.25, 1.0, 0.25), Vec3(0.0, 0.0, 0.0)) == Vec3(0.25, 1.0, 0.25)
  {}

  lemma FloorACrossH()
    ensures Cross(Vec3(0.0, -1.0, 0.0), Vec3(0.0, 0.0, 1.0)) == Vec3(-1.0, 0.0, 0.0)
  {}

  lemma FloorACrossQ()
    ensures Cross(Vec3(0.25, 1.0, 0.25), Vec3(1.0, 0.0, 0.0)) == Vec3(0.0, 0.25, -1.0)
  {}

  lemma FloorADet()
    ensures Dot(Vec3(1.0, 0.0, 0.0), Vec3(-1.0, 0.0, 0.0)) == -1.0
  {}

  lemma FloorANumU()
    ensures Dot(Vec3(0.25, 1.0, 0.25), Vec3(-1.0, 0.0, 0.0)) == -0.25
  {}

  lemma FloorANumV()
    ensures Dot(Vec3(0.0, -1.0, 0.0), Vec3(0.0, 0.25, -1.0)) == -0.25
  {}

  lemma FloorANumT()
    ensures Dot(Vec3(0.0, 0.0, 1.0), Vec3(0.0, 0.25, -1.0)) == -1.0
  {}

  /** The Möller–Trumbore quantities of the downward ray against the first
      floor triangle. */
  lemma FloorASolve()
    ensures TriangleSolve(Vec3(0.0, 0.0, 0.0), Vec3(1.0, 0.0, 0.0), Vec3(0.0, 0.0, 1.0),
                          Ray(Vec3(0.25, 1.0, 0.25), Vec3(0.0, -1.0, 0.0))) == Solve(-1.0, -0.25, -0.25, -1.0)
  {
    FloorAEdge1();
    FloorAEdge2();
    FloorAOffset();
    FloorACrossH();
    FloorACrossQ();
    FloorADet();
    FloorANumU();
    FloorANumV();
    FloorANumT();
    SolveParts(Vec3(0.0, 0.0, 0.0), Vec3(1.0, 0.0, 0.0), Vec3(0.0, 0.0, 1.0),
               Ray(Vec3(0.25, 1.0, 0.25), Vec3(0.0, -1.0, 0.0)), Vec3(1.0, 0.0, 0.0), Vec3(0.0, 0.0, 1.0),
               Vec3(-1.0, 0.0, 0.0), Vec3(0.25, 1.0, 0.25), Vec3(0.0, 0.25, -1.0));
  }

  lemma FloorAParam()
    ensures TriangleParam(Solve(-1.0, -0.25, -0.25, -1.0), 0.001, 1000.0) == Some(1.0)
  {
    assert 1.0 / -1.0 == -1.0;
  }

  /** The downward ray meets the first floor triangle's plane at `t = 1`,
      inside the triangle. */
  lemma FloorAAccepted()
    ensures TriangleParam(TriangleSolve(Vec3(0.0, 0.0, 0.0), Vec3(1.0, 0.0, 0.0), Vec3(0.0, 0.0, 1.0),
                                        Ray(Vec3(0.25, 1.0, 0.25), Vec3(0.0, -1.0, 0.0))), 0.001, 1000.0) == Some(1.0)
  {
    FloorASolve();
    FloorAParam();
  }

  /** The same, for vertices and ray given as parameters equal to the
      constants; the parameters keep the verifier from evaluating the
      intersection once more on the literals. */
  lemma FloorAAcceptedAt(v0: Vec3, v1: Vec3, v2: Vec3, r: Ray)
    requires v0 == Vec3(0.0, 0.0, 0.0) && v1 == Vec3(1.0, 0.0, 0.0) && v2 == Vec3(0.0, 0.0, 1.0)
    requires r == Ray(Vec3(0.25, 1.0, 0.25), Vec3(0.0, -1.0, 0.0))
    ensures TriangleParam(TriangleSolve(v0, v1, v2, r), 0.001, 1000.0) == Some(1.0)
  {
    FloorAAccepted();
  }
}
