/** `rotate(v, q)` as a rotation: it is the vector part of the sandwich product q (0, v) q*,
    it is linear in v, and the conjugate of a unit quaternion undoes it. */
module QuatRotation {
  import opened Scalar
  import Vectors
  import opened Quaternions
  import opened QuatAlgebra
  import QuatIdentities

  /** r is `rotate(v, q)`, as three equations between components. */
  predicate IsRotation(v: Vectors.Vec3, q: Quat, r: Vectors.Vec3) {
    && r.x == (q.x * (v.x * q.x + v.y * q.y + v.z * q.z) + (q.y * v.z - q.z * v.y) * q.w) * 2.0
              + v.x * (q.w * q.w - (q.x * q.x + q.y * q.y + q.z * q.z))
    && r.y == (q.y * (v.x * q.x + v.y * q.y + v.z * q.z) + (q.z * v.x - q.x * v.z) * q.w) * 2.0
              + v.y * (q.w * q.w - (q.x * q.x + q.y * q.y + q.z * q.z))
    && r.z == (q.z * (v.x * q.x + v.y * q.y + v.z * q.z) + (q.x * v.y - q.y * v.x) * q.w) * 2.0
              + v.z * (q.w * q.w - (q.x * q.x + q.y * q.y + q.z * q.z))
  }

  lemma RotateStructureX(v: Vectors.Vec3, q: Quat)
    ensures Rotate(v, q).x == (VectorPart(q).x * Vectors.Dot(v, VectorPart(q)) + Vectors.Cross(VectorPart(q), v).x * q.w) * 2.0
              + v.x * (q.w * q.w - Vectors.SquaredLength(VectorPart(q)))
  {
  }

  lemma SubstituteX(v: Vectors.Vec3, q: Quat, u: Vectors.Vec3)
    requires u == Vectors.Vec3(q.x, q.y, q.z)
    ensures (u.x * Vectors.Dot(v, u) + Vectors.Cross(u, v).x * q.w) * 2.0 + v.x * (q.w * q.w - Vectors.SquaredLength(u))
         == (q.x * (v.x * q.x + v.y * q.y + v.z * q.z) + (q.y * v.z - q.z * v.y) * q.w) * 2.0
              + v.x * (q.w * q.w - (q.x * q.x + q.y * q.y + q.z * q.z))
  {
  }

  lemma RotateComponentX(v: Vectors.Vec3, q: Quat)
    ensures Rotate(v, q).x == (q.x * (v.x * q.x + v.y * q.y + v.z * q.z) + (q.y * v.z - q.z * v.y) * q.w) * 2.0
              + v.x * (q.w * q.w - (q.x * q.x + q.y * q.y + q.z * q.z))
  {
    RotateStructureX(v, q);
    SubstituteX(v, q, VectorPart(q));
  }

  lemma RotateStructureY(v: Vectors.Vec3, q: Quat)
    ensures Rotate(v, q).y == (VectorPart(q).y * Vectors.Dot(v, VectorPart(q)) + Vectors.Cross(VectorPart(q), v).y * q.w) * 2.0
              + v.y * (q.w * q.w - Vectors.SquaredLength(VectorPart(q)))
  {
  }

  lemma SubstituteY(v: Vectors.Vec3, q: Quat, u: Vectors.Vec3)
    requires u == Vectors.Vec3(q.x, q.y, q.z)
    ensures (u.y * Vectors.Dot(v, u) + Vectors.Cross(u, v).y * q.w) * 2.0 + v.y * (q.w * q.w - Vectors.SquaredLength(u))
         == (q.y * (v.x * q.x + v.y * q.y + v.z * q.z) + (q.z * v.x - q.x * v.z) * q.w) * 2.0
              + v.y * (q.w * q.w - (q.x * q.x + q.y * q.y + q.z * q.z))
  {
  }

  lemma RotateComponentY(v: Vectors.Vec3, q: Quat)
    ensures Rotate(v, q).y == (q.y * (v.x * q.x + v.y * q.y + v.z * q.z) + (q.z * v.x - q.x * v.z) * q.w) * 2.0
              + v.y * (q.w * q.w - (q.x * q.x + q.y * q.y + q.z * q.z))
  {
    RotateStructureY(v, q);
    SubstituteY(v, q, VectorPart(q));
  }

  lemma RotateStructureZ(v: Vectors.Vec3, q: Quat)
    ensures Rotate(v, q).z == (VectorPart(q).z * Vectors.Dot(v, VectorPart(q)) + Vectors.Cross(VectorPart(q), v).z * q.w) * 2.0
              + v.z * (q.w * q.w - Vectors.SquaredLength(VectorPart(q)))
  {
  }

  lemma SubstituteZ(v: Vectors.Vec3, q: Quat, u: Vectors.Vec3)
    requires u == Vectors.Vec3(q.x, q.y, q.z)
    ensures (u.z * Vectors.Dot(v, u) + Vectors.Cross(u, v).z * q.w) * 2.0 + v.z * (q.w * q.w - Vectors.SquaredLength(u))
         == (q.z * (v.x * q.x + v.y * q.y + v.z * q.z) + (q.x * v.y - q.y * v.x) * q.w) * 2.0
              + v.z * (q.w * q.w - (q.x * q.x + q.y * q.y + q.z * q.z))
  {
  }

  lemma RotateComponentZ(v: Vectors.Vec3, q: Quat)
    ensures Rotate(v, q).z == (q.z * (v.x * q.x + v.y * q.y + v.z * q.z) + (q.x * v.y - q.y * v.x) * q.w) * 2.0
              + v.z * (q.w * q.w - (q.x * q.x + q.y * q.y + q.z * q.z))
  {
    RotateStructureZ(v, q);
    SubstituteZ(v, q, VectorPart(q));
  }

  /** The vector form of `rotate` computes the component equations of IsRotation. */
  lemma RotateIsRotation(v: Vectors.Vec3, q: Quat)
    ensures IsRotation(v, q, Rotate(v, q))
  {
    RotateComponentX(v, q);
    RotateComponentY(v, q);
    RotateComponentZ(v, q);
  }

  /** Rotating by the identity changes nothing. */
  lemma RotateIdentity(v: Vectors.Vec3)
    ensures Rotate(v, Identity) == v
  {
    RotateIsRotation(v, Identity);
  }

  /** The conjugate of the identity rotates nothing either. */
  lemma RotateConjugateIdentity(v: Vectors.Vec3, q: Quat)
    requires q == Identity
    ensures Rotate(v, Conjugate(q)) == v
  {
    assert Conjugate(q) == Identity;
    RotateIdentity(v);
  }

  lemma RotateAddCoreX(a: Vectors.Vec3, b: Vectors.Vec3, s: Vectors.Vec3, q: Quat, ra: Vectors.Vec3, rb: Vectors.Vec3, rs: Vectors.Vec3)
    requires s == Vectors.Add(a, b) && IsRotation(a, q, ra) && IsRotation(b, q, rb) && IsRotation(s, q, rs)
    ensures rs.x == Vectors.Add(ra, rb).x
  {
    QuatIdentities.RotateAddX(q.w, q.x, q.y, q.z, a.x, a.y, a.z, b.x, b.y, b.z, s.x, s.y, s.z, ra.x, rb.x, rs.x);
  }

  lemma RotateAddCoreY(a: Vectors.Vec3, b: Vectors.Vec3, s: Vectors.Vec3, q: Quat, ra: Vectors.Vec3, rb: Vectors.Vec3, rs: Vectors.Vec3)
    requires s == Vectors.Add(a, b) && IsRotation(a, q, ra) && IsRotation(b, q, rb) && IsRotation(s, q, rs)
    ensures rs.y == Vectors.Add(ra, rb).y
  {
    QuatIdentities.RotateAddY(q.w, q.x, q.y, q.z, a.x, a.y, a.z, b.x, b.y, b.z, s.x, s.y, s.z, ra.y, rb.y, rs.y);
  }

  lemma RotateAddCoreZ(a: Vectors.Vec3, b: Vectors.Vec3, s: Vectors.Vec3, q: Quat, ra: Vectors.Vec3, rb: Vectors.Vec3, rs: Vectors.Vec3)
    requires s == Vectors.Add(a, b) && IsRotation(a, q, ra) && IsRotation(b, q, rb) && IsRotation(s, q, rs)
    ensures rs.z == Vectors.Add(ra, rb).z
  {
    QuatIdentities.RotateAddZ(q.w, q.x, q.y, q.z, a.x, a.y, a.z, b.x, b.y, b.z, s.x, s.y, s.z, ra.z, rb.z, rs.z);
  }

  lemma RotateAddCore(a: Vectors.Vec3, b: Vectors.Vec3, s: Vectors.Vec3, q: Quat, ra: Vectors.Vec3, rb: Vectors.Vec3, rs: Vectors.Vec3)
    requires s == Vectors.Add(a, b) && IsRotation(a, q, ra) && IsRotation(b, q, rb) && IsRotation(s, q, rs)
    ensures rs == Vectors.Add(ra, rb)
  {
    RotateAddCoreX(a, b, s, q, ra, rb, rs);
    RotateAddCoreY(a, b, s, q, ra, rb, rs);
    RotateAddCoreZ(a, b, s, q, ra, rb, rs);
  }

  lemma RotateScaleCoreX(a: Vectors.Vec3, c: real, s: Vectors.Vec3, q: Quat, ra: Vectors.Vec3, rs: Vectors.Vec3)
    requires s == Vectors.Scale(a, c) && IsRotation(a, q, ra) && IsRotation(s, q, rs)
    ensures rs.x == Vectors.Scale(ra, c).x
  {
    QuatIdentities.RotateScaleX(q.w, q.x, q.y, q.z, a.x, a.y, a.z, c, s.x, s.y, s.z, ra.x, rs.x);
  }

  lemma RotateScaleCoreY(a: Vectors.Vec3, c: real, s: Vectors.Vec3, q: Quat, ra: Vectors.Vec3, rs: Vectors.Vec3)
    requires s == Vectors.Scale(a, c) && IsRotation(a, q, ra) && IsRotation(s, q, rs)
    ensures rs.y == Vectors.Scale(ra, c).y
  {
    QuatIdentities.RotateScaleY(q.w, q.x, q.y, q.z, a.x, a.y, a.z, c, s.x, s.y, s.z, ra.y, rs.y);
  }

  lemma RotateScaleCoreZ(a: Vectors.Vec3, c: real, s: Vectors.Vec3, q: Quat, ra: Vectors.Vec3, rs: Vectors.Vec3)
    requires s == Vectors.Scale(a, c) && IsRotation(a, q, ra) && IsRotation(s, q, rs)
    ensures rs.z == Vectors.Scale(ra, c).z
  {
    QuatIdentities.RotateScaleZ(q.w, q.x, q.y, q.z, a.x, a.y, a.z, c, s.x, s.y, s.z, ra.z, rs.z);
  }

  lemma RotateScaleCore(a: Vectors.Vec3, c: real, s: Vectors.Vec3, q: Quat, ra: Vectors.Vec3, rs: Vectors.Vec3)
    requires s == Vectors.Scale(a, c) && IsRotation(a, q, ra) && IsRotation(s, q, rs)
    ensures rs == Vectors.Scale(ra, c)
  {
    RotateScaleCoreX(a, c, s, q, ra, rs);
    RotateScaleCoreY(a, c, s, q, ra, rs);
    RotateScaleCoreZ(a, c, s, q, ra, rs);
  }

  /** `rotate` is linear in the vector. */
  lemma RotateLinear(a: Vectors.Vec3, b: Vectors.Vec3, c: real, q: Quat)
    ensures Rotate(Vectors.Add(a, b), q) == Vectors.Add(Rotate(a, q), Rotate(b, q))
    ensures Rotate(Vectors.Scale(a, c), q) == Vectors.Scale(Rotate(a, q), c)
    ensures Rotate(Vectors.Sub(a, b), q) == Vectors.Sub(Rotate(a, q), Rotate(b, q))
  {
    var nb := Vectors.Scale(b, -1.0);
    RotateIsRotation(a, q);
    RotateIsRotation(b, q);
    RotateIsRotation(nb, q);
    RotateIsRotation(Vectors.Add(a, b), q);
    RotateIsRotation(Vectors.Add(a, nb), q);
    RotateIsRotation(Vectors.Scale(a, c), q);
    RotateAddCore(a, b, Vectors.Add(a, b), q, Rotate(a, q), Rotate(b, q), Rotate(Vectors.Add(a, b), q));
    RotateScaleCore(a, c, Vectors.Scale(a, c), q, Rotate(a, q), Rotate(Vectors.Scale(a, c), q));
    RotateScaleCore(b, -1.0, nb, q, Rotate(b, q), Rotate(nb, q));
    RotateAddCore(a, nb, Vectors.Add(a, nb), q, Rotate(a, q), Rotate(nb, q), Rotate(Vectors.Add(a, nb), q));
    assert Vectors.Sub(a, b) == Vectors.Add(a, nb);
  }

  lemma SandwichCoreW(v: Vectors.Vec3, q: Quat, u: Quat, c: Quat, p: Quat, s: Quat, r: Vectors.Vec3)
    requires u == FromScalarVector(0.0, v) && c == Conjugate(q)
    requires IsProduct(q, u, p) && IsProduct(p, c, s) && IsRotation(v, q, r)
    ensures s.w == 0.0
  {
    QuatIdentities.SandwichW(q.w, q.x, q.y, q.z, v.x, v.y, v.z, u.w, u.x, u.y, u.z, c.w, c.x, c.y, c.z,
                             p.w, p.x, p.y, p.z, s.w);
  }

  lemma SandwichCoreX(v: Vectors.Vec3, q: Quat, u: Quat, c: Quat, p: Quat, s: Quat, r: Vectors.Vec3)
    requires u == FromScalarVector(0.0, v) && c == Conjugate(q)
    requires IsProduct(q, u, p) && IsProduct(p, c, s) && IsRotation(v, q, r)
    ensures s.x == r.x
  {
    QuatIdentities.SandwichX(q.w, q.x, q.y, q.z, v.x, v.y, v.z, u.w, u.x, u.y, u.z, c.w, c.x, c.y, c.z,
                             p.w, p.x, p.y, p.z, s.x, r.x);
  }

  lemma SandwichCoreY(v: Vectors.Vec3, q: Quat, u: Quat, c: Quat, p: Quat, s: Quat, r: Vectors.Vec3)
    requires u == FromScalarVector(0.0, v) && c == Conjugate(q)
    requires IsProduct(q, u, p) && IsProduct(p, c, s) && IsRotation(v, q, r)
    ensures s.y == r.y
  {
    QuatIdentities.SandwichY(q.w, q.x, q.y, q.z, v.x, v.y, v.z, u.w, u.x, u.y, u.z, c.w, c.x, c.y, c.z,
                             p.w, p.x, p.y, p.z, s.y, r.y);
  }

  lemma SandwichCoreZ(v: Vectors.Vec3, q: Quat, u: Quat, c: Quat, p: Quat, s: Quat, r: Vectors.Vec3)
    requires u == FromScalarVector(0.0, v) && c == Conjugate(q)
    requires IsProduct(q, u, p) && IsProduct(p, c, s) && IsRotation(v, q, r)
    ensures s.z == r.z
  {
    QuatIdentities.SandwichZ(q.w, q.x, q.y, q.z, v.x, v.y, v.z, u.w, u.x, u.y, u.z, c.w, c.x, c.y, c.z,
                             p.w, p.x, p.y, p.z, s.z, r.z);
  }

  lemma SandwichCore(v: Vectors.Vec3, q: Quat, u: Quat, c: Quat, p: Quat, s: Quat, r: Vectors.Vec3)
    requires u == FromScalarVector(0.0, v) && c == Conjugate(q)
    requires IsProduct(q, u, p) && IsProduct(p, c, s) && IsRotation(v, q, r)
    ensures s == FromScalarVector(0.0, r)
  {
    SandwichCoreW(v, q, u, c, p, s, r);
    SandwichCoreX(v, q, u, c, p, s, r);
    SandwichCoreY(v, q, u, c, p, s, r);
    SandwichCoreZ(v, q, u, c, p, s, r);
  }

  /** `rotate(v, q)` is the vector part of the sandwich product q (0, v) q*, whose scalar
      part is zero; this holds for every q, unit or not. */
  lemma RotateIsSandwich(v: Vectors.Vec3, q: Quat)
    ensures Mul(Mul(q, FromScalarVector(0.0, v)), Conjugate(q)) == FromScalarVector(0.0, Rotate(v, q))
  {
    var u := FromScalarVector(0.0, v);
    var p := Mul(q, u);
    MulIsProduct(q, u);
    MulIsProduct(p, Conjugate(q));
    RotateIsRotation(v, q);
    SandwichCore(v, q, u, Conjugate(q), p, Mul(p, Conjugate(q)), Rotate(v, q));
  }

  /** Rotating by q and then by its conjugate scales by |q|^4, so for a unit quaternion the
      conjugate undoes the rotation. */
  lemma RotateConjugate(v: Vectors.Vec3, q: Quat)
    ensures Rotate(Rotate(v, q), Conjugate(q)) == Vectors.Scale(v, SquaredNorm(q) * SquaredNorm(q))
    ensures SquaredNorm(q) == 1.0 ==> Rotate(Rotate(v, q), Conjugate(q)) == v
  {
    RotateIsSandwich(v, q);
    RotateIsSandwich(Rotate(v, q), Conjugate(q));
    ConjugateInvolution(q);
    SandwichTwice(v, Rotate(v, q), Rotate(Rotate(v, q), Conjugate(q)), q);
  }

  /** If w is v sandwiched by q and r is w sandwiched by q*, then r is |q|^4 v. */
  lemma SandwichTwice(v: Vectors.Vec3, w: Vectors.Vec3, r: Vectors.Vec3, q: Quat)
    requires Mul(Mul(q, FromScalarVector(0.0, v)), Conjugate(q)) == FromScalarVector(0.0, w)
    requires Mul(Mul(Conjugate(q), FromScalarVector(0.0, w)), q) == FromScalarVector(0.0, r)
    ensures r == Vectors.Scale(v, SquaredNorm(q) * SquaredNorm(q))
    ensures SquaredNorm(q) == 1.0 ==> r == v
  {
    UndoSandwich(q, FromScalarVector(0.0, v));
    ScaleTwice(v, SquaredNorm(q));
    assert FromScalarVector(0.0, r) == FromScalarVector(0.0, Vectors.Scale(v, SquaredNorm(q) * SquaredNorm(q)));
    VectorPartOfPure(r, Vectors.Scale(v, SquaredNorm(q) * SquaredNorm(q)));
  }

  /** Multiplying the sandwich q p q* by q* on the left and q on the right gives |q|^4 p. */
  lemma UndoSandwich(q: Quat, p: Quat)
    ensures Mul(Mul(Conjugate(q), Mul(Mul(q, p), Conjugate(q))), q)
         == Scale(Scale(p, SquaredNorm(q)), SquaredNorm(q))
  {
    var c := Conjugate(q);
    var s := SquaredNorm(q);
    UndoLeft(q, p);
    MulScale(Mul(p, c), q, s);
    MulAssociative(p, c, q);
    MulConjugate(q);
    MulByReal(p, s);
  }

  /** q* (q p q*) == |q|^2 (p q*). */
  lemma UndoLeft(q: Quat, p: Quat)
    ensures Mul(Conjugate(q), Mul(Mul(q, p), Conjugate(q))) == Scale(Mul(p, Conjugate(q)), SquaredNorm(q))
  {
    var c := Conjugate(q);
    var s := SquaredNorm(q);
    MulAssociative(c, Mul(q, p), c);
    MulAssociative(c, q, p);
    MulConjugate(q);
    MulByReal(p, s);
    MulScale(p, c, s);
  }

  lemma VectorPartOfPure(a: Vectors.Vec3, b: Vectors.Vec3)
    requires FromScalarVector(0.0, a) == FromScalarVector(0.0, b)
    ensures a == b
  {
    assert a == VectorPart(FromScalarVector(0.0, a));
  }

  lemma ScaleTwice(v: Vectors.Vec3, s: real)
    ensures Scale(Scale(FromScalarVector(0.0, v), s), s) == FromScalarVector(0.0, Vectors.Scale(v, s * s))
    ensures s == 1.0 ==> Vectors.Scale(v, s * s) == v
  {
  }

  /** A quarter turn about z sends (1, 1, 0) to (-1, 1, 0) when cos and sin of the half
      angle are both given by one value h with 2 h^2 = 1. */
  lemma RotateQuarterTurn(h: real)
    requires 2.0 * h * h == 1.0
    ensures Rotate(Vectors.Vec3(1.0, 1.0, 0.0), Quat(h, 0.0, 0.0, h)) == Vectors.Vec3(-1.0, 1.0, 0.0)
  {
  }

  // ---------------------------------------------------------------- lengths

  /** `rotate(v, q)` regrouped as 2(v.u) u + (w^2 - |u|^2) v + 2w (u x v). */
  lemma RotateAsCombination(v: Vectors.Vec3, q: Quat)
    ensures Rotate(v, q) == Vectors.Add(Vectors.Add(Vectors.Scale(VectorPart(q), 2.0 * Vectors.Dot(v, VectorPart(q))),
                                                    Vectors.Scale(v, q.w * q.w - Vectors.SquaredLength(VectorPart(q)))),
                                        Vectors.Scale(Vectors.Cross(VectorPart(q), v), 2.0 * q.w))
  {
  }

  lemma RotationLengthAlgebra(d: real, e: real, s: real, su: real, sv: real, sw: real)
    requires e == d && sw == su * sv - e * e
    ensures Vectors.CombinationTerms(2.0 * d, s * s - su, 2.0 * s, su, sv, sw, e) == sv * ((s * s + su) * (s * s + su))
  {
  }

  /** The regrouped rotation 2(v.u) u + (s^2 - |u|^2) v + 2s (u x v) has squared length
      |v|^2 (s^2 + |u|^2)^2. */
  lemma CombinationRotateLength(u: Vectors.Vec3, v: Vectors.Vec3, s: real, r: Vectors.Vec3)
    requires r == Vectors.Add(Vectors.Add(Vectors.Scale(u, 2.0 * Vectors.Dot(v, u)),
                                          Vectors.Scale(v, s * s - Vectors.SquaredLength(u))),
                              Vectors.Scale(Vectors.Cross(u, v), 2.0 * s))
    ensures Vectors.SquaredLength(r) ==
            Vectors.SquaredLength(v) * ((s * s + Vectors.SquaredLength(u)) * (s * s + Vectors.SquaredLength(u)))
  {
    Vectors.CrossOrthogonal(u, v);
    Vectors.CombinationLength(u, v, Vectors.Cross(u, v), 2.0 * Vectors.Dot(v, u), s * s - Vectors.SquaredLength(u),
                              2.0 * s, r);
    Vectors.DotSymmetric(u, v);
    Vectors.CrossLength(u, v);
    RotationLengthAlgebra(Vectors.Dot(v, u), Vectors.Dot(u, v), s, Vectors.SquaredLength(u), Vectors.SquaredLength(v),
                          Vectors.SquaredLength(Vectors.Cross(u, v)));
  }

  /** Rotation by q scales squared lengths by |q|^4, so a unit quaternion keeps lengths. */
  lemma RotateLength(v: Vectors.Vec3, q: Quat)
    ensures Vectors.SquaredLength(Rotate(v, q)) == SquaredNorm(q) * SquaredNorm(q) * Vectors.SquaredLength(v)
    ensures SquaredNorm(q) == 1.0 ==> Vectors.SquaredLength(Rotate(v, q)) == Vectors.SquaredLength(v)
  {
    RotateAsCombination(v, q);
    CombinationRotateLength(VectorPart(q), v, q.w, Rotate(v, q));
    assert SquaredNorm(q) == q.w * q.w + Vectors.SquaredLength(VectorPart(q));
  }

  /** A unit quaternion keeps dot products, hence angles. */
  lemma RotateDot(a: Vectors.Vec3, b: Vectors.Vec3, q: Quat)
    requires SquaredNorm(q) == 1.0
    ensures Vectors.Dot(Rotate(a, q), Rotate(b, q)) == Vectors.Dot(a, b)
  {
    RotateLinear(a, b, 1.0, q);
    RotateLength(Vectors.Add(a, b), q);
    RotateLength(a, q);
    RotateLength(b, q);
    Vectors.SumLength(a, b);
    Vectors.SumLength(Rotate(a, q), Rotate(b, q));
  }
}
