/** Similarity transforms (src/Transform.hpp): a uniform scale, then a rotation by a
    quaternion, then a translation. The reciprocal of the scale is cached. */
module Transforms {
  import opened Scalar
  import opened Vectors
  import Quaternions
  import QuatRotation
  import Rays

  datatype Transform = Transform(rotation: Quaternions.Quat, translation: Vec3, scale: real, inverseScale: real)

  /** `Transform()`: the identity transform. */
  const DefaultTransform: Transform := Transform(Quaternions.Identity, Zero, 1.0, 1.0)

  /** The class invariant every constructor and setter keeps: a positive scale whose
      cached reciprocal is exact. */
  predicate Valid(tr: Transform) {
    0.0 < tr.scale && tr.scale * tr.inverseScale == 1.0
  }

  /** `setScale(s)`: a scale that is not positive is replaced by 1. */
  function SetScale(tr: Transform, s: real): Transform {
    var s' := if s <= 0.0 then 1.0 else s;
    tr.(scale := s', inverseScale := 1.0 / s')
  }

  function SetRotation(tr: Transform, q: Quaternions.Quat): Transform { tr.(rotation := q) }

  function SetTranslation(tr: Transform, t: Vec3): Transform { tr.(translation := t) }

  /** `Transform(r, t, s)`. */
  function MakeTransform(q: Quaternions.Quat, t: Vec3, s: real): Transform {
    SetScale(Transform(q, t, 1.0, 1.0), s)
  }

  /** Every way of building a transform yields a valid one; a positive scale is kept and any
      other scale becomes 1; each setter changes its own field only. */
  lemma SettersKeepValid(tr: Transform, q: Quaternions.Quat, t: Vec3, s: real)
    ensures Valid(DefaultTransform)
    ensures Valid(SetScale(tr, s)) && Valid(MakeTransform(q, t, s))
    ensures 0.0 < s ==> SetScale(tr, s).scale == s && MakeTransform(q, t, s).scale == s
    ensures s <= 0.0 ==> SetScale(tr, s).scale == 1.0 && SetScale(tr, s).inverseScale == 1.0
    ensures SetScale(tr, s).rotation == tr.rotation && SetScale(tr, s).translation == tr.translation
    ensures MakeTransform(q, t, s).rotation == q && MakeTransform(q, t, s).translation == t
    ensures Valid(tr) ==> Valid(SetRotation(tr, q)) && Valid(SetTranslation(tr, t))
    ensures SetRotation(tr, q).rotation == q && SetRotation(tr, q).(rotation := tr.rotation) == tr
    ensures SetTranslation(tr, t).translation == t && SetTranslation(tr, t).(translation := tr.translation) == tr
  {
  }

  /** The accessors after construction and after the setters, as exercised in
      tests/transform.cpp. */
  lemma TransformExamples()
    ensures DefaultTransform.rotation == Quaternions.Identity
    ensures DefaultTransform.translation == Zero && DefaultTransform.scale == 1.0
    ensures MakeTransform(Quaternions.Quat(1.0, 2.0, 3.0, 4.0), Vec3(-1.0, 0.0, 1.0), 2.5).scale == 2.5
    ensures SetScale(SetTranslation(SetRotation(DefaultTransform, Quaternions.Quat(1.0, 2.0, 3.0, 4.0)),
                                    Vec3(-1.0, 0.0, 1.0)), 2.5)
            == MakeTransform(Quaternions.Quat(1.0, 2.0, 3.0, 4.0), Vec3(-1.0, 0.0, 1.0), 2.5)
  {
  }

  // ---------------------------------------------------------------- comparison

  /** `operator==` compares rotation, translation and scale; the cached reciprocal is left
      out. `operator!=` is written separately as the disjunction of the differences. */
  predicate Eq(a: Transform, b: Transform) {
    a.rotation == b.rotation && a.translation == b.translation && a.scale == b.scale
  }

  predicate NotEq(a: Transform, b: Transform) {
    a.rotation != b.rotation || a.translation != b.translation || a.scale != b.scale
  }

  /** `!=` is the negation of `==`, and on valid transforms `==` is structural equality,
      because the reciprocal is determined by the scale. */
  lemma EqIsEquality(a: Transform, b: Transform)
    ensures NotEq(a, b) <==> !Eq(a, b)
    ensures Valid(a) && Valid(b) ==> (Eq(a, b) <==> a == b)
  {
    if Valid(a) && Valid(b) && Eq(a, b) {
      assert a.scale * (a.inverseScale - b.inverseScale) == 0.0;
      ZeroProduct(a.scale, a.inverseScale - b.inverseScale);
    }
  }

  /** `closeEnough(a, b, e)` on scale, rotation and translation. */
  predicate CloseEnoughT(a: Transform, b: Transform, epsilon: real) {
    CloseEnough(a.scale, b.scale, epsilon) &&
    Quaternions.CloseEnoughQ(a.rotation, b.rotation, epsilon) &&
    CloseEnoughV(a.translation, b.translation, epsilon)
  }

  /** Closeness is symmetric, holds between equal transforms for any positive tolerance, and
      never holds for a tolerance of zero. */
  lemma CloseEnoughTProperties(a: Transform, b: Transform, epsilon: real)
    ensures CloseEnoughT(a, b, epsilon) == CloseEnoughT(b, a, epsilon)
    ensures 0.0 < epsilon ==> CloseEnoughT(a, a, epsilon)
    ensures !CloseEnoughT(a, b, 0.0)
  {
    CloseEnoughSymmetric(a.scale, b.scale, epsilon);
    assert Quaternions.CloseEnoughQ(a.rotation, b.rotation, epsilon)
        == Quaternions.CloseEnoughQ(b.rotation, a.rotation, epsilon);
    assert CloseEnoughV(a.translation, b.translation, epsilon) == CloseEnoughV(b.translation, a.translation, epsilon);
  }

  // ---------------------------------------------------------------- application

  /** `apply(v)`: scale, rotate, translate. */
  function Apply(tr: Transform, v: Vec3): Vec3 {
    Add(Quaternions.Rotate(Scale(v, tr.scale), tr.rotation), tr.translation)
  }

  /** `applyInverse(v)`: translate back, rotate by the conjugate, scale by the reciprocal. */
  function ApplyInverse(tr: Transform, v: Vec3): Vec3 {
    Scale(Quaternions.Rotate(Sub(v, tr.translation), Quaternions.Conjugate(tr.rotation)), tr.inverseScale)
  }

  /** `inverse()`: the conjugate rotation, the translation rotated back and scaled, and the
      reciprocal scale. */
  function Inverse(tr: Transform): Transform {
    var ir := Quaternions.Conjugate(tr.rotation);
    MakeTransform(ir, Scale(Neg(Quaternions.Rotate(tr.translation, ir)), tr.inverseScale), tr.inverseScale)
  }

  /** The fields of the inverse of a valid transform: its scale is the reciprocal, whose
      own reciprocal is the original scale. */
  lemma InverseFields(tr: Transform)
    requires Valid(tr)
    ensures Valid(Inverse(tr))
    ensures Inverse(tr).rotation == Quaternions.Conjugate(tr.rotation)
    ensures Inverse(tr).translation
            == Scale(Neg(Quaternions.Rotate(tr.translation, Quaternions.Conjugate(tr.rotation))), tr.inverseScale)
    ensures Inverse(tr).scale == tr.inverseScale && Inverse(tr).inverseScale == tr.scale
  {
    assert 1.0 / tr.inverseScale == tr.scale;
  }

  /** Applying the inverse transform is the same as `applyInverse`, whatever the rotation
      quaternion: both are affine in v and agree term by term. */
  lemma InverseApply(tr: Transform, v: Vec3)
    requires Valid(tr)
    ensures Apply(Inverse(tr), v) == ApplyInverse(tr, v)
  {
    var ir := Quaternions.Conjugate(tr.rotation);
    var c := tr.inverseScale;
    InverseFields(tr);
    QuatRotation.RotateLinear(v, tr.translation, c, ir);
    ShiftScaled(Quaternions.Rotate(v, ir), Quaternions.Rotate(tr.translation, ir), c);
  }

  /** c a - c b == c (a - b), written with the negation the source uses. */
  lemma ShiftScaled(a: Vec3, b: Vec3, c: real)
    ensures Add(Scale(a, c), Scale(Neg(b), c)) == Scale(Sub(a, b), c)
  {
  }

  /** With a unit rotation, `applyInverse` undoes `apply`. */
  lemma ApplyRoundTrip(tr: Transform, v: Vec3)
    requires Valid(tr) && Quaternions.SquaredNorm(tr.rotation) == 1.0
    ensures ApplyInverse(tr, Apply(tr, v)) == v
  {
    var u := Scale(v, tr.scale);
    assert Sub(Apply(tr, v), tr.translation) == Quaternions.Rotate(u, tr.rotation);
    QuatRotation.RotateConjugate(u, tr.rotation);
    ScaleInverse(v, tr.scale, tr.inverseScale);
  }

  /** With a unit rotation, `apply` undoes `applyInverse`. */
  lemma ApplyInverseRoundTrip(tr: Transform, v: Vec3)
    requires Valid(tr) && Quaternions.SquaredNorm(tr.rotation) == 1.0
    ensures Apply(tr, ApplyInverse(tr, v)) == v
  {
    var q := tr.rotation;
    var cq := Quaternions.Conjugate(q);
    var w := Quaternions.Rotate(Sub(v, tr.translation), cq);
    ScaleInverse(w, tr.inverseScale, tr.scale);
    Quaternions.ConjugateInvolution(q);
    QuatRotation.RotateConjugate(Sub(v, tr.translation), cq);
    assert Quaternions.Rotate(w, q) == Sub(v, tr.translation);
  }

  /** Scaling by s and then by its reciprocal is the identity. */
  lemma ScaleInverse(v: Vec3, s: real, i: real)
    requires s * i == 1.0
    ensures Scale(Scale(v, s), i) == v
  {
  }

  // ---------------------------------------------------------------- rays

  /** `apply(ray)`: the origin is transformed as a point, the direction is only rotated, and
      the ray constructor normalises it again. */
  function ApplyRay(tr: Transform, r: Rays.Ray): Rays.Ray {
    Rays.MakeRay(Apply(tr, r.origin), Quaternions.Rotate(r.direction, tr.rotation))
  }

  /** `applyInverse(ray)`. */
  function ApplyInverseRay(tr: Transform, r: Rays.Ray): Rays.Ray {
    Rays.MakeRay(ApplyInverse(tr, r.origin), Quaternions.Rotate(r.direction, Quaternions.Conjugate(tr.rotation)))
  }

  /** With a unit rotation, taking a ray with a unit direction into the transform's frame and
      back gives the same ray. */
  lemma RayRoundTrip(tr: Transform, r: Rays.Ray)
    requires SqrtLaw()
    requires Valid(tr) && Quaternions.SquaredNorm(tr.rotation) == 1.0
    requires IsUnit(r.direction)
    ensures ApplyInverseRay(tr, ApplyRay(tr, r)) == r
  {
    var q := tr.rotation;
    var d := Quaternions.Rotate(r.direction, q);
    ApplyRoundTrip(tr, r.origin);
    QuatRotation.RotateConjugate(r.direction, q);
    RotatedNotZero(r.direction, d, q);
    Rays.MakeRayDirection(Apply(tr, r.origin), d);
    var l := Length(d);
    LengthZero(d);
    var nd := Normalize(d);
    assert Scale(nd, l) == d;
    var back := Quaternions.Rotate(nd, Quaternions.Conjugate(q));
    QuatRotation.RotateLinear(nd, nd, l, Quaternions.Conjugate(q));
    assert Scale(back, l) == r.direction;
    NormalizeOfScaledUnit(r.direction, back, l);
  }

  /** A unit vector does not rotate to zero under a unit quaternion, since the conjugate
      brings it back. */
  lemma RotatedNotZero(v: Vec3, d: Vec3, q: Quaternions.Quat)
    requires IsUnit(v) && Quaternions.SquaredNorm(q) == 1.0
    requires d == Quaternions.Rotate(v, q)
    requires Quaternions.Rotate(d, Quaternions.Conjugate(q)) == v
    ensures d != Zero
  {
    assert Quaternions.Rotate(Zero, Quaternions.Conjugate(q)) == Zero;
    assert v != Zero;
  }

  // ---------------------------------------------------------------- local frames

  /** A valid transform with a unit rotation: the frames the shapes' hit tests work in. */
  predicate Rigid(tr: Transform) {
    Valid(tr) && Quaternions.SquaredNorm(tr.rotation) == 1.0
  }

  /** Taking a ray with a unit direction into a rigid transform's frame only rotates the
      direction, which stays a unit vector. */
  lemma LocalDirection(tr: Transform, r: Rays.Ray)
    requires SqrtLaw()
    requires Rigid(tr) && IsUnit(r.direction)
    ensures ApplyInverseRay(tr, r).direction == Quaternions.Rotate(r.direction, Quaternions.Conjugate(tr.rotation))
    ensures IsUnit(ApplyInverseRay(tr, r).direction)
  {
    var cq := Quaternions.Conjugate(tr.rotation);
    Quaternions.ConjugateInvolution(tr.rotation);
    QuatRotation.RotateLength(r.direction, cq);
    NormalizeOfUnit(Quaternions.Rotate(r.direction, cq));
  }

  /** (a + ls d) i == a i + l d when ls == l s and s i == 1. */
  lemma ScaleBack(a: Vec3, d: Vec3, l: real, s: real, i: real, ls: real)
    requires s * i == 1.0 && ls == l * s
    ensures Scale(Add(a, Scale(d, ls)), i) == Add(Scale(a, i), Scale(d, l))
  {
    assert ls * i == l;
  }

  /** The point at distance l along the local ray is the local image of the point at
      distance l s along the world ray: local distances are world distances divided by the
      scale. */
  lemma LocalPoint(tr: Transform, r: Rays.Ray, l: real, ls: real)
    requires SqrtLaw()
    requires Rigid(tr) && IsUnit(r.direction)
    requires ls == l * tr.scale
    ensures ApplyInverse(tr, Rays.To(r, ls)) == Rays.To(ApplyInverseRay(tr, r), l)
  {
    var cq := Quaternions.Conjugate(tr.rotation);
    var a := Sub(r.origin, tr.translation);
    var b := Scale(r.direction, ls);
    LocalDirection(tr, r);
    assert Sub(Rays.To(r, ls), tr.translation) == Add(a, b);
    QuatRotation.RotateLinear(a, b, ls, cq);
    QuatRotation.RotateLinear(r.direction, a, ls, cq);
    var ra, rd := Quaternions.Rotate(a, cq), Quaternions.Rotate(r.direction, cq);
    assert Quaternions.Rotate(Sub(Rays.To(r, ls), tr.translation), cq) == Add(ra, Scale(rd, ls));
    assert ApplyInverse(tr, Rays.To(r, ls)) == Scale(Add(ra, Scale(rd, ls)), tr.inverseScale);
    ScaleBack(ra, rd, l, tr.scale, tr.inverseScale, ls);
    assert ApplyInverseRay(tr, r).origin == Scale(Quaternions.Rotate(a, cq), tr.inverseScale);
  }

  /** The world normal made from a local normal keeps its length and its angle with the ray
      direction. */
  lemma LocalNormal(tr: Transform, r: Rays.Ray, n: Vec3)
    requires SqrtLaw()
    requires Rigid(tr) && IsUnit(r.direction)
    ensures SquaredLength(Quaternions.Rotate(n, tr.rotation)) == SquaredLength(n)
    ensures Dot(Quaternions.Rotate(n, tr.rotation), r.direction) == Dot(n, ApplyInverseRay(tr, r).direction)
  {
    var q := tr.rotation;
    var cq := Quaternions.Conjugate(q);
    LocalDirection(tr, r);
    Quaternions.ConjugateInvolution(q);
    QuatRotation.RotateConjugate(r.direction, cq);
    QuatRotation.RotateLength(n, q);
    QuatRotation.RotateDot(n, Quaternions.Rotate(r.direction, cq), q);
  }

  /** A transform without rotation or translation only divides the origin by the scale. */
  lemma UnrotatedLocalRay(tr: Transform, r: Rays.Ray)
    requires SqrtLaw()
    requires tr.rotation == Quaternions.Identity && tr.translation == Zero
    requires IsUnit(r.direction)
    ensures ApplyInverseRay(tr, r) == Rays.Ray(Scale(r.origin, tr.inverseScale), r.direction)
  {
    QuatRotation.RotateConjugateIdentity(r.direction, tr.rotation);
    QuatRotation.RotateConjugateIdentity(Sub(r.origin, tr.translation), tr.rotation);
    assert Sub(r.origin, tr.translation) == r.origin;
    NormalizeOfUnit(r.direction);
  }
}
