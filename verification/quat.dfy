/** Quaternions (src/Quat.hpp): w is the scalar part, (x, y, z) the vector part. The
    compound assignments are the binary operators applied to the left operand. */
module Quaternions {
  import opened Scalar
  import opened Vectors
  import QuatIdentities

  datatype Quat = Quat(w: real, x: real, y: real, z: real)

  /** The default-constructed quaternion, the identity rotation. */
  const Identity: Quat := Quat(1.0, 0.0, 0.0, 0.0)
  const ZeroQuat: Quat := Quat(0.0, 0.0, 0.0, 0.0)

  /** `Quat(s, v)`: scalar part s, vector part v. */
  function FromScalarVector(s: real, v: Vec3): Quat { Quat(s, v.x, v.y, v.z) }
  function VectorPart(q: Quat): Vec3 { Vec3(q.x, q.y, q.z) }

  lemma FromScalarVectorParts(s: real, v: Vec3)
    ensures FromScalarVector(s, v).w == s && VectorPart(FromScalarVector(s, v)) == v
  {
  }

  // ---------------------------------------------------------------- indexing

  /** `q[i]`: the unsigned index is clamped to 3, so w, x, y, z are 0..3 and every larger
      index reads z. */
  function Index(q: Quat, i: nat): real {
    var j := MinInt(i, 3);
    if j == 0 then q.w else if j == 1 then q.x else if j == 2 then q.y else q.z
  }

  lemma IndexClamps(q: Quat, i: nat)
    ensures Index(q, 0) == q.w && Index(q, 1) == q.x && Index(q, 2) == q.y && Index(q, 3) == q.z
    ensures 3 <= i ==> Index(q, i) == q.z
  {
  }

  // ---------------------------------------------------------------- component-wise operators

  function Neg(q: Quat): Quat { Quat(-q.w, -q.x, -q.y, -q.z) }
  function Add(a: Quat, b: Quat): Quat { Quat(a.w + b.w, a.x + b.x, a.y + b.y, a.z + b.z) }
  function Sub(a: Quat, b: Quat): Quat { Quat(a.w - b.w, a.x - b.x, a.y - b.y, a.z - b.z) }
  function AddScalar(q: Quat, c: real): Quat { Quat(q.w + c, q.x + c, q.y + c, q.z + c) }
  function SubScalar(q: Quat, c: real): Quat { Quat(q.w - c, q.x - c, q.y - c, q.z - c) }
  function Scale(q: Quat, c: real): Quat { Quat(q.w * c, q.x * c, q.y * c, q.z * c) }

  function DivScalar(q: Quat, c: real): (r: Quat)
    requires c != 0.0
    ensures Scale(r, c) == q
  {
    Quat(q.w / c, q.x / c, q.y / c, q.z / c)
  }

  /** `c - q`, written in the source as `-q + c`. */
  function ScalarSub(c: real, q: Quat): Quat { AddScalar(Neg(q), c) }

  /** The scalar operator examples: `(1,-1,0,1) += 1`, then `-= 2`, and `2 - (0,-1,2,3)`;
      then `*= -2` and `/= 2`. */
  lemma ScalarOperatorExamples()
    ensures AddScalar(Quat(1.0, -1.0, 0.0, 1.0), 1.0) == Quat(2.0, 0.0, 1.0, 2.0)
    ensures SubScalar(Quat(2.0, 0.0, 1.0, 2.0), 2.0) == Quat(0.0, -2.0, -1.0, 0.0)
    ensures ScalarSub(2.0, Quat(0.0, -1.0, 2.0, 3.0)) == Quat(2.0, 3.0, 0.0, -1.0)
  {
  }

  lemma ScaleExamples()
    ensures Scale(Quat(0.0, -2.0, -1.0, 0.0), -2.0) == Quat(0.0, 4.0, 2.0, 0.0)
    ensures DivScalar(Quat(0.0, 4.0, 2.0, 0.0), 2.0) == Quat(0.0, 2.0, 1.0, 0.0)
  {
    var d := DivScalar(Quat(0.0, 4.0, 2.0, 0.0), 2.0);
    assert Scale(d, 2.0) == Quat(0.0, 4.0, 2.0, 0.0);
  }

  function MinComponent(q: Quat): (r: real)
    ensures r <= q.w && r <= q.x && r <= q.y && r <= q.z
    ensures r == q.w || r == q.x || r == q.y || r == q.z
  {
    Min(Min(q.w, q.x), Min(q.y, q.z))
  }

  function MaxComponent(q: Quat): (r: real)
    ensures q.w <= r && q.x <= r && q.y <= r && q.z <= r
    ensures r == q.w || r == q.x || r == q.y || r == q.z
  {
    Max(Max(q.w, q.x), Max(q.y, q.z))
  }

  function MinQ(a: Quat, b: Quat): Quat { Quat(Min(a.w, b.w), Min(a.x, b.x), Min(a.y, b.y), Min(a.z, b.z)) }
  function MaxQ(a: Quat, b: Quat): Quat { Quat(Max(a.w, b.w), Max(a.x, b.x), Max(a.y, b.y), Max(a.z, b.z)) }
  function AbsQ(q: Quat): Quat { Quat(Abs(q.w), Abs(q.x), Abs(q.y), Abs(q.z)) }

  /** `closeEnough(a, b, e)`: the largest component difference is strictly below e. */
  function CloseEnoughQ(a: Quat, b: Quat, epsilon: real): (r: bool)
    ensures r <==> (CloseEnough(a.w, b.w, epsilon) && CloseEnough(a.x, b.x, epsilon) &&
                    CloseEnough(a.y, b.y, epsilon) && CloseEnough(a.z, b.z, epsilon))
  {
    MaxComponent(AbsQ(Sub(a, b))) < epsilon
  }

  // ---------------------------------------------------------------- products

  /** The Hamilton product. The source computes it from the dot and cross products of the
      vector parts (see `MulVectorForm`). */
  function Mul(a: Quat, b: Quat): Quat {
    Quat(a.w * b.w - a.x * b.x - a.y * b.y - a.z * b.z,
         a.w * b.x + a.x * b.w + a.y * b.z - a.z * b.y,
         a.w * b.y - a.x * b.z + a.y * b.w + a.z * b.x,
         a.w * b.z + a.x * b.y - a.y * b.x + a.z * b.w)
  }

  // ---------------------------------------------------------------- conjugate and norm

  /** `getConjugate()`, `conjugate()` and the free `conjugate(q)`: the vector part is
      negated and the scalar part kept. */
  function Conjugate(q: Quat): (r: Quat)
    ensures r.w == q.w && VectorPart(r) == Vectors.Neg(VectorPart(q))
  {
    Quat(q.w, -q.x, -q.y, -q.z)
  }

  function SquaredNorm(q: Quat): real { q.w * q.w + q.x * q.x + q.y * q.y + q.z * q.z }

  /** The squared norm is never negative, and zero exactly for the zero quaternion. */
  lemma SquaredNormSign(q: Quat)
    ensures 0.0 <= SquaredNorm(q)
    ensures SquaredNorm(q) == 0.0 <==> q == ZeroQuat
  {
    SumOfSquares4(q.w, q.x, q.y, q.z);
  }

  function Norm(q: Quat): real { Sqrt(SquaredNorm(q)) }

  /** Conjugation is an involution and keeps the norm. */
  lemma ConjugateInvolution(q: Quat)
    ensures Conjugate(Conjugate(q)) == q
    ensures SquaredNorm(Conjugate(q)) == SquaredNorm(q)
  {
  }

  lemma ConjugateExample()
    ensures Conjugate(Quat(1.0, 2.0, 3.0, 4.0)) == Quat(1.0, -2.0, -3.0, -4.0)
    ensures Conjugate(Quat(1.0, 2.0, -3.0, 4.0)) == Quat(1.0, -2.0, 3.0, -4.0)
  {
  }

  /** `(-2,2,-2,2)` has squared norm 16 and norm 4. */
  lemma NormExample()
    requires SqrtLaw()
    ensures SquaredNorm(Quat(-2.0, 2.0, -2.0, 2.0)) == 16.0
    ensures Norm(Quat(-2.0, 2.0, -2.0, 2.0)) == 4.0
  {
    assert SquaredNorm(Quat(-2.0, 2.0, -2.0, 2.0)) == 4.0 * 4.0;
    SqrtOfSquare(4.0);
  }

  // ---------------------------------------------------------------- normalize

  /** `normalized()`, `normalize()` and the free `normalize(q)`: q times 1/|q|, and the
      identity for the zero quaternion. */
  function Normalize(q: Quat): (r: Quat)
    ensures Norm(q) == 0.0 ==> r == Identity
    ensures Norm(q) != 0.0 ==> Scale(r, Norm(q)) == q
  {
    var n := Norm(q);
    if n == 0.0 then Identity
    else
      var r := Scale(q, 1.0 / n);
      assert Scale(r, n) == q by {
        assert r.w * n == q.w && r.x * n == q.x && r.y * n == q.y && r.z * n == q.z;
      }
      r
  }

  // ---------------------------------------------------------------- reciprocal and division

  /** `reciprocal()` and `reciprocate()`: the conjugate divided by the squared norm, and the
      identity when the squared norm is zero. */
  function Reciprocal(q: Quat): (r: Quat)
    ensures SquaredNorm(q) == 0.0 ==> r == Identity
    ensures SquaredNorm(q) != 0.0 ==> Scale(r, SquaredNorm(q)) == Conjugate(q)
  {
    var s := SquaredNorm(q);
    if s == 0.0 then Identity else DivScalar(Conjugate(q), s)
  }

  /** The free `reciprocate(q)`, which multiplies the conjugate by `1/|q|^2` instead of
      dividing, gives the same quaternion. */
  function Reciprocate(q: Quat): (r: Quat)
    ensures r == Reciprocal(q)
  {
    var s := SquaredNorm(q);
    if s == 0.0 then Identity
    else
      var r := Scale(Conjugate(q), 1.0 / s);
      assert r == DivScalar(Conjugate(q), s);
      r
  }

  /** `a / b`, the product with the reciprocal of b. */
  function Div(a: Quat, b: Quat): Quat { Mul(a, Reciprocal(b)) }

  /** `c / q`, the reciprocal of q scaled by c. */
  function ScalarDiv(c: real, q: Quat): Quat { Scale(Reciprocal(q), c) }

  // ---------------------------------------------------------------- dot and lerp

  function Dot(a: Quat, b: Quat): real { a.w * b.w + a.x * b.x + a.y * b.y + a.z * b.z }

  /** `dot(q, q)` is the squared norm, and `dot((1,-1,2,-2), (-2,-1,2,1)) == 1`. */
  lemma DotProperties(q: Quat)
    ensures Dot(q, q) == SquaredNorm(q)
    ensures Dot(Quat(1.0, -1.0, 2.0, -2.0), Quat(-2.0, -1.0, 2.0, 1.0)) == 1.0
  {
  }

  /** `lerp(a, b, t) = (1 - t) a + t b` with t clamped to [0, 1] first. */
  function Lerp(a: Quat, b: Quat, t: real): Quat {
    var c := Clamp(t, 0.0, 1.0);
    Add(Scale(a, 1.0 - c), Scale(b, c))
  }

  lemma LerpBetweenW(a: Quat, b: Quat, t: real)
    ensures Min(a.w, b.w) <= Lerp(a, b, t).w <= Max(a.w, b.w)
    ensures t <= 0.0 ==> Lerp(a, b, t).w == a.w
    ensures 1.0 <= t ==> Lerp(a, b, t).w == b.w
  {
    MixClamped(a.w, b.w, t, Clamp(t, 0.0, 1.0), Lerp(a, b, t).w);
  }

  lemma LerpBetweenX(a: Quat, b: Quat, t: real)
    ensures Min(a.x, b.x) <= Lerp(a, b, t).x <= Max(a.x, b.x)
    ensures t <= 0.0 ==> Lerp(a, b, t).x == a.x
    ensures 1.0 <= t ==> Lerp(a, b, t).x == b.x
  {
    MixClamped(a.x, b.x, t, Clamp(t, 0.0, 1.0), Lerp(a, b, t).x);
  }

  lemma LerpBetweenY(a: Quat, b: Quat, t: real)
    ensures Min(a.y, b.y) <= Lerp(a, b, t).y <= Max(a.y, b.y)
    ensures t <= 0.0 ==> Lerp(a, b, t).y == a.y
    ensures 1.0 <= t ==> Lerp(a, b, t).y == b.y
  {
    MixClamped(a.y, b.y, t, Clamp(t, 0.0, 1.0), Lerp(a, b, t).y);
  }

  lemma LerpBetweenZ(a: Quat, b: Quat, t: real)
    ensures Min(a.z, b.z) <= Lerp(a, b, t).z <= Max(a.z, b.z)
    ensures t <= 0.0 ==> Lerp(a, b, t).z == a.z
    ensures 1.0 <= t ==> Lerp(a, b, t).z == b.z
  {
    MixClamped(a.z, b.z, t, Clamp(t, 0.0, 1.0), Lerp(a, b, t).z);
  }

  /** Every component of a lerp lies between the matching components of a and b, and an
      out-of-range t gives an endpoint. */
  lemma LerpBetween(a: Quat, b: Quat, t: real)
    ensures Min(a.w, b.w) <= Lerp(a, b, t).w <= Max(a.w, b.w)
    ensures Min(a.x, b.x) <= Lerp(a, b, t).x <= Max(a.x, b.x)
    ensures Min(a.y, b.y) <= Lerp(a, b, t).y <= Max(a.y, b.y)
    ensures Min(a.z, b.z) <= Lerp(a, b, t).z <= Max(a.z, b.z)
    ensures t <= 0.0 ==> Lerp(a, b, t) == a
    ensures 1.0 <= t ==> Lerp(a, b, t) == b
  {
    LerpBetweenW(a, b, t);
    LerpBetweenX(a, b, t);
    LerpBetweenY(a, b, t);
    LerpBetweenZ(a, b, t);
  }

  // ---------------------------------------------------------------- axis / angle

  /** `axisAngleToQuat(axis, angle)`: the identity for a zero angle or a zero-length axis,
      otherwise `(cos(angle/2), sin(angle/2) axis/|axis|)`. */
  function AxisAngleToQuat(axis: Vec3, angle: real): (r: Quat)
    ensures angle == 0.0 || Length(axis) == 0.0 ==> r == Identity
    ensures angle != 0.0 && Length(axis) != 0.0 ==>
      r.w == Cos(angle * 0.5) && VectorPart(r) == Vectors.Scale(Vectors.Normalize(axis), Sin(angle * 0.5))
  {
    if angle == 0.0 then Identity
    else
      var len := Length(axis);
      if len == 0.0 then Identity
      else
        var half := angle * 0.5;
        FromScalarVector(Cos(half), Vectors.Scale(Vectors.DivScalar(axis, len), Sin(half)))
  }

  /** |s u|^2 = s^2 |u|^2. */
  lemma SquaredLengthOfScale(u: Vec3, s: real)
    ensures SquaredLength(Vectors.Scale(u, s)) == s * s * SquaredLength(u)
  {
  }

  /** With sin^2 + cos^2 = 1, every rotation quaternion built from an angle and axis is a
      unit quaternion. */
  lemma AxisAngleUnit(axis: Vec3, angle: real)
    requires SqrtLaw() && PythagoreanLaw()
    ensures SquaredNorm(AxisAngleToQuat(axis, angle)) == 1.0
  {
    if angle != 0.0 && Length(axis) != 0.0 {
      var half := angle * 0.5;
      var u := Vectors.Normalize(axis);
      LengthZero(axis);
      Vectors.NormalizeUnit(axis);
      SquaredLengthOfScale(u, Sin(half));
      assert Sin(half) * Sin(half) + Cos(half) * Cos(half) == 1.0;
    }
  }

  /** `getAxisAngle`: angle `2 acos(w)`; the axis is zero when the angle is zero and
      otherwise the vector part divided by `sqrt(1 - w^2)`, which is zero only for w = +-1. */
  function GetAxisAngle(q: Quat): (r: (Vec3, real))
    requires Acos(q.w) != 0.0 ==> Sqrt(1.0 - q.w * q.w) != 0.0
    ensures r.1 == 2.0 * Acos(q.w)
    ensures r.1 == 0.0 <==> r.0 == Vectors.Zero && Acos(q.w) == 0.0
    ensures r.1 != 0.0 ==> Vectors.Scale(r.0, Sqrt(1.0 - q.w * q.w)) == VectorPart(q)
  {
    var angle := 2.0 * Acos(q.w);
    if angle == 0.0 then (Vectors.Zero, angle)
    else (Vectors.DivScalar(VectorPart(q), Sqrt(1.0 - q.w * q.w)), angle)
  }

  /** For |w| < 1 and a non-zero angle, the axis times `sqrt(1 - w^2)` is the vector part,
      so the axis points along it; for a unit quaternion the axis has length 1. */
  lemma AxisAngleAxis(q: Quat)
    requires SqrtLaw() && q.w * q.w < 1.0 && Acos(q.w) != 0.0
    ensures Sqrt(1.0 - q.w * q.w) > 0.0
    ensures Vectors.Scale(GetAxisAngle(q).0, Sqrt(1.0 - q.w * q.w)) == VectorPart(q)
    ensures SquaredNorm(q) == 1.0 ==> SquaredLength(GetAxisAngle(q).0) == 1.0
  {
    var x := 1.0 - q.w * q.w;
    PositiveRoot(Sqrt(x), x);
    AxisOfRoot(q, Sqrt(x));
  }

  /** The axis for a positive root s of `1 - w^2`. */
  lemma AxisOfRoot(q: Quat, s: real)
    requires 0.0 < s && s == Sqrt(1.0 - q.w * q.w) && s * s == 1.0 - q.w * q.w && Acos(q.w) != 0.0
    ensures Vectors.Scale(GetAxisAngle(q).0, s) == VectorPart(q)
    ensures SquaredNorm(q) == 1.0 ==> SquaredLength(GetAxisAngle(q).0) == 1.0
  {
    AxisScaled(q, s);
    if SquaredNorm(q) == 1.0 {
      NormParts(q);
      UnitAxis(VectorPart(q), GetAxisAngle(q).0, s, q.w);
    }
  }

  /** Away from a zero angle the axis is the vector part divided by the root. */
  lemma AxisScaled(q: Quat, s: real)
    requires s == Sqrt(1.0 - q.w * q.w) && 0.0 < s && Acos(q.w) != 0.0
    ensures Vectors.Scale(GetAxisAngle(q).0, s) == VectorPart(q)
  {
  }

  /** The squared norm is w^2 plus the squared length of the vector part. */
  lemma NormParts(q: Quat)
    ensures SquaredNorm(q) == q.w * q.w + SquaredLength(VectorPart(q))
  {
  }

  /** The root of a positive number is positive. */
  lemma PositiveRoot(s: real, x: real)
    requires SqrtLaw() && 0.0 < x && s == Sqrt(x)
    ensures 0.0 < s && s * s == x
  {
    assert 0.0 <= s && s * s == x;
  }

  /** A vector part of squared length `1 - w^2`, divided by `sqrt(1 - w^2)`, has length 1. */
  lemma UnitAxis(v: Vec3, axis: Vec3, s: real, w: real)
    requires 0.0 < s && s * s == 1.0 - w * w && Vectors.Scale(axis, s) == v
    requires w * w + SquaredLength(v) == 1.0
    ensures SquaredLength(axis) == 1.0
  {
    SquaredLengthOfScale(axis, s);
    UnitFactor(s, SquaredLength(axis), SquaredLength(v));
  }

  /** x = s^2 l and x = s^2 with s positive give l = 1. */
  lemma UnitFactor(s: real, l: real, x: real)
    requires 0.0 < s && x == s * s * l && x == s * s
    ensures l == 1.0
  {
    assert s * (s * (l - 1.0)) == 0.0;
    ZeroProduct(s, s * (l - 1.0));
    ZeroProduct(s, l - 1.0);
  }

  // ---------------------------------------------------------------- rotate

  /** `rotate(v, q) = 2 (v.u) u + 2 w (u x v) + (w^2 - |u|^2) v` with u the vector part. */
  function Rotate(v: Vec3, q: Quat): Vec3 {
    var u := VectorPart(q);
    var res := Vectors.Scale(Vectors.Add(Vectors.Scale(u, Vectors.Dot(v, u)), Vectors.Scale(Cross(u, v), q.w)), 2.0);
    Vectors.Add(res, Vectors.Scale(v, q.w * q.w - SquaredLength(u)))
  }

}
