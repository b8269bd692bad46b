/** Algebraic laws of the quaternion operations in `Quaternions`: the Hamilton product is
    associative and bilinear, the conjugate reverses products, the reciprocal is an inverse,
    and the lerp is the source's weighted mean. The polynomial identities behind them are
    proved over plain reals in `QuatIdentities`; the predicate `IsProduct` connects the two. */
module QuatAlgebra {
  import opened Scalar
  import Vectors
  import opened Quaternions
  import QuatIdentities

  /** The product is `(a.w b.w - a.v . b.v, a.w b.v + b.w a.v + a.v x b.v)`, the form the
      source computes. */
  lemma MulVectorForm(a: Quat, b: Quat)
    ensures Mul(a, b).w == a.w * b.w - Vectors.Dot(VectorPart(a), VectorPart(b))
    ensures VectorPart(Mul(a, b))
         == Vectors.Add(Vectors.Add(Vectors.Scale(VectorPart(b), a.w), Vectors.Scale(VectorPart(a), b.w)),
                        Vectors.Cross(VectorPart(a), VectorPart(b)))
  {
    MulIsProduct(a, b);
    VectorFormCore(a, b, VectorPart(a), VectorPart(b), Mul(a, b));
  }

  lemma VectorFormCoreW(a: Quat, b: Quat, u: Vectors.Vec3, v: Vectors.Vec3, p: Quat)
    requires u == Vectors.Vec3(a.x, a.y, a.z) && v == Vectors.Vec3(b.x, b.y, b.z) && IsProduct(a, b, p)
    ensures p.w == a.w * b.w - Vectors.Dot(u, v)
  {
  }

  lemma VectorFormCoreX(a: Quat, b: Quat, u: Vectors.Vec3, v: Vectors.Vec3, p: Quat)
    requires u == Vectors.Vec3(a.x, a.y, a.z) && v == Vectors.Vec3(b.x, b.y, b.z) && IsProduct(a, b, p)
    ensures p.x == Vectors.Add(Vectors.Add(Vectors.Scale(v, a.w), Vectors.Scale(u, b.w)), Vectors.Cross(u, v)).x
  {
  }

  lemma VectorFormCoreY(a: Quat, b: Quat, u: Vectors.Vec3, v: Vectors.Vec3, p: Quat)
    requires u == Vectors.Vec3(a.x, a.y, a.z) && v == Vectors.Vec3(b.x, b.y, b.z) && IsProduct(a, b, p)
    ensures p.y == Vectors.Add(Vectors.Add(Vectors.Scale(v, a.w), Vectors.Scale(u, b.w)), Vectors.Cross(u, v)).y
  {
  }

  lemma VectorFormCoreZ(a: Quat, b: Quat, u: Vectors.Vec3, v: Vectors.Vec3, p: Quat)
    requires u == Vectors.Vec3(a.x, a.y, a.z) && v == Vectors.Vec3(b.x, b.y, b.z) && IsProduct(a, b, p)
    ensures p.z == Vectors.Add(Vectors.Add(Vectors.Scale(v, a.w), Vectors.Scale(u, b.w)), Vectors.Cross(u, v)).z
  {
  }

  lemma VectorFormCore(a: Quat, b: Quat, u: Vectors.Vec3, v: Vectors.Vec3, p: Quat)
    requires u == Vectors.Vec3(a.x, a.y, a.z) && v == Vectors.Vec3(b.x, b.y, b.z) && IsProduct(a, b, p)
    ensures p.w == a.w * b.w - Vectors.Dot(u, v)
    ensures Vectors.Vec3(p.x, p.y, p.z) == Vectors.Add(Vectors.Add(Vectors.Scale(v, a.w), Vectors.Scale(u, b.w)), Vectors.Cross(u, v))
  {
    VectorFormCoreW(a, b, u, v, p);
    VectorFormCoreX(a, b, u, v, p);
    VectorFormCoreY(a, b, u, v, p);
    VectorFormCoreZ(a, b, u, v, p);
  }

  lemma MulIdentity(q: Quat)
    ensures Mul(q, Identity) == q && Mul(Identity, q) == q
  {
  }

  /** p is the Hamilton product of a and b, as four equations between components. The
      algebraic laws below go through this predicate and the plain-real identities of
      `QuatIdentities`. */
  predicate IsProduct(a: Quat, b: Quat, p: Quat) {
    && p.w == a.w * b.w - a.x * b.x - a.y * b.y - a.z * b.z
    && p.x == a.w * b.x + a.x * b.w + a.y * b.z - a.z * b.y
    && p.y == a.w * b.y - a.x * b.z + a.y * b.w + a.z * b.x
    && p.z == a.w * b.z + a.x * b.y - a.y * b.x + a.z * b.w
  }

  lemma MulIsProduct(a: Quat, b: Quat)
    ensures IsProduct(a, b, Mul(a, b))
  {
  }

  lemma AssociativeCoreW(a: Quat, b: Quat, c: Quat, ab: Quat, bc: Quat, l: Quat, r: Quat)
    requires IsProduct(a, b, ab) && IsProduct(b, c, bc) && IsProduct(ab, c, l) && IsProduct(a, bc, r)
    ensures l.w == r.w
  {
    QuatIdentities.AssociativeW(a.w, a.x, a.y, a.z, b.w, b.x, b.y, b.z, c.w, c.x, c.y, c.z,
                                ab.w, ab.x, ab.y, ab.z, bc.w, bc.x, bc.y, bc.z, l.w, r.w);
  }

  lemma AssociativeCoreX(a: Quat, b: Quat, c: Quat, ab: Quat, bc: Quat, l: Quat, r: Quat)
    requires IsProduct(a, b, ab) && IsProduct(b, c, bc) && IsProduct(ab, c, l) && IsProduct(a, bc, r)
    ensures l.x == r.x
  {
    QuatIdentities.AssociativeX(a.w, a.x, a.y, a.z, b.w, b.x, b.y, b.z, c.w, c.x, c.y, c.z,
                                ab.w, ab.x, ab.y, ab.z, bc.w, bc.x, bc.y, bc.z, l.x, r.x);
  }

  lemma AssociativeCoreY(a: Quat, b: Quat, c: Quat, ab: Quat, bc: Quat, l: Quat, r: Quat)
    requires IsProduct(a, b, ab) && IsProduct(b, c, bc) && IsProduct(ab, c, l) && IsProduct(a, bc, r)
    ensures l.y == r.y
  {
    QuatIdentities.AssociativeY(a.w, a.x, a.y, a.z, b.w, b.x, b.y, b.z, c.w, c.x, c.y, c.z,
                                ab.w, ab.x, ab.y, ab.z, bc.w, bc.x, bc.y, bc.z, l.y, r.y);
  }

  lemma AssociativeCoreZ(a: Quat, b: Quat, c: Quat, ab: Quat, bc: Quat, l: Quat, r: Quat)
    requires IsProduct(a, b, ab) && IsProduct(b, c, bc) && IsProduct(ab, c, l) && IsProduct(a, bc, r)
    ensures l.z == r.z
  {
    QuatIdentities.AssociativeZ(a.w, a.x, a.y, a.z, b.w, b.x, b.y, b.z, c.w, c.x, c.y, c.z,
                                ab.w, ab.x, ab.y, ab.z, bc.w, bc.x, bc.y, bc.z, l.z, r.z);
  }

  lemma AssociativeCore(a: Quat, b: Quat, c: Quat, ab: Quat, bc: Quat, l: Quat, r: Quat)
    requires IsProduct(a, b, ab) && IsProduct(b, c, bc) && IsProduct(ab, c, l) && IsProduct(a, bc, r)
    ensures l == r
  {
    AssociativeCoreW(a, b, c, ab, bc, l, r);
    AssociativeCoreX(a, b, c, ab, bc, l, r);
    AssociativeCoreY(a, b, c, ab, bc, l, r);
    AssociativeCoreZ(a, b, c, ab, bc, l, r);
  }

  /** The Hamilton product is associative. */
  lemma MulAssociative(a: Quat, b: Quat, c: Quat)
    ensures Mul(Mul(a, b), c) == Mul(a, Mul(b, c))
  {
    var ab, bc := Mul(a, b), Mul(b, c);
    MulIsProduct(a, b);
    MulIsProduct(b, c);
    MulIsProduct(ab, c);
    MulIsProduct(a, bc);
    AssociativeCore(a, b, c, ab, bc, Mul(ab, c), Mul(a, bc));
  }

  lemma ScaledRightCoreW(a: Quat, b: Quat, c: real, d: Quat, p: Quat, s: Quat)
    requires d == Scale(b, c) && IsProduct(a, b, p) && IsProduct(a, d, s)
    ensures s.w == Scale(p, c).w
  {
    QuatIdentities.ScaledRightW(a.w, a.x, a.y, a.z, b.w, b.x, b.y, b.z, c, d.w, d.x, d.y, d.z, p.w, s.w);
  }

  lemma ScaledRightCoreX(a: Quat, b: Quat, c: real, d: Quat, p: Quat, s: Quat)
    requires d == Scale(b, c) && IsProduct(a, b, p) && IsProduct(a, d, s)
    ensures s.x == Scale(p, c).x
  {
    QuatIdentities.ScaledRightX(a.w, a.x, a.y, a.z, b.w, b.x, b.y, b.z, c, d.w, d.x, d.y, d.z, p.x, s.x);
  }

  lemma ScaledRightCoreY(a: Quat, b: Quat, c: real, d: Quat, p: Quat, s: Quat)
    requires d == Scale(b, c) && IsProduct(a, b, p) && IsProduct(a, d, s)
    ensures s.y == Scale(p, c).y
  {
    QuatIdentities.ScaledRightY(a.w, a.x, a.y, a.z, b.w, b.x, b.y, b.z, c, d.w, d.x, d.y, d.z, p.y, s.y);
  }

  lemma ScaledRightCoreZ(a: Quat, b: Quat, c: real, d: Quat, p: Quat, s: Quat)
    requires d == Scale(b, c) && IsProduct(a, b, p) && IsProduct(a, d, s)
    ensures s.z == Scale(p, c).z
  {
    QuatIdentities.ScaledRightZ(a.w, a.x, a.y, a.z, b.w, b.x, b.y, b.z, c, d.w, d.x, d.y, d.z, p.z, s.z);
  }

  lemma ScaledRightCore(a: Quat, b: Quat, c: real, d: Quat, p: Quat, s: Quat)
    requires d == Scale(b, c) && IsProduct(a, b, p) && IsProduct(a, d, s)
    ensures s == Scale(p, c)
  {
    ScaledRightCoreW(a, b, c, d, p, s);
    ScaledRightCoreX(a, b, c, d, p, s);
    ScaledRightCoreY(a, b, c, d, p, s);
    ScaledRightCoreZ(a, b, c, d, p, s);
  }

  lemma ScaledLeftCoreW(a: Quat, b: Quat, c: real, d: Quat, p: Quat, s: Quat)
    requires d == Scale(a, c) && IsProduct(a, b, p) && IsProduct(d, b, s)
    ensures s.w == Scale(p, c).w
  {
    QuatIdentities.ScaledLeftW(a.w, a.x, a.y, a.z, b.w, b.x, b.y, b.z, c, d.w, d.x, d.y, d.z, p.w, s.w);
  }

  lemma ScaledLeftCoreX(a: Quat, b: Quat, c: real, d: Quat, p: Quat, s: Quat)
    requires d == Scale(a, c) && IsProduct(a, b, p) && IsProduct(d, b, s)
    ensures s.x == Scale(p, c).x
  {
    QuatIdentities.ScaledLeftX(a.w, a.x, a.y, a.z, b.w, b.x, b.y, b.z, c, d.w, d.x, d.y, d.z, p.x, s.x);
  }

  lemma ScaledLeftCoreY(a: Quat, b: Quat, c: real, d: Quat, p: Quat, s: Quat)
    requires d == Scale(a, c) && IsProduct(a, b, p) && IsProduct(d, b, s)
    ensures s.y == Scale(p, c).y
  {
    QuatIdentities.ScaledLeftY(a.w, a.x, a.y, a.z, b.w, b.x, b.y, b.z, c, d.w, d.x, d.y, d.z, p.y, s.y);
  }

  lemma ScaledLeftCoreZ(a: Quat, b: Quat, c: real, d: Quat, p: Quat, s: Quat)
    requires d == Scale(a, c) && IsProduct(a, b, p) && IsProduct(d, b, s)
    ensures s.z == Scale(p, c).z
  {
    QuatIdentities.ScaledLeftZ(a.w, a.x, a.y, a.z, b.w, b.x, b.y, b.z, c, d.w, d.x, d.y, d.z, p.z, s.z);
  }

  lemma ScaledLeftCore(a: Quat, b: Quat, c: real, d: Quat, p: Quat, s: Quat)
    requires d == Scale(a, c) && IsProduct(a, b, p) && IsProduct(d, b, s)
    ensures s == Scale(p, c)
  {
    ScaledLeftCoreW(a, b, c, d, p, s);
    ScaledLeftCoreX(a, b, c, d, p, s);
    ScaledLeftCoreY(a, b, c, d, p, s);
    ScaledLeftCoreZ(a, b, c, d, p, s);
  }

  /** The product scales with each factor. */
  lemma MulScale(a: Quat, b: Quat, c: real)
    ensures Mul(a, Scale(b, c)) == Scale(Mul(a, b), c)
    ensures Mul(Scale(a, c), b) == Scale(Mul(a, b), c)
  {
    MulIsProduct(a, b);
    MulIsProduct(a, Scale(b, c));
    MulIsProduct(Scale(a, c), b);
    ScaledRightCore(a, b, c, Scale(b, c), Mul(a, b), Mul(a, Scale(b, c)));
    ScaledLeftCore(a, b, c, Scale(a, c), Mul(a, b), Mul(Scale(a, c), b));
  }

  /** Multiplying by a real quaternion (s, 0, 0, 0) on either side scales. */
  lemma MulByReal(p: Quat, s: real)
    ensures Mul(Quat(s, 0.0, 0.0, 0.0), p) == Scale(p, s)
    ensures Mul(p, Quat(s, 0.0, 0.0, 0.0)) == Scale(p, s)
  {
  }

  /** q* q = q q* = |q|^2, a real quaternion. */
  lemma MulConjugate(q: Quat)
    ensures Mul(q, Conjugate(q)) == Quat(SquaredNorm(q), 0.0, 0.0, 0.0)
    ensures Mul(Conjugate(q), q) == Quat(SquaredNorm(q), 0.0, 0.0, 0.0)
  {
  }

  /** The conjugate of a product is the product of the conjugates in reverse order. */
  lemma ConjugateOfProduct(a: Quat, b: Quat)
    ensures Conjugate(Mul(a, b)) == Mul(Conjugate(b), Conjugate(a))
  {
    MulIsProduct(a, b);
    MulIsProduct(Conjugate(b), Conjugate(a));
    ConjugateCoreW(a, b, Mul(a, b), Mul(Conjugate(b), Conjugate(a)));
    ConjugateCoreX(a, b, Mul(a, b), Mul(Conjugate(b), Conjugate(a)));
    ConjugateCoreY(a, b, Mul(a, b), Mul(Conjugate(b), Conjugate(a)));
    ConjugateCoreZ(a, b, Mul(a, b), Mul(Conjugate(b), Conjugate(a)));
  }

  lemma ConjugateCoreW(a: Quat, b: Quat, p: Quat, s: Quat)
    requires IsProduct(a, b, p) && IsProduct(Conjugate(b), Conjugate(a), s)
    ensures s.w == p.w
  {
  }

  lemma ConjugateCoreX(a: Quat, b: Quat, p: Quat, s: Quat)
    requires IsProduct(a, b, p) && IsProduct(Conjugate(b), Conjugate(a), s)
    ensures s.x == -p.x
  {
  }

  lemma ConjugateCoreY(a: Quat, b: Quat, p: Quat, s: Quat)
    requires IsProduct(a, b, p) && IsProduct(Conjugate(b), Conjugate(a), s)
    ensures s.y == -p.y
  {
  }

  lemma ConjugateCoreZ(a: Quat, b: Quat, p: Quat, s: Quat)
    requires IsProduct(a, b, p) && IsProduct(Conjugate(b), Conjugate(a), s)
    ensures s.z == -p.z
  {
  }

  /** Scaling every component by n scales the squared norm by n^2. */
  lemma SquaredNormOfScaled(r: Quat, q: Quat, n: real)
    requires r.w * n == q.w && r.x * n == q.x && r.y * n == q.y && r.z * n == q.z
    ensures SquaredNorm(r) * (n * n) == SquaredNorm(q)
  {
  }

  /** A non-zero quaternion normalises to unit norm; zero gives the identity. */
  lemma NormalizeUnit(q: Quat)
    requires SqrtLaw()
    ensures SquaredNorm(Normalize(q)) == 1.0
    ensures q == ZeroQuat <==> Normalize(q) == Identity && Norm(q) == 0.0
  {
    NormalizeSquaredNorm(q);
    NormalizeZero(q);
    NormalizeDegenerate(q);
  }

  lemma NormalizeSquaredNorm(q: Quat)
    requires SqrtLaw()
    ensures SquaredNorm(Normalize(q)) == 1.0
  {
    if Norm(q) != 0.0 {
      UnitAfterScaling(Normalize(q), q, Norm(q));
    }
  }

  lemma NormalizeDegenerate(q: Quat)
    ensures Norm(q) == 0.0 ==> Normalize(q) == Identity
  {
  }

  lemma NormalizeZero(q: Quat)
    requires SqrtLaw()
    ensures q == ZeroQuat <==> Norm(q) == 0.0
  {
    SquaredNormSign(q);
    SqrtZero(SquaredNorm(q));
  }

  lemma UnitAfterScaling(r: Quat, q: Quat, n: real)
    requires SqrtLaw()
    requires n == Norm(q) && n != 0.0 && Scale(r, n) == q
    ensures SquaredNorm(r) == 1.0
  {
    SquaredNormSign(q);
    SquaredNormOfScaled(r, q, n);
    CancelSquare(SquaredNorm(r), n, SquaredNorm(q));
  }

  /** m n^2 == t and n^2 == t with n non-zero force m == 1. */
  lemma CancelSquare(m: real, n: real, t: real)
    requires m * (n * n) == t && n * n == t && n != 0.0
    ensures m == 1.0
  {
    assert ((m - 1.0) * n) * n == 0.0;
    ZeroProduct((m - 1.0) * n, n);
    ZeroProduct(m - 1.0, n);
  }

  /** A non-zero quaternion times its reciprocal, on either side, is the identity. */
  lemma MulReciprocal(q: Quat)
    requires q != ZeroQuat
    ensures Mul(q, Reciprocal(q)) == Identity
    ensures Mul(Reciprocal(q), q) == Identity
  {
    SquaredNormSign(q);
    var s := SquaredNorm(q);
    var r := Reciprocal(q);
    ReciprocalIsScaledConjugate(q);
    MulScale(q, Conjugate(q), 1.0 / s);
    MulScale(Conjugate(q), q, 1.0 / s);
    MulConjugate(q);
    InverseScale(s);
  }

  lemma ReciprocalIsScaledConjugate(q: Quat)
    requires SquaredNorm(q) != 0.0
    ensures Reciprocal(q) == Scale(Conjugate(q), 1.0 / SquaredNorm(q))
  {
  }

  lemma InverseScale(s: real)
    requires s != 0.0
    ensures Scale(Quat(s, 0.0, 0.0, 0.0), 1.0 / s) == Identity
  {
  }

  /** `(1,-1,1,-1)^-1 == (0.25,0.25,-0.25,0.25)`, and the zero quaternion's reciprocal is
      the identity. */
  lemma ReciprocalExamples()
    ensures Reciprocal(Quat(1.0, -1.0, 1.0, -1.0)) == Quat(0.25, 0.25, -0.25, 0.25)
    ensures Reciprocal(ZeroQuat) == Identity
  {
    assert SquaredNorm(Quat(1.0, -1.0, 1.0, -1.0)) == 4.0;
    ReciprocalIsScaledConjugate(Quat(1.0, -1.0, 1.0, -1.0));
    assert SquaredNorm(ZeroQuat) == 0.0;
  }

  /** `a / b` undoes multiplication by a non-zero b; dividing by zero leaves a unchanged,
      because the reciprocal of zero is the identity. */
  lemma DivInverse(a: Quat, b: Quat)
    ensures b != ZeroQuat ==> Mul(Div(a, b), b) == a
    ensures b == ZeroQuat ==> Div(a, b) == a
  {
    MulIdentity(a);
    if b != ZeroQuat {
      MulReciprocal(b);
      MulAssociative(a, Reciprocal(b), b);
    }
  }

  /** `q / q` is the identity for a non-zero q, and zero for zero. */
  lemma DivSelf(q: Quat)
    ensures q != ZeroQuat ==> Div(q, q) == Identity
    ensures Div(ZeroQuat, ZeroQuat) == ZeroQuat
  {
    MulIdentity(ZeroQuat);
    if q != ZeroQuat {
      MulReciprocal(q);
    }
  }

  /** `c / q` times q is the real quaternion c for a non-zero q; for zero it is c. */
  lemma ScalarDivInverse(c: real, q: Quat)
    ensures q != ZeroQuat ==> Mul(ScalarDiv(c, q), q) == Quat(c, 0.0, 0.0, 0.0)
    ensures q == ZeroQuat ==> ScalarDiv(c, q) == Quat(c, 0.0, 0.0, 0.0)
  {
    if q != ZeroQuat {
      MulReciprocal(q);
      MulScale(Reciprocal(q), q, c);
    }
  }
}
