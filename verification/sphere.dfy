/** Spheres (src/Sphere.hpp). The centre is the transform's translation and the radius its
    scale; the rotation plays no part. A ray o + t d meets the sphere where
    a t^2 + 2 b t + c = 0 with a = d.d, b = (o - centre).d and c = |o - centre|^2 - radius^2. */
module Spheres {
  import opened Scalar
  import opened Vectors
  import opened Wrappers
  import opened Rays
  import opened Transforms
  import opened Hitables
  import Materials

  /** `Sphere(center, radius, material)`: the translation set to the centre, the scale to the
      radius. */
  function MakeSphere(center: Vec3, radius: real, m: Materials.Material): Shape {
    Sphere(SetScale(SetTranslation(DefaultTransform, center), radius), Some(m))
  }

  function Center(s: Shape): Vec3 { s.transform.translation }

  function Radius(s: Shape): real { s.transform.scale }

  /** The constructor keeps the centre and a positive radius (a non-positive one becomes 1,
      as `setScale` does), and builds a well-formed sphere from a well-formed material. */
  lemma MakeSphereProperties(center: Vec3, radius: real, m: Materials.Material)
    ensures Center(MakeSphere(center, radius, m)) == center
    ensures 0.0 < radius ==> Radius(MakeSphere(center, radius, m)) == radius
    ensures radius <= 0.0 ==> Radius(MakeSphere(center, radius, m)) == 1.0
    ensures Materials.WellFormed(m) ==> WellFormed(MakeSphere(center, radius, m))
    ensures MaterialOf(HitRecord(0.0, Zero, Zero, Some(MakeSphere(center, radius, m)))) == Some(m)
  {
    var sh := MakeSphere(center, radius, m);
    var s' := if radius <= 0.0 then 1.0 else radius;
    assert sh.transform.scale == s' && sh.transform.inverseScale == 1.0 / s';
    assert Valid(sh.transform);
  }

  // ---------------------------------------------------------------- the quadratic

  /** The coefficients a, b (half the linear one) and c of the ray's quadratic. */
  datatype Quadratic = Quadratic(a: real, b: real, c: real)

  function Coefficients(s: Shape, r: Ray): Quadratic {
    var oc := Sub(r.origin, Center(s));
    Quadratic(Dot(r.direction, r.direction), Dot(oc, r.direction), Dot(oc, oc) - Radius(s) * Radius(s))
  }

  function Discriminant(q: Quadratic): real { q.b * q.b - q.a * q.c }

  function Eval(q: Quadratic, t: real): real { q.a * t * t + 2.0 * q.b * t + q.c }

  /** One coordinate of the point at distance t, squared. */
  lemma CoordinateExpansion(o: real, d: real, t: real, p: real)
    requires p == o + d * t
    ensures p * p == d * d * (t * t) + 2.0 * (o * d) * t + o * o
  {
  }

  /** The squared length of o + t d as a polynomial in t. */
  lemma OffsetExpansion(o: Vec3, d: Vec3, t: real, p: Vec3)
    requires p == Add(o, Scale(d, t))
    ensures SquaredLength(p) == Dot(d, d) * (t * t) + 2.0 * Dot(o, d) * t + Dot(o, o)
  {
    CoordinateExpansion(o.x, d.x, t, p.x);
    CoordinateExpansion(o.y, d.y, t, p.y);
    CoordinateExpansion(o.z, d.z, t, p.z);
    Distribute3(d.x * d.x, d.y * d.y, d.z * d.z, t * t);
    Distribute3(o.x * d.x, o.y * d.y, o.z * d.z, t);
    Doubled(Dot(o, d), t, (o.x * d.x) * t + (o.y * d.y) * t + (o.z * d.z) * t);
  }

  lemma Doubled(a: real, t: real, at: real)
    requires at == a * t
    ensures 2.0 * a * t == 2.0 * at
  {
  }

  lemma Distribute3(x: real, y: real, z: real, k: real)
    ensures (x + y + z) * k == x * k + y * k + z * k
  {
  }

  /** The quadratic measures how far the point at t is from the sphere: it is the squared
      distance to the centre minus the squared radius. */
  lemma CoefficientsMeaning(s: Shape, r: Ray, t: real)
    ensures Eval(Coefficients(s, r), t) == SquaredLength(Sub(To(r, t), Center(s))) - Radius(s) * Radius(s)
  {
    var oc := Sub(r.origin, Center(s));
    var p := Sub(To(r, t), Center(s));
    assert p == Add(oc, Scale(r.direction, t));
    OffsetExpansion(oc, r.direction, t, p);
  }

  /** The quadratic of a ray: a is a squared length, and it is zero only for a zero
      direction, which makes b zero too. */
  predicate Proper(q: Quadratic) {
    0.0 <= q.a && (q.a == 0.0 ==> q.b == 0.0)
  }

  lemma CoefficientsProper(s: Shape, r: Ray)
    ensures Proper(Coefficients(s, r))
  {
    var d := r.direction;
    if d == Zero {
      assert Dot(Sub(r.origin, Center(s)), d) == 0.0;
    } else {
      SquaredLengthSign(d);
      DotSelf(d);
    }
  }

  /** A positive discriminant needs a positive a. */
  lemma ProperLeading(q: Quadratic)
    requires Proper(q) && Discriminant(q) > 0.0
    ensures q.a > 0.0
  {
  }

  // ---------------------------------------------------------------- hit

  /** The root test of `hit`, on the numerators a t + b: the near one -sqrt(disc) if it lies
      strictly between the scaled bounds, else the far one sqrt(disc) if it does. */
  function ChooseRoot(sq: real, lo: real, hi: real): Option<real> {
    if lo < -sq && -sq < hi then Some(-sq)
    else if lo < sq && sq < hi then Some(sq)
    else None
  }

  /** The chosen numerator is one of +-sq and lies strictly between the bounds; none is chosen
      only when neither does. */
  lemma ChooseRootChoice(sq: real, lo: real, hi: real)
    ensures ChooseRoot(sq, lo, hi).Some? ==> lo < ChooseRoot(sq, lo, hi).value < hi
    ensures ChooseRoot(sq, lo, hi).Some? ==> ChooseRoot(sq, lo, hi).value in {sq, -sq}
    ensures ChooseRoot(sq, lo, hi).None? <==> !(lo < -sq < hi) && !(lo < sq < hi)
  {
  }

  /** The numerator a t + b of the root formula t = (-b +- sqrt(disc)) / a at distance t;
      `hit` compares the numerators +-sqrt(disc) against those of the range ends. */
  function Numerator(q: Quadratic, t: real): real { t * q.a + q.b }

  /** The numerator `hit` settles on: none unless the discriminant is positive. */
  function HitRoot(q: Quadratic, minDist: real, maxDist: real): Option<real> {
    if Discriminant(q) <= 0.0 then None
    else ChooseRoot(Sqrt(Discriminant(q)), Numerator(q, minDist), Numerator(q, maxDist))
  }

  /** With a positive discriminant, `hit` chooses between the numerators -sqrt(disc) and
      sqrt(disc). */
  lemma HitRootUnfold(q: Quadratic, minDist: real, maxDist: real)
    requires 0.0 < Discriminant(q)
    ensures HitRoot(q, minDist, maxDist) == ChooseRoot(Sqrt(Discriminant(q)), Numerator(q, minDist), Numerator(q, maxDist))
  {
  }

  /** The distance of a numerator: (-b + numerator) / a. */
  function RootDistance(q: Quadratic, root: real): real
    requires q.a != 0.0
  {
    (-q.b + root) / q.a
  }

  /** Numerators and distances are inverse to each other. */
  lemma NumeratorDistance(q: Quadratic, t: real, root: real)
    requires q.a != 0.0
    ensures RootDistance(q, Numerator(q, t)) == t
    ensures Numerator(q, RootDistance(q, root)) == root
  {
  }

  /** For a positive a, numerators grow with the distance, both ways. */
  lemma NumeratorOrder(q: Quadratic, t1: real, t2: real)
    requires 0.0 < q.a
    ensures t1 < t2 <==> Numerator(q, t1) < Numerator(q, t2)
    ensures t1 <= t2 <==> Numerator(q, t1) <= Numerator(q, t2)
  {
    if t1 < t2 {
      assert Numerator(q, t2) - Numerator(q, t1) == (t2 - t1) * q.a;
      PositiveProduct(t2 - t1, q.a, (t2 - t1) * q.a);
    } else if t2 < t1 {
      assert Numerator(q, t1) - Numerator(q, t2) == (t1 - t2) * q.a;
      PositiveProduct(t1 - t2, q.a, (t1 - t2) * q.a);
    }
  }

  /** A numerator strictly between those of the range ends gives a distance strictly inside
      the range. */
  lemma RootBetween(q: Quadratic, root: real, minDist: real, maxDist: real)
    requires 0.0 < q.a && Numerator(q, minDist) < root < Numerator(q, maxDist)
    ensures minDist < RootDistance(q, root) < maxDist
  {
    NumeratorDistance(q, 0.0, root);
    NumeratorOrder(q, minDist, RootDistance(q, root));
    NumeratorOrder(q, RootDistance(q, root), maxDist);
  }

  /** A chosen numerator has a positive a and a distance strictly inside the range. */
  lemma HitRootRange(q: Quadratic, minDist: real, maxDist: real)
    requires Proper(q) && HitRoot(q, minDist, maxDist).Some?
    ensures q.a > 0.0 && minDist < RootDistance(q, HitRoot(q, minDist, maxDist).value) < maxDist
  {
    ProperLeading(q);
    HitRootUnfold(q, minDist, maxDist);
    ChooseRootChoice(Sqrt(Discriminant(q)), Numerator(q, minDist), Numerator(q, maxDist));
    RootBetween(q, HitRoot(q, minDist, maxDist).value, minDist, maxDist);
  }

  /** The record for a chosen numerator: the distance, the point, and the outward normal
      `(point - center) / radius`. */
  function RootRecord(s: Shape, r: Ray, root: real): HitRecord
    requires Coefficients(s, r).a != 0.0 && Radius(s) != 0.0
  {
    var t := RootDistance(Coefficients(s, r), root);
    var p := To(r, t);
    HitRecord(t, p, DivScalar(Sub(p, Center(s)), Radius(s)), Some(s))
  }

  /** `hit(r, minDist, maxDist, rec)`: nothing unless the discriminant is positive; then the
      nearer root if it is strictly inside the range, else the farther one if it is. */
  function Hit(s: Shape, r: Ray, minDist: real, maxDist: real): (res: Option<HitRecord>)
    requires s.Sphere? && WellFormed(s)
    ensures res.Some? ==> minDist < res.value.t < maxDist && res.value.hitable == Some(s)
  {
    var root := HitRoot(Coefficients(s, r), minDist, maxDist);
    if root.None? then None
    else
      CoefficientsProper(s, r);
      HitRootRange(Coefficients(s, r), minDist, maxDist);
      Some(RootRecord(s, r, root.value))
  }

  /** A chosen numerator squares to the discriminant, so its distance is a root. */
  lemma QuadraticRoot(a: real, b: real, c: real, root: real, t: real)
    requires a != 0.0 && root * root == b * b - a * c && t == (-b + root) / a
    ensures a * t * t + 2.0 * b * t + c == 0.0
  {
    assert t * a == -b + root;
    assert (a * t + b) * (a * t + b) == b * b - a * c;
    assert a * (a * t * t + 2.0 * b * t + c) == 0.0;
    ZeroProduct(a, a * t * t + 2.0 * b * t + c);
  }

  lemma HitRootIsRoot(q: Quadratic, minDist: real, maxDist: real)
    requires SqrtLaw()
    requires Proper(q) && HitRoot(q, minDist, maxDist).Some?
    ensures q.a != 0.0 && Eval(q, RootDistance(q, HitRoot(q, minDist, maxDist).value)) == 0.0
  {
    var root := HitRoot(q, minDist, maxDist).value;
    var sq := Sqrt(Discriminant(q));
    ProperLeading(q);
    assert sq * sq == Discriminant(q);
    assert root * root == sq * sq;
    QuadraticRoot(q.a, q.b, q.c, root, RootDistance(q, root));
  }

  lemma CancelSquare(rad: real, x: real, y: real)
    requires rad != 0.0 && y == rad * rad * x && y == rad * rad
    ensures x == 1.0
  {
    assert rad * (rad * x - rad) == 0.0;
    ZeroProduct(rad, rad * x - rad);
    assert rad * (x - 1.0) == 0.0;
    ZeroProduct(rad, x - 1.0);
  }

  /** A vector that the radius scales to a point of the sphere has unit length. */
  lemma UnitNormal(n: Vec3, d: Vec3, rad: real)
    requires rad != 0.0 && Scale(n, rad) == d && SquaredLength(d) == rad * rad
    ensures IsUnit(n)
  {
    ScaledLength(n, rad);
    CancelSquare(rad, SquaredLength(n), SquaredLength(d));
  }

  /** A hit lies on the sphere, its distance is a root of the quadratic, and its normal has
      unit length. */
  lemma HitOnSurface(s: Shape, r: Ray, minDist: real, maxDist: real)
    requires SqrtLaw()
    requires s.Sphere? && WellFormed(s)
    requires Hit(s, r, minDist, maxDist).Some?
    ensures Eval(Coefficients(s, r), Hit(s, r, minDist, maxDist).value.t) == 0.0
    ensures SquaredLength(Sub(Hit(s, r, minDist, maxDist).value.point, Center(s))) == Radius(s) * Radius(s)
    ensures IsUnit(Hit(s, r, minDist, maxDist).value.normal)
  {
    var rec := Hit(s, r, minDist, maxDist).value;
    CoefficientsProper(s, r);
    HitRootIsRoot(Coefficients(s, r), minDist, maxDist);
    CoefficientsMeaning(s, r, rec.t);
    UnitNormal(rec.normal, Sub(rec.point, Center(s)), Radius(s));
  }

  // ---------------------------------------------------------------- nearest root

  /** The numerator of a root squares to the discriminant. */
  lemma RootNumerator(a: real, b: real, c: real, t: real, e: real)
    requires a * t * t + 2.0 * b * t + c == 0.0 && e == a * t + b
    ensures e * e == b * b - a * c
  {
    assert (a * t + b) * (a * t + b) == a * (a * t * t + 2.0 * b * t + c) + b * b - a * c;
  }

  /** The non-negative square root of e^2 is e or -e, and positive when e is not zero. */
  lemma RootOfSquare(sq: real, e: real)
    requires 0.0 <= sq && sq * sq == e * e && e != 0.0
    ensures 0.0 < sq && (e == sq || e == -sq)
  {
    assert (sq - e) * (sq + e) == 0.0;
    ZeroProduct(sq - e, sq + e);
  }

  /** When one of the numerators +-sq lies inside the bounds, a numerator is chosen and it is
      at most that one. */
  lemma ChooseRootNearest(sq: real, lo: real, hi: real, e: real)
    requires 0.0 < sq && (e == sq || e == -sq) && lo < e < hi
    ensures ChooseRoot(sq, lo, hi).Some? && ChooseRoot(sq, lo, hi).value <= e
  {
  }

  /** A transversal root strictly inside the range is found, or a nearer one is. */
  lemma HitRootNearest(q: Quadratic, minDist: real, maxDist: real, t: real)
    requires SqrtLaw()
    requires Proper(q) && minDist < t < maxDist && Eval(q, t) == 0.0 && Numerator(q, t) != 0.0
    ensures HitRoot(q, minDist, maxDist).Some?
    ensures q.a != 0.0 && RootDistance(q, HitRoot(q, minDist, maxDist).value) <= t
  {
    var e := Numerator(q, t);
    var sq := Sqrt(Discriminant(q));
    RootNumerator(q.a, q.b, q.c, t, e);
    NearestSquareRoot(q, e, sq);
    NearestNumerator(q, minDist, maxDist, t, e, sq);
  }

  /** The same from the numerator e = a t + b of the root, once it is known to be one of the
      two square roots of a positive discriminant. */
  lemma NearestNumerator(q: Quadratic, minDist: real, maxDist: real, t: real, e: real, sq: real)
    requires 0.0 < Discriminant(q) && 0.0 < q.a && sq == Sqrt(Discriminant(q)) && 0.0 < sq
    requires (e == sq || e == -sq) && minDist < t < maxDist && e == Numerator(q, t)
    ensures HitRoot(q, minDist, maxDist).Some?
    ensures q.a != 0.0 && RootDistance(q, HitRoot(q, minDist, maxDist).value) <= t
  {
    HitRootUnfold(q, minDist, maxDist);
    NearestPlain(q, sq, minDist, maxDist, t, e);
  }

  lemma NearestSquareRoot(q: Quadratic, e: real, sq: real)
    requires SqrtLaw()
    requires Proper(q) && Discriminant(q) == e * e && e != 0.0 && sq == Sqrt(Discriminant(q))
    ensures 0.0 < Discriminant(q) && 0.0 < q.a && 0.0 < sq && (e == sq || e == -sq)
  {
    SquareNonNegative(e);
    RootOfSquare(sq, e);
    PositiveProduct(sq, sq, Discriminant(q));
    ProperLeading(q);
  }

  /** Choosing between -sq and sq when one of them, e = a t + b for a distance t strictly
      inside the range, lies inside the scaled bounds. */
  lemma NearestPlain(q: Quadratic, sq: real, minDist: real, maxDist: real, t: real, e: real)
    requires 0.0 < q.a && 0.0 < sq && (e == sq || e == -sq)
    requires minDist < t < maxDist && e == Numerator(q, t)
    ensures ChooseRoot(sq, Numerator(q, minDist), Numerator(q, maxDist)).Some?
    ensures RootDistance(q, ChooseRoot(sq, Numerator(q, minDist), Numerator(q, maxDist)).value) <= t
  {
    var lo, hi := Numerator(q, minDist), Numerator(q, maxDist);
    NumeratorOrder(q, minDist, t);
    NumeratorOrder(q, t, maxDist);
    ChooseRootNearest(sq, lo, hi, e);
    var root := ChooseRoot(sq, lo, hi).value;
    NumeratorDistance(q, t, root);
    NumeratorOrder(q, RootDistance(q, root), t);
  }

  /** The hit is the nearest crossing: whenever the ray crosses the sphere (not tangentially)
      at some distance strictly inside the range, `hit` reports a hit at that distance or
      nearer. */
  lemma HitNearest(s: Shape, r: Ray, minDist: real, maxDist: real, t: real)
    requires SqrtLaw()
    requires s.Sphere? && WellFormed(s)
    requires minDist < t < maxDist
    requires SquaredLength(Sub(To(r, t), Center(s))) == Radius(s) * Radius(s)
    requires Coefficients(s, r).a * t + Coefficients(s, r).b != 0.0
    ensures Hit(s, r, minDist, maxDist).Some?
    ensures Hit(s, r, minDist, maxDist).value.t <= t
  {
    CoefficientsMeaning(s, r, t);
    CoefficientsProper(s, r);
    HitRootNearest(Coefficients(s, r), minDist, maxDist, t);
  }

  // ---------------------------------------------------------------- range consistency

  /** Widening the upper bound keeps a chosen numerator (the near one stays inside; a far one
      was chosen because the near one was at or below the lower bound). */
  lemma ChooseRootGrow(sq: real, lo: real, hi1: real, hi2: real)
    requires 0.0 <= sq && hi1 <= hi2 && ChooseRoot(sq, lo, hi1).Some?
    ensures ChooseRoot(sq, lo, hi2) == ChooseRoot(sq, lo, hi1)
  {
  }

  /** Narrowing the upper bound to just above the chosen numerator keeps it. */
  lemma ChooseRootShrink(sq: real, lo: real, hi1: real, hi2: real)
    requires hi1 <= hi2 && ChooseRoot(sq, lo, hi2).Some?
    requires ChooseRoot(sq, lo, hi2).value < hi1
    ensures ChooseRoot(sq, lo, hi1) == ChooseRoot(sq, lo, hi2)
  {
  }

  /** Widening the upper bound keeps a chosen numerator. */
  lemma HitRootGrow(q: Quadratic, minDist: real, m1: real, m2: real)
    requires SqrtLaw()
    requires 0.0 < q.a && m1 <= m2 && HitRoot(q, minDist, m1).Some?
    ensures HitRoot(q, minDist, m2) == HitRoot(q, minDist, m1)
  {
    HitRootUnfold(q, minDist, m1);
    HitRootUnfold(q, minDist, m2);
    NumeratorOrder(q, m1, m2);
    ChooseRootGrow(Sqrt(Discriminant(q)), Numerator(q, minDist), Numerator(q, m1), Numerator(q, m2));
  }

  /** Narrowing the upper bound to above the chosen numerator's distance keeps it. */
  lemma HitRootShrink(q: Quadratic, minDist: real, m1: real, m2: real)
    requires 0.0 < q.a && m1 <= m2 && HitRoot(q, minDist, m2).Some?
    requires RootDistance(q, HitRoot(q, minDist, m2).value) < m1
    ensures HitRoot(q, minDist, m1) == HitRoot(q, minDist, m2)
  {
    var root := HitRoot(q, minDist, m2).value;
    HitRootUnfold(q, minDist, m1);
    HitRootUnfold(q, minDist, m2);
    NumeratorOrder(q, m1, m2);
    NumeratorDistance(q, m1, root);
    NumeratorOrder(q, RootDistance(q, root), m1);
    ChooseRootShrink(Sqrt(Discriminant(q)), Numerator(q, minDist), Numerator(q, m1), Numerator(q, m2));
  }

  /** A hit found with a smaller upper bound is the hit found with a larger one. */
  lemma HitGrow(s: Shape, r: Ray, minDist: real, m1: real, m2: real)
    requires SqrtLaw()
    requires s.Sphere? && WellFormed(s)
    requires m1 <= m2 && Hit(s, r, minDist, m1).Some?
    ensures Hit(s, r, minDist, m2) == Hit(s, r, minDist, m1)
  {
    CoefficientsProper(s, r);
    HitRootRange(Coefficients(s, r), minDist, m1);
    HitRootGrow(Coefficients(s, r), minDist, m1, m2);
  }

  /** Lowering the upper bound to above the hit's distance keeps the hit. */
  lemma HitShrink(s: Shape, r: Ray, minDist: real, m1: real, m2: real)
    requires s.Sphere? && WellFormed(s)
    requires m1 <= m2 && Hit(s, r, minDist, m2).Some?
    requires Hit(s, r, minDist, m2).value.t < m1
    ensures Hit(s, r, minDist, m1) == Hit(s, r, minDist, m2)
  {
    CoefficientsProper(s, r);
    HitRootRange(Coefficients(s, r), minDist, m2);
    HitRootShrink(Coefficients(s, r), minDist, m1, m2);
  }

  // ---------------------------------------------------------------- signed distance

  /** `evaluateSDF(point)`: distance to the centre minus the radius. */
  function Sdf(s: Shape, p: Vec3): real {
    Length(Sub(p, Center(s))) - Radius(s)
  }

  /** `evaluateNormalFromSDF(point, epsilon)`: the offset from the centre times the reciprocal
      radius; epsilon is not used. */
  function SdfNormal(s: Shape, p: Vec3, epsilon: real): Vec3 {
    Scale(Sub(p, Center(s)), s.transform.inverseScale)
  }

  lemma SqrtCompare(l: real, x: real, rad: real)
    requires 0.0 <= l && l * l == x && 0.0 < rad
    ensures l < rad <==> x < rad * rad
    ensures l == rad <==> x == rad * rad
  {
    if l < rad {
      SquareMonotone(l, rad);
      assert x < rad * rad;
    } else if rad < l {
      SquareMonotone(rad, l);
      assert rad * rad < x;
    } else {
      assert x == rad * rad;
    }
  }

  /** The distance is negative inside the sphere, zero on it and positive outside. */
  lemma SdfSign(s: Shape, p: Vec3)
    requires SqrtLaw()
    requires s.Sphere? && WellFormed(s)
    ensures Sdf(s, p) < 0.0 <==> SquaredLength(Sub(p, Center(s))) < Radius(s) * Radius(s)
    ensures Sdf(s, p) == 0.0 <==> SquaredLength(Sub(p, Center(s))) == Radius(s) * Radius(s)
  {
    var x := SquaredLength(Sub(p, Center(s)));
    SquaredLengthSign(Sub(p, Center(s)));
    SqrtCompare(Length(Sub(p, Center(s))), x, Radius(s));
  }

  /** The two ways of finding a surface agree: the point `hit` reports has distance zero, and
      the distance function's normal there is the normal `hit` reports. */
  lemma HitAgreesWithSdf(s: Shape, r: Ray, minDist: real, maxDist: real, epsilon: real)
    requires SqrtLaw()
    requires s.Sphere? && WellFormed(s)
    requires Hit(s, r, minDist, maxDist).Some?
    ensures Sdf(s, Hit(s, r, minDist, maxDist).value.point) == 0.0
    ensures SdfNormal(s, Hit(s, r, minDist, maxDist).value.point, epsilon) == Hit(s, r, minDist, maxDist).value.normal
  {
    var rec := Hit(s, r, minDist, maxDist).value;
    HitOnSurface(s, r, minDist, maxDist);
    SdfSign(s, rec.point);
    DivScalarIsScale(Sub(rec.point, Center(s)), Radius(s));
    assert s.transform.inverseScale == 1.0 / Radius(s);
  }
}
