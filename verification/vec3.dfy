/** Three-component real vectors (src/Vec3.hpp), used as points, directions and colours.
    The compound assignments (`+=`, `*=`, ...) are the binary operators below applied to
    the left operand, so they are not modelled separately. */
module Vectors {
  import opened Scalar
  import opened Wrappers

  datatype Vec3 = Vec3(x: real, y: real, z: real)

  /** The default-constructed vector. */
  const Zero: Vec3 := Vec3(0.0, 0.0, 0.0)

  // ---------------------------------------------------------------- component-wise operators

  function Neg(v: Vec3): Vec3 { Vec3(-v.x, -v.y, -v.z) }
  function Add(a: Vec3, b: Vec3): Vec3 { Vec3(a.x + b.x, a.y + b.y, a.z + b.z) }
  function Sub(a: Vec3, b: Vec3): Vec3 { Vec3(a.x - b.x, a.y - b.y, a.z - b.z) }
  function Mul(a: Vec3, b: Vec3): Vec3 { Vec3(a.x * b.x, a.y * b.y, a.z * b.z) }

  predicate NoZeroComponent(v: Vec3) { v.x != 0.0 && v.y != 0.0 && v.z != 0.0 }

  /** Component-wise division; the source divides by a zero component into an infinity,
      which the model excludes. */
  function Div(a: Vec3, b: Vec3): (r: Vec3)
    requires NoZeroComponent(b)
    ensures Mul(r, b) == a
  {
    Vec3(a.x / b.x, a.y / b.y, a.z / b.z)
  }

  /** `v + c`, `v - c`, `v * c`, `v / c` with a scalar on the right. */
  function AddScalar(v: Vec3, c: real): Vec3 { Vec3(v.x + c, v.y + c, v.z + c) }
  function SubScalar(v: Vec3, c: real): Vec3 { Vec3(v.x - c, v.y - c, v.z - c) }
  function Scale(v: Vec3, c: real): Vec3 { Vec3(v.x * c, v.y * c, v.z * c) }

  function DivScalar(v: Vec3, c: real): (r: Vec3)
    requires c != 0.0
    ensures Scale(r, c) == v
  {
    Vec3(v.x / c, v.y / c, v.z / c)
  }

  /** `c - v`, written in the source as `-v + c`. */
  function ScalarSub(c: real, v: Vec3): Vec3 { AddScalar(Neg(v), c) }

  /** `c / v`, component-wise. */
  function ScalarDiv(c: real, v: Vec3): (r: Vec3)
    requires NoZeroComponent(v)
    ensures Mul(r, v) == Vec3(c, c, c)
  {
    Vec3(c / v.x, c / v.y, c / v.z)
  }

  /** `v - c == -(c - v)`: the scalar-left subtraction is the negated right one. */
  lemma ScalarSubNegates(v: Vec3, c: real)
    ensures SubScalar(v, c) == Neg(ScalarSub(c, v))
    ensures ScalarSub(c, v) == Neg(SubScalar(v, c))
  {
  }

  /** `v / 2 == 0.5 / v` does not hold in general; what holds is `v / c == v * (1 / c)`. */
  lemma DivScalarIsScale(v: Vec3, c: real)
    requires c != 0.0
    ensures DivScalar(v, c) == Scale(v, 1.0 / c)
  {
  }

  // ---------------------------------------------------------------- indexing

  /** `v[i]`: the index is taken modulo 3, so any unsigned index is valid. */
  function Index(v: Vec3, i: nat): real {
    match i % 3
    case 0 => v.x
    case 1 => v.y
    case _ => v.z
  }

  lemma IndexWraps(v: Vec3, i: nat)
    ensures Index(v, i + 3) == Index(v, i)
    ensures Index(v, 0) == v.x && Index(v, 1) == v.y && Index(v, 2) == v.z
    ensures Index(v, 3) == v.x
  {
  }

  // ---------------------------------------------------------------- products and lengths

  function Dot(a: Vec3, b: Vec3): real { a.x * b.x + a.y * b.y + a.z * b.z }

  /** Negating one side negates the dot product. */
  lemma DotNeg(a: Vec3, b: Vec3)
    ensures Dot(Neg(a), b) == -Dot(a, b)
  {
    NegProduct(a.x, b.x);
    NegProduct(a.y, b.y);
    NegProduct(a.z, b.z);
  }

  lemma NegProduct(p: real, q: real)
    ensures (-p) * q == -(p * q)
  {
  }

  function SquaredLength(v: Vec3): real { v.x * v.x + v.y * v.y + v.z * v.z }

  /** The squared length is never negative, and zero exactly for the zero vector. */
  lemma SquaredLengthSign(v: Vec3)
    ensures 0.0 <= SquaredLength(v)
    ensures SquaredLength(v) == 0.0 <==> v == Zero
  {
    SumOfSquares3(v.x, v.y, v.z);
  }

  function Length(v: Vec3): real { Sqrt(SquaredLength(v)) }

  predicate IsUnit(v: Vec3) { SquaredLength(v) == 1.0 }

  lemma DotSelf(v: Vec3)
    ensures Dot(v, v) == SquaredLength(v)
  {
  }

  lemma DotSymmetric(a: Vec3, b: Vec3)
    ensures Dot(a, b) == Dot(b, a)
  {
  }

  /** The length of a non-zero vector is positive; of the zero vector, zero. */
  lemma LengthZero(v: Vec3)
    requires SqrtLaw()
    ensures 0.0 <= Length(v)
    ensures Length(v) == 0.0 <==> v == Zero
  {
    SquaredLengthSign(v);
    SqrtZero(SquaredLength(v));
  }

  function Cross(a: Vec3, b: Vec3): Vec3 {
    Vec3(a.y * b.z - a.z * b.y, a.z * b.x - a.x * b.z, a.x * b.y - a.y * b.x)
  }

  /** The cross product is orthogonal to both factors. */
  lemma CrossOrthogonal(a: Vec3, b: Vec3)
    ensures Dot(Cross(a, b), a) == 0.0 && Dot(Cross(a, b), b) == 0.0
  {
  }

  lemma CrossOfAxes()
    ensures Cross(Vec3(1.0, 0.0, 0.0), Vec3(0.0, 1.0, 0.0)) == Vec3(0.0, 0.0, 1.0)
  {
  }

  /** Lagrange's identity: |a x b|^2 = |a|^2 |b|^2 - (a.b)^2. */
  lemma CrossLength(a: Vec3, b: Vec3)
    ensures SquaredLength(Cross(a, b)) == SquaredLength(a) * SquaredLength(b) - Dot(a, b) * Dot(a, b)
  {
  }

  /** Cauchy-Schwarz: (a.b)^2 <= |a|^2 |b|^2, from Lagrange's identity. */
  lemma DotBound(a: Vec3, b: Vec3)
    ensures Dot(a, b) * Dot(a, b) <= SquaredLength(a) * SquaredLength(b)
  {
    CrossLength(a, b);
    SquaredLengthSign(Cross(a, b));
  }

  lemma SquareOfShift(x: real, y: real, c: real)
    ensures (x + y * c) * (x + y * c) == x * x + 2.0 * c * (x * y) + c * c * (y * y)
  {
  }

  /** |x + c y|^2 = |x|^2 + 2c x.y + c^2 |y|^2. */
  lemma ShiftedLength(x: Vec3, y: Vec3, c: real)
    ensures SquaredLength(Add(x, Scale(y, c))) == SquaredLength(x) + 2.0 * c * Dot(x, y) + c * c * SquaredLength(y)
  {
    SquareOfShift(x.x, y.x, c);
    SquareOfShift(x.y, y.y, c);
    SquareOfShift(x.z, y.z, c);
  }

  /** |x + y|^2 = |x|^2 + 2 x.y + |y|^2. */
  lemma SumLength(x: Vec3, y: Vec3)
    ensures SquaredLength(Add(x, y)) == SquaredLength(x) + 2.0 * Dot(x, y) + SquaredLength(y)
  {
    ShiftedLength(x, y, 1.0);
    assert Scale(y, 1.0) == y;
  }

  /** a^2 |u|^2 + b^2 |v|^2 + c^2 |w|^2 + 2ab u.v, given the squared lengths and u.v. */
  function CombinationTerms(a: real, b: real, c: real, su: real, sv: real, sw: real, uv: real): real {
    a * a * su + b * b * sv + c * c * sw + 2.0 * a * b * uv
  }

  /** The squared length of a u + b v + c w for a w orthogonal to both u and v. */
  lemma CombinationLength(u: Vec3, v: Vec3, w: Vec3, a: real, b: real, c: real, r: Vec3)
    requires Dot(w, u) == 0.0 && Dot(w, v) == 0.0
    requires r == Add(Add(Scale(u, a), Scale(v, b)), Scale(w, c))
    ensures SquaredLength(r) == CombinationTerms(a, b, c, SquaredLength(u), SquaredLength(v), SquaredLength(w), Dot(u, v))
  {
    var au := Scale(u, a);
    var p := Add(au, Scale(v, b));
    ShiftedLength(p, w, c);
    DotOfSum(u, v, w, a, b);
    ShiftedLength(au, v, b);
    DotOfScale(u, v, a);
    ScaledLength(u, a);
  }

  lemma DotOfSum(u: Vec3, v: Vec3, w: Vec3, a: real, b: real)
    requires Dot(w, u) == 0.0 && Dot(w, v) == 0.0
    ensures Dot(Add(Scale(u, a), Scale(v, b)), w) == 0.0
  {
    assert Dot(Add(Scale(u, a), Scale(v, b)), w) == a * Dot(w, u) + b * Dot(w, v);
  }

  lemma ScaledLength(u: Vec3, a: real)
    ensures SquaredLength(Scale(u, a)) == a * a * SquaredLength(u)
  {
  }

  // ---------------------------------------------------------------- normalize

  /** `normalize(v)`: v divided by its length, and v itself when the length is zero
      (no error is raised for the zero vector). */
  function Normalize(v: Vec3): (r: Vec3)
    ensures Length(v) == 0.0 ==> r == v
    ensures Length(v) != 0.0 ==> Scale(r, Length(v)) == v
  {
    var l := Length(v);
    if l != 0.0 then DivScalar(v, l) else v
  }

  lemma NormalizeZero()
    ensures Normalize(Zero) == Zero
  {
    var l := Length(Zero);
    if l != 0.0 {
      assert 0.0 / l == 0.0;
      assert DivScalar(Zero, l) == Zero;
    }
  }

  /** A non-zero vector normalises to unit length. */
  lemma NormalizeUnit(v: Vec3)
    requires SqrtLaw()
    requires v != Zero
    ensures IsUnit(Normalize(v))
  {
    var l := Length(v);
    LengthZero(v);
    var r := Normalize(v);
    assert r.x * l == v.x && r.y * l == v.y && r.z * l == v.z;
    assert l * l == SquaredLength(v);
    calc {
      SquaredLength(r) * (l * l);
      (r.x * l) * (r.x * l) + (r.y * l) * (r.y * l) + (r.z * l) * (r.z * l);
      SquaredLength(v);
      1.0 * (l * l);
    }
  }

  /** Normalising a unit vector leaves it unchanged. */
  lemma NormalizeOfUnit(v: Vec3)
    requires SqrtLaw()
    requires IsUnit(v)
    ensures Normalize(v) == v
  {
    SqrtOne();
  }

  /** A normalised vector is either unit or zero. */
  lemma NormalizeUnitOrZero(v: Vec3)
    requires SqrtLaw()
    ensures IsUnit(Normalize(v)) || Normalize(v) == Zero
  {
    if v != Zero {
      NormalizeUnit(v);
    } else {
      NormalizeZero();
    }
  }

  /** Normalising keeps the side of a plane a vector points to. */
  lemma NormalizeKeepsSide(v: Vec3, n: Vec3)
    requires SqrtLaw()
    requires Dot(v, n) > 0.0
    ensures Dot(Normalize(v), n) > 0.0
  {
    var l := Length(v);
    assert v != Zero;
    LengthZero(v);
    var r := Normalize(v);
    DotOfScale(r, n, l);
    PositiveFactor(l, Dot(r, n));
  }

  lemma DotOfScale(r: Vec3, n: Vec3, l: real)
    ensures Dot(Scale(r, l), n) == l * Dot(r, n)
  {
  }

  /** A product with a positive factor is positive only if the other factor is. */
  lemma PositiveFactor(l: real, d: real)
    requires 0.0 < l && 0.0 < l * d
    ensures 0.0 < d
  {
  }

  // ---------------------------------------------------------------- reductions and predicates

  /** `min(v)` and `max(v)`: the smallest / largest component. */
  function MinComponent(v: Vec3): (r: real)
    ensures r <= v.x && r <= v.y && r <= v.z
    ensures r == v.x || r == v.y || r == v.z
  {
    Min(v.x, Min(v.y, v.z))
  }

  function MaxComponent(v: Vec3): (r: real)
    ensures v.x <= r && v.y <= r && v.z <= r
    ensures r == v.x || r == v.y || r == v.z
  {
    Max(v.x, Max(v.y, v.z))
  }

  function MinV(a: Vec3, b: Vec3): Vec3 { Vec3(Min(a.x, b.x), Min(a.y, b.y), Min(a.z, b.z)) }
  function MaxV(a: Vec3, b: Vec3): Vec3 { Vec3(Max(a.x, b.x), Max(a.y, b.y), Max(a.z, b.z)) }
  function AbsV(v: Vec3): Vec3 { Vec3(Abs(v.x), Abs(v.y), Abs(v.z)) }

  /** `closeEnough(a, b, e)`: every component differs by strictly less than e. */
  function CloseEnoughV(a: Vec3, b: Vec3, epsilon: real): (r: bool)
    ensures r <==> CloseEnough(a.x, b.x, epsilon) && CloseEnough(a.y, b.y, epsilon) && CloseEnough(a.z, b.z, epsilon)
  {
    MaxComponent(AbsV(Sub(a, b))) < epsilon
  }

  /** `all(v)`: every component is non-zero; `any(v)`: some component is non-zero. */
  function All(v: Vec3): (r: bool)
    ensures r <==> NoZeroComponent(v)
  {
    v.x != 0.0 && v.y != 0.0 && v.z != 0.0
  }

  function Any(v: Vec3): (r: bool)
    ensures r <==> v != Zero
  {
    v.x != 0.0 || v.y != 0.0 || v.z != 0.0
  }

  /** `sign(v)`: +1 for a positive component and -1 otherwise, zero included. */
  function Sign(v: Vec3): (r: Vec3)
    ensures r.x == 1.0 || r.x == -1.0
    ensures r.y == 1.0 || r.y == -1.0
    ensures r.z == 1.0 || r.z == -1.0
    ensures (r.x == 1.0 <==> 0.0 < v.x) && (r.y == 1.0 <==> 0.0 < v.y) && (r.z == 1.0 <==> 0.0 < v.z)
  {
    Vec3(if v.x > 0.0 then 1.0 else -1.0, if v.y > 0.0 then 1.0 else -1.0, if v.z > 0.0 then 1.0 else -1.0)
  }

  lemma SignOfZero()
    ensures Sign(Zero) == Vec3(-1.0, -1.0, -1.0)
  {
  }

  /** `sqrt(v)`, component-wise. */
  function SqrtV(v: Vec3): Vec3 { Vec3(Sqrt(v.x), Sqrt(v.y), Sqrt(v.z)) }

  lemma SqrtVOfSquares()
    requires SqrtLaw()
    ensures SqrtV(Vec3(4.0, 9.0, 16.0)) == Vec3(2.0, 3.0, 4.0)
  {
    SqrtOfSquare(2.0);
    SqrtOfSquare(3.0);
    SqrtOfSquare(4.0);
  }

  // ---------------------------------------------------------------- lerp

  /** For t in [0, 1] and d >= 0, t d lies in [0, d]. */
  lemma ProductBounds(t: real, d: real)
    requires 0.0 <= t <= 1.0
    requires 0.0 <= d
    ensures 0.0 <= t * d <= d
  {
    assert 0.0 <= (1.0 - t) * d;
  }

  /** The weighted mean m = a (1 - t) + b t of two scalars, for t in [0, 1], lies between
      them, and is a at t = 0 and b at t = 1. */
  lemma MixBetween(a: real, b: real, t: real, m: real)
    requires 0.0 <= t <= 1.0
    requires m == a * (1.0 - t) + b * t
    ensures Min(a, b) <= m <= Max(a, b)
    ensures t == 0.0 ==> m == a
    ensures t == 1.0 ==> m == b
  {
    MixForm(a, b, t, m, t * (b - a));
    if a <= b {
      MixUp(a, b, t, t * (b - a));
    } else {
      MixUp(b, a, t, t * (a - b));
      NegatedProduct(t, b - a, a - b);
    }
  }

  /** The mean is a plus t times the difference. */
  lemma MixForm(a: real, b: real, t: real, m: real, p: real)
    requires m == a * (1.0 - t) + b * t && p == t * (b - a)
    ensures m == a + p
    ensures t == 0.0 ==> p == 0.0
    ensures t == 1.0 ==> p == b - a
  {
  }

  /** From lo <= hi, lo plus a fraction t of the difference stays in [lo, hi]. */
  lemma MixUp(lo: real, hi: real, t: real, p: real)
    requires lo <= hi && 0.0 <= t <= 1.0 && p == t * (hi - lo)
    ensures 0.0 <= p <= hi - lo
  {
    FractionBounds(t, hi - lo, p);
  }

  lemma FractionBounds(t: real, d: real, p: real)
    requires 0.0 <= t <= 1.0 && 0.0 <= d && p == t * d
    ensures 0.0 <= p <= d
  {
    ProductBounds(t, d);
  }

  lemma NegatedProduct(t: real, d: real, e: real)
    requires e == -d
    ensures t * e == -(t * d)
  {
  }

  /** The same mean with t clamped to [0, 1] first: an out-of-range t gives an endpoint. */
  lemma MixClamped(a: real, b: real, t: real, c: real, m: real)
    requires c == Clamp(t, 0.0, 1.0)
    requires m == a * (1.0 - c) + b * c
    ensures Min(a, b) <= m <= Max(a, b)
    ensures t <= 0.0 ==> m == a
    ensures 1.0 <= t ==> m == b
  {
    MixBetween(a, b, c, m);
  }

  /** `lerp(a, b, t) = (1 - t) a + t b` with t clamped to [0, 1] first. */
  function Lerp(a: Vec3, b: Vec3, t: real): Vec3 {
    var c := Clamp(t, 0.0, 1.0);
    Add(Scale(a, 1.0 - c), Scale(b, c))
  }

  /** Every component of a lerp lies between the matching components of a and b, and an
      out-of-range t gives an endpoint. */
  lemma LerpBetween(a: Vec3, b: Vec3, t: real)
    ensures Min(a.x, b.x) <= Lerp(a, b, t).x <= Max(a.x, b.x)
    ensures Min(a.y, b.y) <= Lerp(a, b, t).y <= Max(a.y, b.y)
    ensures Min(a.z, b.z) <= Lerp(a, b, t).z <= Max(a.z, b.z)
    ensures t <= 0.0 ==> Lerp(a, b, t) == a
    ensures 1.0 <= t ==> Lerp(a, b, t) == b
  {
    MixClamped(a.x, b.x, t, Clamp(t, 0.0, 1.0), Lerp(a, b, t).x);
    MixClamped(a.y, b.y, t, Clamp(t, 0.0, 1.0), Lerp(a, b, t).y);
    MixClamped(a.z, b.z, t, Clamp(t, 0.0, 1.0), Lerp(a, b, t).z);
  }

  // ---------------------------------------------------------------- reflect / refract

  /** `reflect(v, n) = v - 2 (v.n) n`; n is meant to be of unit length, and then the normal
      component of v is reversed. */
  function Reflect(v: Vec3, n: Vec3): (r: Vec3)
    ensures IsUnit(n) ==> Dot(r, n) == -Dot(v, n)
  {
    Sub(v, Scale(n, 2.0 * Dot(v, n)))
  }

  /** Reflecting twice about the same unit normal gives the vector back, and reflection
      keeps lengths. */
  lemma ReflectInvolutive(v: Vec3, n: Vec3)
    requires IsUnit(n)
    ensures Reflect(Reflect(v, n), n) == v
    ensures SquaredLength(Reflect(v, n)) == SquaredLength(v)
  {
    var d := Dot(v, n);
    assert Sub(Scale(v, 1.0), Scale(n, 2.0 * d)) == Reflect(v, n);
    SquaredLengthOfCombination(v, n, 1.0, 2.0 * d);
    UndoNormalShift(v, n, 2.0 * d);
  }

  /** Shifting by -c n and then by c n returns the vector. */
  lemma UndoNormalShift(v: Vec3, n: Vec3, c: real)
    ensures Sub(Sub(v, Scale(n, c)), Scale(n, -c)) == v
  {
  }

  lemma ReflectExample()
    ensures Reflect(Vec3(1.0, -1.0, 0.0), Vec3(0.0, 1.0, 0.0)) == Vec3(1.0, 1.0, 0.0)
  {
    var v := Vec3(1.0, -1.0, 0.0);
    var n := Vec3(0.0, 1.0, 0.0);
    assert Dot(v, n) == -1.0 by { }
    assert Scale(n, 2.0 * Dot(v, n)) == Vec3(0.0, -2.0, 0.0) by { }
  }

  /** Discriminant of Snell refraction for ratio eta: `1 - eta^2 (1 - (v.n)^2)`. */
  function RefractDiscriminant(v: Vec3, n: Vec3, eta: real): real {
    var vDotN := Dot(v, n);
    1.0 - eta * eta * (1.0 - vDotN * vDotN)
  }

  /** `refract(v, n, eta, out)`: the refracted direction exactly when the discriminant is
      positive; otherwise the output parameter is not written (None). */
  function Refract(v: Vec3, n: Vec3, eta: real): (r: Option<Vec3>)
    ensures r.Some? <==> RefractDiscriminant(v, n, eta) > 0.0
  {
    var vDotN := Dot(v, n);
    var discriminant := RefractDiscriminant(v, n, eta);
    if discriminant > 0.0 then
      Some(Sub(Scale(Sub(v, Scale(n, vDotN)), eta), Scale(n, Sqrt(discriminant))))
    else
      None
  }

  /** With index ratio 1, a ray entering against the normal passes straight through. */
  lemma RefractRatioOne(v: Vec3, n: Vec3)
    requires SqrtLaw()
    requires Dot(v, n) < 0.0
    ensures Refract(v, n, 1.0) == Some(v)
  {
    var d := Dot(v, n);
    assert RefractDiscriminant(v, n, 1.0) == d * d;
    SqrtOfSquare(d);
    assert Sqrt(d * d) == -d;
    var t := Sub(v, Scale(n, d));
    var disc := RefractDiscriminant(v, n, 1.0);
    assert disc > 0.0 by {
      SquareNonNegative(d);
      if d * d == 0.0 {
        ZeroProduct(d, d);
      }
    }
    assert Refract(v, n, 1.0) == Some(Sub(Scale(t, 1.0), Scale(n, Sqrt(disc))));
    assert Sqrt(disc) == -d;
    assert Scale(t, 1.0) == t;
    assert Sub(t, Scale(n, -d)) == v;
  }

  lemma RefractExample()
    requires SqrtLaw()
    ensures Refract(Vec3(1.0, -1.0, 0.0), Vec3(0.0, 1.0, 0.0), 1.0) == Some(Vec3(1.0, -1.0, 0.0))
  {
    RefractRatioOne(Vec3(1.0, -1.0, 0.0), Vec3(0.0, 1.0, 0.0));
  }

  /** Dot product distributes over a linear combination. */
  lemma DotOfCombination(a: Vec3, b: Vec3, c: Vec3, p: real, q: real)
    ensures Dot(Sub(Scale(a, p), Scale(b, q)), c) == p * Dot(a, c) - q * Dot(b, c)
  {
  }

  /** Expansion of |p a - q b|^2. */
  lemma SquaredLengthOfCombination(a: Vec3, b: Vec3, p: real, q: real)
    ensures SquaredLength(Sub(Scale(a, p), Scale(b, q)))
         == p * p * SquaredLength(a) - 2.0 * p * q * Dot(a, b) + q * q * SquaredLength(b)
  {
  }

  /** Snell's law for a unit normal: the refracted ray's component along the surface is the
      incident one scaled by the index ratio, and for unit v the refracted ray is unit. */
  lemma RefractSnell(v: Vec3, n: Vec3, eta: real)
    requires SqrtLaw()
    requires IsUnit(n)
    requires Refract(v, n, eta).Some?
    ensures var r := Refract(v, n, eta).value;
      Sub(r, Scale(n, Dot(r, n))) == Scale(Sub(v, Scale(n, Dot(v, n))), eta)
    ensures IsUnit(v) ==> IsUnit(Refract(v, n, eta).value)
  {
    var t := Sub(v, Scale(n, Dot(v, n)));
    var disc := RefractDiscriminant(v, n, eta);
    TangentPart(v, n);
    assert disc > 0.0;
    assert Sqrt(disc) * Sqrt(disc) == disc;
    RefractedParts(t, n, eta, Sqrt(disc));
  }

  /** v minus its normal component is orthogonal to a unit normal, and for unit v its squared
      length is `1 - (v.n)^2`. */
  lemma TangentPart(v: Vec3, n: Vec3)
    requires IsUnit(n)
    ensures Dot(Sub(v, Scale(n, Dot(v, n))), n) == 0.0
    ensures IsUnit(v) ==> SquaredLength(Sub(v, Scale(n, Dot(v, n)))) == 1.0 - Dot(v, n) * Dot(v, n)
  {
    var vn := Dot(v, n);
    assert Sub(Scale(v, 1.0), Scale(n, vn)) == Sub(v, Scale(n, vn));
    DotOfCombination(v, n, n, 1.0, vn);
    DotSelf(n);
    SquaredLengthOfCombination(v, n, 1.0, vn);
  }

  /** `eta t - s n` for t orthogonal to a unit n: its normal component is -s, its tangent
      part is `eta t`, and its squared length is `eta^2 |t|^2 + s^2`. */
  lemma RefractedParts(t: Vec3, n: Vec3, eta: real, s: real)
    requires IsUnit(n) && Dot(t, n) == 0.0
    ensures Dot(Sub(Scale(t, eta), Scale(n, s)), n) == -s
    ensures Sub(Sub(Scale(t, eta), Scale(n, s)), Scale(n, Dot(Sub(Scale(t, eta), Scale(n, s)), n))) == Scale(t, eta)
    ensures SquaredLength(Sub(Scale(t, eta), Scale(n, s))) == eta * eta * SquaredLength(t) + s * s
  {
    DotOfCombination(t, n, n, eta, s);
    DotSelf(n);
    AddBackNormal(t, n, eta, s);
    SquaredLengthOfCombination(t, n, eta, s);
  }

  lemma AddBackNormal(t: Vec3, n: Vec3, eta: real, s: real)
    ensures Sub(Sub(Scale(t, eta), Scale(n, s)), Scale(n, -s)) == Scale(t, eta)
  {
  }

  /** If b scaled by a positive l is the unit vector u, then b normalises to u. */
  lemma NormalizeOfScaledUnit(u: Vec3, b: Vec3, l: real)
    requires SqrtLaw()
    requires IsUnit(u) && 0.0 < l && Scale(b, l) == u
    ensures Normalize(b) == u
  {
    var m := 1.0 / l;
    assert b == Scale(u, m);
    assert SquaredLength(b) == m * m;
    SqrtOfSquare(m);
  }
}
