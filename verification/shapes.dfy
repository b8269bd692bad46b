/** The virtual calls of `Hitable` (src/Hitable.hpp): `hit`, `evaluateSDF`,
    `evaluateNormalFromSDF` and `hitWithSDF`, dispatched to the shape that overrides them or
    to the base class's default. */
module Shapes {
  import opened Scalar
  import opened Vectors
  import opened Wrappers
  import opened Rays
  import opened Hitables
  import Spheres
  import Rects
  import Boxes

  /** `hitable->hit(r, minDist, maxDist, rec)`; none on a miss, when rec is left as it was. */
  function ShapeHit(s: Shape, r: Ray, minDist: real, maxDist: real): (res: Option<HitRecord>)
    requires WellFormed(s)
    ensures res.Some? ==> minDist <= res.value.t <= maxDist && res.value.hitable == Some(s)
    ensures res.Some? && !s.Rect? ==> minDist < res.value.t < maxDist
  {
    match s
    case Sphere(_, _) => Spheres.Hit(s, r, minDist, maxDist)
    case Rect(_, _, _, _) => Rects.Hit(s, r, minDist, maxDist)
    case Box(_, _, _) => Boxes.Hit(s, r, minDist, maxDist)
  }

  /** `hitable->hit` with the rectangle's bounds test as src/Rect.hpp writes it, on the local
      distance (`Rects.HitAsWritten`); spheres and boxes dispatch as in `ShapeHit`. */
  function ShapeHitAsWritten(s: Shape, r: Ray, minDist: real, maxDist: real): Option<HitRecord>
    requires WellFormed(s)
  {
    match s
    case Rect(_, _, _, _) => Rects.HitAsWritten(s, r, minDist, maxDist)
    case _ => ShapeHit(s, r, minDist, maxDist)
  }

  /** The as-written dispatch and the corrected one agree on spheres, on boxes and on
      rectangles of scale 1; they part only on scaled rectangles. */
  lemma ShapeHitAsWrittenAgrees(s: Shape, r: Ray, minDist: real, maxDist: real)
    requires WellFormed(s) && (s.Rect? ==> s.transform.scale == 1.0)
    ensures ShapeHitAsWritten(s, r, minDist, maxDist) == ShapeHit(s, r, minDist, maxDist)
  {
    if s.Rect? {
      Rects.HitAsWrittenUnitScale(s, r, minDist, maxDist);
    }
  }

  /** `evaluateSDF(point)`: the box does not override the default, the largest real. */
  function ShapeSdf(s: Shape, p: Vec3): real
    requires WellFormed(s)
  {
    match s
    case Sphere(_, _) => Spheres.Sdf(s, p)
    case Rect(_, _, _, _) => Rects.Sdf(s, p)
    case Box(_, _, _) => DefaultSdf(p)
  }

  /** `evaluateNormalFromSDF(point, epsilon)`: the box falls back on the central differences
      of its distance function. */
  function ShapeSdfNormal(s: Shape, p: Vec3, epsilon: real): Vec3
    requires WellFormed(s)
  {
    match s
    case Sphere(_, _) => Spheres.SdfNormal(s, p, epsilon)
    case Rect(_, _, _, _) => Rects.SdfNormal(s, p)
    case Box(_, _, _) => GradientNormal(DefaultSdf, p, epsilon)
  }

  /** `hitWithSDF(point, epsilon, rec)`, with the normal evaluated at a tenth of epsilon. */
  function ShapeProbe(s: Shape, p: Vec3, epsilon: real): Probe
    requires WellFormed(s)
  {
    SdfProbe(s, ShapeSdf(s, p), ShapeSdfNormal(s, p, epsilon * 0.1), p, epsilon)
  }

  /** A probe reports the shape's distance value, and it hits exactly when that value is
      within epsilon, recording the point and the shape. */
  lemma ShapeProbeProperties(s: Shape, p: Vec3, epsilon: real)
    requires WellFormed(s)
    ensures ShapeProbe(s, p, epsilon).record.t == ShapeSdf(s, p)
    ensures ShapeProbe(s, p, epsilon).hit <==> Abs(ShapeSdf(s, p)) <= epsilon
    ensures ShapeProbe(s, p, epsilon).hit ==>
            ShapeProbe(s, p, epsilon).record == HitRecord(ShapeSdf(s, p), p, ShapeSdfNormal(s, p, epsilon * 0.1), Some(s))
  {
    SdfProbeProperties(s, ShapeSdf(s, p), ShapeSdfNormal(s, p, epsilon * 0.1), p, epsilon);
  }

  /** A box, which keeps the default distance function, is never found by a probe with
      epsilon below the largest real, and its gradient normal is the zero vector. */
  lemma BoxNeverProbed(s: Shape, p: Vec3, epsilon: real)
    requires s.Box? && WellFormed(s) && epsilon < MaxReal
    ensures !ShapeProbe(s, p, epsilon).hit
    ensures ShapeSdfNormal(s, p, epsilon) == Zero
  {
    GradientOfConstant(DefaultSdf, MaxReal, p, epsilon);
  }

  /** A hit found with a smaller upper bound is the hit found with a larger one. */
  lemma ShapeHitGrow(s: Shape, r: Ray, minDist: real, m1: real, m2: real)
    requires SqrtLaw()
    requires WellFormed(s)
    requires m1 <= m2 && ShapeHit(s, r, minDist, m1).Some?
    ensures ShapeHit(s, r, minDist, m2) == ShapeHit(s, r, minDist, m1)
  {
    match s
    case Sphere(_, _) => Spheres.HitGrow(s, r, minDist, m1, m2);
    case Rect(_, _, _, _) => Rects.HitGrow(s, r, minDist, m1, m2);
    case Box(_, _, _) => Boxes.HitGrow(s, r, minDist, m1, m2);
  }

  /** Lowering the upper bound to above the hit's distance keeps the hit. */
  lemma ShapeHitShrink(s: Shape, r: Ray, minDist: real, m1: real, m2: real)
    requires WellFormed(s)
    requires m1 <= m2 && ShapeHit(s, r, minDist, m2).Some?
    requires ShapeHit(s, r, minDist, m2).value.t < m1
    ensures ShapeHit(s, r, minDist, m1) == ShapeHit(s, r, minDist, m2)
  {
    match s
    case Sphere(_, _) => Spheres.HitShrink(s, r, minDist, m1, m2);
    case Rect(_, _, _, _) => Rects.HitShrink(s, r, minDist, m1, m2);
    case Box(_, _, _) => Boxes.HitShrink(s, r, minDist, m1, m2);
  }
}
