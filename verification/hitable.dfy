/** Hitable objects and hit records (src/Hitable.hpp). A hitable has a transform and an
    optional material; the three shapes of the model are the sphere, the rectangle and the box.
    The shape-specific operations are in their own modules and `Shapes` dispatches on them. */
module Hitables {
  import opened Scalar
  import opened Vectors
  import opened Wrappers
  import opened Transforms
  import Rays
  import Materials

  datatype Shape =
    | Sphere(transform: Transform, material: Option<Materials.Material>)
    | Rect(transform: Transform, halfWidth: real, halfHeight: real, material: Option<Materials.Material>)
    | Box(transform: Transform, halfExtents: Vec3, material: Option<Materials.Material>)

  /** What the shape operations need to stay clear of divisions by zero: a positive scale with
      its reciprocal, non-zero half sizes (the rectangle's distance function and the box's hit
      divide by them), and a well-formed material. */
  predicate WellFormed(s: Shape) {
    Valid(s.transform) &&
    (s.Rect? ==> s.halfWidth != 0.0 && s.halfHeight != 0.0) &&
    (s.Box? ==> NoZeroComponent(s.halfExtents)) &&
    (s.material.Some? ==> Materials.WellFormed(s.material.value))
  }

  /** `HitRecord`: the distance along the ray, the point, the surface normal and the object
      that was hit (none until something is hit). */
  datatype HitRecord = HitRecord(t: real, point: Vec3, normal: Vec3, hitable: Option<Shape>)

  /** A shape's hit test works on the ray taken into its frame; distances found there are
      multiplied by the scale to give world distances. */
  function WorldDistance(s: Shape, localT: real): real {
    localT * s.transform.scale
  }

  /** The point a world distance reaches along a ray is, in the shape's frame, the point the
      local distance reaches along the local ray (for a rigid transform and a unit direction). */
  lemma WorldPoint(s: Shape, r: Rays.Ray, localT: real)
    requires SqrtLaw()
    requires Rigid(s.transform) && IsUnit(r.direction)
    ensures ApplyInverse(s.transform, Rays.To(r, WorldDistance(s, localT))) == Rays.To(ApplyInverseRay(s.transform, r), localT)
  {
    LocalPoint(s.transform, r, localT, WorldDistance(s, localT));
  }

  const DefaultRecord: HitRecord := HitRecord(0.0, Zero, Zero, None)

  /** The material of the hit object, `rec.hitable->getMaterial()`; none when nothing was
      hit or the object has no material. */
  function MaterialOf(rec: HitRecord): Option<Materials.Material> {
    if rec.hitable.Some? then rec.hitable.value.material else None
  }

  // ---------------------------------------------------------------- signed distance fields

  /** The outcome of `hitWithSDF`: whether the point is within epsilon of the surface, and the
      record, whose `t` holds the distance value in either case. */
  datatype Probe = Probe(hit: bool, record: HitRecord)

  /** `hitWithSDF(point, epsilon, rec)` given the shape's distance value at the point and its
      normal there: a hit when the value is at most epsilon in magnitude. */
  function SdfProbe(s: Shape, value: real, normal: Vec3, point: Vec3, epsilon: real): Probe {
    if Abs(value) <= epsilon then Probe(true, HitRecord(value, point, normal, Some(s)))
    else Probe(false, DefaultRecord.(t := value))
  }

  /** A probe always reports the distance value, and it hits exactly within epsilon, recording
      the point and the shape. */
  lemma SdfProbeProperties(s: Shape, value: real, normal: Vec3, point: Vec3, epsilon: real)
    ensures SdfProbe(s, value, normal, point, epsilon).record.t == value
    ensures SdfProbe(s, value, normal, point, epsilon).hit <==> -epsilon <= value <= epsilon
    ensures SdfProbe(s, value, normal, point, epsilon).hit ==>
            SdfProbe(s, value, normal, point, epsilon).record == HitRecord(value, point, normal, Some(s))
    ensures SdfProbe(s, value, normal, point, epsilon).hit ==> MaterialOf(SdfProbe(s, value, normal, point, epsilon).record) == s.material
  {
  }

  /** The default `evaluateNormalFromSDF`: central differences of the distance function along
      the three axes, normalised. */
  function GradientNormal(sdf: Vec3 -> real, p: Vec3, epsilon: real): Vec3 {
    var ex, ey, ez := Vec3(epsilon, 0.0, 0.0), Vec3(0.0, epsilon, 0.0), Vec3(0.0, 0.0, epsilon);
    Normalize(Vec3(sdf(Add(p, ex)) - sdf(Sub(p, ex)),
                   sdf(Add(p, ey)) - sdf(Sub(p, ey)),
                   sdf(Add(p, ez)) - sdf(Sub(p, ez))))
  }

  /** The default `evaluateSDF` returns the largest real everywhere. */
  function DefaultSdf(p: Vec3): real { MaxReal }

  /** A constant distance function, such as the default one, has no gradient: the normal is
      the zero vector. */
  lemma GradientOfConstant(sdf: Vec3 -> real, k: real, p: Vec3, epsilon: real)
    requires forall q :: sdf(q) == k
    ensures GradientNormal(sdf, p, epsilon) == Zero
  {
    var ex, ey, ez := Vec3(epsilon, 0.0, 0.0), Vec3(0.0, epsilon, 0.0), Vec3(0.0, 0.0, epsilon);
    var g := Vec3(sdf(Add(p, ex)) - sdf(Sub(p, ex)), sdf(Add(p, ey)) - sdf(Sub(p, ey)), sdf(Add(p, ez)) - sdf(Sub(p, ez)));
    assert g == Zero;
    NormalizeZero();
    assert GradientNormal(sdf, p, epsilon) == Normalize(g);
  }

  /** For the distance to a plane with unit normal n, the central differences recover n. */
  lemma GradientOfPlane(sdf: Vec3 -> real, n: Vec3, k: real, p: Vec3, epsilon: real)
    requires SqrtLaw()
    requires IsUnit(n) && 0.0 < epsilon
    requires forall q :: sdf(q) == Dot(n, q) + k
    ensures GradientNormal(sdf, p, epsilon) == n
  {
    var ex, ey, ez := Vec3(epsilon, 0.0, 0.0), Vec3(0.0, epsilon, 0.0), Vec3(0.0, 0.0, epsilon);
    var g := Vec3(sdf(Add(p, ex)) - sdf(Sub(p, ex)), sdf(Add(p, ey)) - sdf(Sub(p, ey)), sdf(Add(p, ez)) - sdf(Sub(p, ez)));
    PlaneDifference(n, k, p, ex, sdf(Add(p, ex)), sdf(Sub(p, ex)));
    PlaneDifference(n, k, p, ey, sdf(Add(p, ey)), sdf(Sub(p, ey)));
    PlaneDifference(n, k, p, ez, sdf(Add(p, ez)), sdf(Sub(p, ez)));
    assert g == Scale(n, 2.0 * epsilon);
    NormalizeOfScaledUnit(n, g, 1.0 / (2.0 * epsilon));
  }

  /** A central difference of a plane's distance is twice the offset's projection. */
  lemma PlaneDifference(n: Vec3, k: real, p: Vec3, e: Vec3, plus: real, minus: real)
    requires plus == Dot(n, Add(p, e)) + k && minus == Dot(n, Sub(p, e)) + k
    ensures plus - minus == 2.0 * Dot(n, e)
  {
  }
}
