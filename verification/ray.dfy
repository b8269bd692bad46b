/** Rays (Ray.hpp): an origin and a direction, the direction normalised on construction. */
module Rays {
  import opened Scalar
  import opened Vectors

  datatype Ray = Ray(origin: Vec3, direction: Vec3)

  /** `Ray()`: from the origin, looking down the negative z axis. */
  const DefaultRay: Ray := Ray(Zero, Vec3(0.0, 0.0, -1.0))

  /** `Ray(o, d)` stores `normalize(d)`; a zero direction stays zero. */
  function MakeRay(o: Vec3, d: Vec3): Ray {
    Ray(o, Normalize(d))
  }

  /** The stored direction is a unit vector unless the given one was zero, and it points
      the same way as the given one. */
  lemma MakeRayDirection(o: Vec3, d: Vec3)
    requires SqrtLaw()
    ensures MakeRay(o, d).origin == o
    ensures d != Zero ==> IsUnit(MakeRay(o, d).direction)
    ensures d == Zero ==> MakeRay(o, d).direction == Zero
    ensures d != Zero ==> Scale(MakeRay(o, d).direction, Length(d)) == d
  {
    if d != Zero {
      NormalizeUnit(d);
      LengthZero(d);
    } else {
      NormalizeZero();
    }
  }

  /** `to(t)`: the point at parameter t along the ray. */
  function To(r: Ray, t: real): Vec3 {
    Add(r.origin, Scale(r.direction, t))
  }

  /** The ray starts at its origin, advancing the parameter moves the point along the
      direction, and the point at t lies at squared distance t^2 |d|^2 from the origin. */
  lemma ToProperties(r: Ray, s: real, t: real)
    ensures To(r, 0.0) == r.origin
    ensures To(r, s + t) == Add(To(r, s), Scale(r.direction, t))
    ensures SquaredLength(Sub(To(r, t), r.origin)) == t * t * SquaredLength(r.direction)
  {
    assert Sub(To(r, t), r.origin) == Scale(r.direction, t);
  }

  /** The default ray, as exercised in tests/ray.cpp. */
  lemma DefaultRayExample()
    ensures DefaultRay.origin == Zero && DefaultRay.direction == Vec3(0.0, 0.0, -1.0)
    ensures To(DefaultRay, 5.0) == Vec3(0.0, 0.0, -5.0)
  {
  }

  /** The ray from (0, 0, 1) towards -z, as exercised in tests/ray.cpp. */
  lemma MakeRayExample()
    requires SqrtLaw()
    ensures MakeRay(Vec3(0.0, 0.0, 1.0), Vec3(0.0, 0.0, -1.0)).direction == Vec3(0.0, 0.0, -1.0)
    ensures To(MakeRay(Vec3(0.0, 0.0, 1.0), Vec3(0.0, 0.0, -1.0)), 1.0) == Zero
  {
    var d := Vec3(0.0, 0.0, -1.0);
    assert IsUnit(d);
    NormalizeOfUnit(d);
  }
}
