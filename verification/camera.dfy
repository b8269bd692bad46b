/** The thin-lens camera (src/Camera.hpp): an orthonormal basis built from a viewing
    direction and an up hint, an image plane at the focus distance, and primary rays that
    start on the lens when depth of field is on. */
module Cameras {
  import opened Scalar
  import opened Vectors
  import opened Wrappers
  import opened Rays
  import opened Viewports
  import opened Sampling

  datatype Camera = Camera(
    viewport: Viewport,
    bottomLeft: Vec3,
    horizontal: Vec3,
    vertical: Vec3,
    position: Vec3,
    right: Vec3,
    up: Vec3,
    lensRadius: real,
    depthOfFieldEnabled: bool)

  /** The normalised viewing direction. */
  function Forward(direction: Vec3): Vec3 { Normalize(direction) }

  /** The normalised `direction x up`. */
  function RightOf(direction: Vec3, upHint: Vec3): Vec3 { Normalize(Cross(Forward(direction), upHint)) }

  /** The camera's up: `right x direction`. */
  function UpOf(direction: Vec3, upHint: Vec3): Vec3 { Cross(RightOf(direction, upHint), Forward(direction)) }

  /** Half the height of the image plane at unit distance, `tan(fovY/2)` with fovY in degrees. */
  function HalfHeight(fovY: real): real { Tan(fovY * (Pi / 180.0) * 0.5) }

  /** Half the width of the image plane at unit distance: the half height times the aspect
      ratio. */
  function HalfWidth(fovY: real, viewport: Viewport): real
    requires 0 < viewport.height
  {
    HalfHeight(fovY) * AspectRatio(viewport)
  }

  /** The camera laid out from its basis and the half sizes of the image plane at unit
      distance: the plane sits at the focus distance along the viewing direction. */
  function Layout(viewport: Viewport, position: Vec3, forward: Vec3, right: Vec3, up: Vec3,
                  halfWidth: real, halfHeight: real, aperture: real, focus: real): Camera
  {
    Camera(viewport,
      Add(position, Scale(Add(Sub(Scale(right, -halfWidth), Scale(up, halfHeight)), forward), focus)),
      Scale(right, 2.0 * halfWidth * focus),
      Scale(up, 2.0 * halfHeight * focus),
      position, right, up, aperture * 0.5, true)
  }

  /** `Camera(position, direction, up, fovY, viewport, aperture, focus)`. */
  function MakeCamera(position: Vec3, direction: Vec3, upHint: Vec3, fovY: real, viewport: Viewport, aperture: real, focus: real): Camera
    requires 0 < viewport.height
  {
    Layout(viewport, position, Forward(direction), RightOf(direction, upHint), UpOf(direction, upHint),
      HalfWidth(fovY, viewport), HalfHeight(fovY), aperture, focus)
  }

  /** `setDepthOfFieldEnabled(value)`. */
  function SetDepthOfField(cam: Camera, value: bool): Camera {
    cam.(depthOfFieldEnabled := value)
  }

  /** The point of the image plane at screen coordinates (u, v). */
  function Target(cam: Camera, u: real, v: real): Vec3 {
    Add(Add(cam.bottomLeft, Scale(cam.horizontal, u)), Scale(cam.vertical, v))
  }

  /** The lens offset for a unit-disk sample: the sample scaled by the lens radius, laid out
      along right and up. */
  function LensOffset(cam: Camera, disk: Vec3): Vec3 {
    var sample := Scale(disk, cam.lensRadius);
    Add(Scale(cam.right, sample.x), Scale(cam.up, sample.y))
  }

  /** A primary ray and the draws left in the stream. */
  datatype CameraRay = CameraRay(ray: Ray, rest: seq<real>)

  /** `getRay(u, v, useDepthOfField)`: from the position, or from a random point of the lens
      when both the camera's and the call's depth-of-field flags are set, towards the target;
      none when the stream runs out before the disk sample is accepted. */
  function GetRay(cam: Camera, u: real, v: real, useDepthOfField: bool, rs: seq<real>): Option<CameraRay> {
    if cam.depthOfFieldEnabled && useDepthOfField then
      match SampleUnitDisk(rs)
      case None => None
      case Some(smp) =>
        var start := Add(cam.position, LensOffset(cam, smp.value));
        Some(CameraRay(MakeRay(start, Sub(Target(cam, u, v), start)), smp.rest))
    else
      Some(CameraRay(MakeRay(cam.position, Sub(Target(cam, u, v), cam.position)), rs))
  }

  // ---------------------------------------------------------------- properties

  /** The basis is orthonormal whenever the viewing direction is not parallel to the up hint. */
  predicate Orthonormal(forward: Vec3, right: Vec3, up: Vec3) {
    IsUnit(forward) && IsUnit(right) && IsUnit(up) &&
    Dot(right, forward) == 0.0 && Dot(up, forward) == 0.0 && Dot(right, up) == 0.0
  }

  lemma UnitOrthogonal(c: Vec3, f: Vec3)
    requires SqrtLaw()
    requires c != Zero && Dot(c, f) == 0.0
    ensures IsUnit(Normalize(c)) && Dot(Normalize(c), f) == 0.0
  {
    NormalizeUnit(c);
    LengthZero(c);
    var l := Length(c);
    var n := Normalize(c);
    assert Scale(n, l) == c;
    assert Dot(c, f) == l * Dot(n, f);
    ZeroProduct(l, Dot(n, f));
  }

  /** For a direction that is not parallel to the up hint, right, up and the viewing direction
      form an orthonormal basis. */
  lemma BasisOrthonormal(direction: Vec3, upHint: Vec3)
    requires SqrtLaw()
    requires Cross(Forward(direction), upHint) != Zero
    ensures Orthonormal(Forward(direction), RightOf(direction, upHint), UpOf(direction, upHint))
  {
    RightIsUnit(direction, upHint);
    var f := Forward(direction);
    var right := RightOf(direction, upHint);
    CrossOfOrthonormal(right, f);
    DotSymmetric(UpOf(direction, upHint), right);
  }

  /** The viewing direction and right are orthogonal unit vectors. */
  lemma RightIsUnit(direction: Vec3, upHint: Vec3)
    requires SqrtLaw()
    requires Cross(Forward(direction), upHint) != Zero
    ensures IsUnit(Forward(direction)) && IsUnit(RightOf(direction, upHint))
    ensures Dot(RightOf(direction, upHint), Forward(direction)) == 0.0
  {
    ForwardUnit(direction, upHint);
    CrossForward(Forward(direction), upHint);
    UnitOrthogonal(Cross(Forward(direction), upHint), Forward(direction));
  }

  lemma ForwardUnit(direction: Vec3, upHint: Vec3)
    requires SqrtLaw()
    requires Cross(Forward(direction), upHint) != Zero
    ensures IsUnit(Forward(direction))
  {
    DirectionNonZero(direction, upHint);
    NormalizeUnit(direction);
  }

  /** A zero viewing direction leaves no right vector. */
  lemma DirectionNonZero(direction: Vec3, upHint: Vec3)
    requires Cross(Forward(direction), upHint) != Zero
    ensures direction != Zero
  {
    if direction == Zero {
      CrossOfZero(upHint);
      NormalizeZero();
    }
  }

  lemma CrossForward(f: Vec3, upHint: Vec3)
    ensures Dot(Cross(f, upHint), f) == 0.0
  {
    CrossOrthogonal(f, upHint);
  }

  lemma CrossOfZero(b: Vec3)
    ensures Cross(Zero, b) == Zero
  {
  }

  /** The cross product of orthogonal unit vectors is a unit vector orthogonal to both. */
  lemma CrossOfOrthonormal(a: Vec3, b: Vec3)
    requires IsUnit(a) && IsUnit(b) && Dot(a, b) == 0.0
    ensures IsUnit(Cross(a, b)) && Dot(Cross(a, b), a) == 0.0 && Dot(Cross(a, b), b) == 0.0
  {
    CrossOrthogonal(a, b);
    CrossLength(a, b);
  }

  /** The centre of the screen is the point at the focus distance along the viewing
      direction, (0, 0) is the bottom-left corner, and the lens radius is half the aperture. */
  lemma ScreenCentre(position: Vec3, direction: Vec3, upHint: Vec3, fovY: real, viewport: Viewport, aperture: real, focus: real)
    requires 0 < viewport.height
    ensures Target(MakeCamera(position, direction, upHint, fovY, viewport, aperture, focus), 0.5, 0.5) ==
            Add(position, Scale(Forward(direction), focus))
    ensures Target(MakeCamera(position, direction, upHint, fovY, viewport, aperture, focus), 0.0, 0.0) ==
            MakeCamera(position, direction, upHint, fovY, viewport, aperture, focus).bottomLeft
    ensures MakeCamera(position, direction, upHint, fovY, viewport, aperture, focus).lensRadius * 2.0 == aperture
  {
    LayoutCentre(viewport, position, Forward(direction), RightOf(direction, upHint), UpOf(direction, upHint),
      HalfWidth(fovY, viewport), HalfHeight(fovY), aperture, focus);
  }

  lemma LayoutCentre(viewport: Viewport, position: Vec3, forward: Vec3, right: Vec3, up: Vec3,
                     halfWidth: real, halfHeight: real, aperture: real, focus: real)
    ensures Target(Layout(viewport, position, forward, right, up, halfWidth, halfHeight, aperture, focus), 0.5, 0.5) ==
            Add(position, Scale(forward, focus))
    ensures Target(Layout(viewport, position, forward, right, up, halfWidth, halfHeight, aperture, focus), 0.0, 0.0) ==
            Layout(viewport, position, forward, right, up, halfWidth, halfHeight, aperture, focus).bottomLeft
  {
    PlaneCentre(position, right, up, forward, halfWidth, halfHeight, focus);
  }

  /** The bottom-left corner moved by half the horizontal and half the vertical extent. */
  lemma PlaneCentre(p: Vec3, right: Vec3, up: Vec3, forward: Vec3, halfWidth: real, halfHeight: real, focus: real)
    ensures Add(Add(Add(p, Scale(Add(Sub(Scale(right, -halfWidth), Scale(up, halfHeight)), forward), focus)),
                    Scale(Scale(right, 2.0 * halfWidth * focus), 0.5)),
                Scale(Scale(up, 2.0 * halfHeight * focus), 0.5)) == Add(p, Scale(forward, focus))
  {
    var lhs := Add(Add(Add(p, Scale(Add(Sub(Scale(right, -halfWidth), Scale(up, halfHeight)), forward), focus)),
                       Scale(Scale(right, 2.0 * halfWidth * focus), 0.5)),
                   Scale(Scale(up, 2.0 * halfHeight * focus), 0.5));
    CentreComponent(p.x, right.x, up.x, forward.x, halfWidth, halfHeight, focus);
    CentreComponent(p.y, right.y, up.y, forward.y, halfWidth, halfHeight, focus);
    CentreComponent(p.z, right.z, up.z, forward.z, halfWidth, halfHeight, focus);
    assert lhs.x == p.x + forward.x * focus;
    assert lhs.y == p.y + forward.y * focus;
    assert lhs.z == p.z + forward.z * focus;
  }

  lemma CentreComponent(p: real, r: real, u: real, f: real, hw: real, hh: real, focus: real)
    ensures (p + ((r * -hw - u * hh) + f) * focus) + r * (2.0 * hw * focus) * 0.5 + u * (2.0 * hh * focus) * 0.5 == p + f * focus
  {
    assert ((r * -hw - u * hh) + f) * focus == -(r * hw * focus) - u * hh * focus + f * focus;
    assert r * (2.0 * hw * focus) * 0.5 == r * hw * focus;
    assert u * (2.0 * hh * focus) * 0.5 == u * hh * focus;
  }

  /** Without depth of field, in the camera or in the call, the ray starts at the camera
      position, no draws are used, and the ray passes through the target. */
  lemma PinholeRay(cam: Camera, u: real, v: real, useDepthOfField: bool, rs: seq<real>)
    requires SqrtLaw()
    requires !(cam.depthOfFieldEnabled && useDepthOfField)
    ensures GetRay(cam, u, v, useDepthOfField, rs).Some?
    ensures GetRay(cam, u, v, useDepthOfField, rs).value.ray.origin == cam.position
    ensures GetRay(cam, u, v, useDepthOfField, rs).value.rest == rs
    ensures To(GetRay(cam, u, v, useDepthOfField, rs).value.ray, Length(Sub(Target(cam, u, v), cam.position))) == Target(cam, u, v)
  {
    AimsAt(cam.position, Target(cam, u, v));
  }

  /** The ray from start towards target reaches it after the distance between them. */
  lemma AimsAt(start: Vec3, target: Vec3)
    requires SqrtLaw()
    ensures To(MakeRay(start, Sub(target, start)), Length(Sub(target, start))) == target
  {
    var d := Sub(target, start);
    var l := Length(d);
    if l == 0.0 {
      LengthZero(d);
      assert Scale(Normalize(d), l) == Zero;
    }
  }

  /** With depth of field on, the ray starts on the lens: the position moved within the
      plane of right and up by less than the lens radius (for an orthonormal basis and a
      positive radius), it passes through the same target, and the stream is consumed only
      by the disk sample. */
  lemma LensRay(cam: Camera, u: real, v: real, rs: seq<real>)
    requires SqrtLaw()
    requires cam.depthOfFieldEnabled
    requires GetRay(cam, u, v, true, rs).Some?
    ensures exists disk: Vec3 :: disk.z == 0.0 && SquaredLength(disk) < 1.0 &&
              GetRay(cam, u, v, true, rs).value.ray.origin == Add(cam.position, LensOffset(cam, disk))
    ensures |GetRay(cam, u, v, true, rs).value.rest| + 2 <= |rs|
    ensures To(GetRay(cam, u, v, true, rs).value.ray, Length(Sub(Target(cam, u, v), GetRay(cam, u, v, true, rs).value.ray.origin))) == Target(cam, u, v)
  {
    var smp := SampleUnitDisk(rs).value;
    AimsAt(Add(cam.position, LensOffset(cam, smp.value)), Target(cam, u, v));
  }

  /** A lens offset from a unit-disk sample is shorter than the lens radius when right and up
      are orthonormal. */
  lemma LensOffsetBound(cam: Camera, disk: Vec3)
    requires IsUnit(cam.right) && IsUnit(cam.up) && Dot(cam.right, cam.up) == 0.0
    requires disk.z == 0.0 && SquaredLength(disk) < 1.0 && cam.lensRadius != 0.0
    ensures SquaredLength(LensOffset(cam, disk)) < cam.lensRadius * cam.lensRadius
  {
    var sample := Scale(disk, cam.lensRadius);
    PlaneCombination(cam.right, cam.up, sample.x, sample.y);
    assert sample.z == 0.0;
    assert SquaredLength(LensOffset(cam, disk)) == sample.x * sample.x + sample.y * sample.y;
    assert SquaredLength(LensOffset(cam, disk)) == SquaredLength(sample);
    ScaledLength(disk, cam.lensRadius);
    SquaredLengthSign(disk);
    if cam.lensRadius > 0.0 {
      PositiveProduct(cam.lensRadius, cam.lensRadius, cam.lensRadius * cam.lensRadius);
    } else {
      PositiveProduct(-cam.lensRadius, -cam.lensRadius, cam.lensRadius * cam.lensRadius);
    }
    ShrinkBy(SquaredLength(disk), cam.lensRadius * cam.lensRadius, SquaredLength(sample));
  }

  /** The squared length of a u + b v for orthonormal u and v. */
  lemma PlaneCombination(u: Vec3, v: Vec3, a: real, b: real)
    requires IsUnit(u) && IsUnit(v) && Dot(u, v) == 0.0
    ensures SquaredLength(Add(Scale(u, a), Scale(v, b))) == a * a + b * b
  {
    ShiftedLength(Scale(u, a), v, b);
    DotOfScale(u, v, a);
    ScaledLength(u, a);
  }

  lemma ShrinkBy(q: real, p: real, pq: real)
    requires 0.0 <= q < 1.0 && 0.0 < p && pq == p * q
    ensures pq < p
  {
  }
}
