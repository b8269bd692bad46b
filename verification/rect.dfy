/** Rectangles (src/Rect.hpp). In its own frame a rectangle lies in the plane z = 0, centred
    on the origin, with half extents `halfWidth` along x and `halfHeight` along y; its
    transform places it in the world. The hit test works on the ray taken into that frame, so
    its steps are stated on an arbitrary local ray ("in frame") and the world versions supply
    `LocalRay`. */
module Rects {
  import opened Scalar
  import opened Vectors
  import opened Wrappers
  import opened Rays
  import opened Transforms
  import opened Hitables
  import Quaternions
  import QuatRotation
  import Materials

  /** `Rect(transform, width, height, material)`: the half extents are half the given sizes. */
  function MakeRect(tr: Transform, width: real, height: real, m: Materials.Material): Shape {
    Rect(tr, width * 0.5, height * 0.5, Some(m))
  }

  /** The constructed rectangle is as wide and as high as asked, and it is well-formed exactly
      when its transform and material are and neither size is zero. */
  lemma MakeRectProperties(tr: Transform, width: real, height: real, m: Materials.Material)
    ensures 2.0 * MakeRect(tr, width, height, m).halfWidth == width
    ensures 2.0 * MakeRect(tr, width, height, m).halfHeight == height
    ensures WellFormed(MakeRect(tr, width, height, m)) <==>
            Valid(tr) && width != 0.0 && height != 0.0 && Materials.WellFormed(m)
    ensures MaterialOf(HitRecord(0.0, Zero, Zero, Some(MakeRect(tr, width, height, m)))) == Some(m)
  {
  }

  // ---------------------------------------------------------------- hit

  /** The ray in the rectangle's frame. */
  function LocalRay(s: Shape, r: Ray): Ray {
    ApplyInverseRay(s.transform, r)
  }

  /** The distance along a local ray to the plane z = 0. A ray parallel to the plane has none
      (the source divides by zero there). */
  function PlaneDistance(local: Ray): Option<real> {
    if local.direction.z == 0.0 then None else Some(-local.origin.z / local.direction.z)
  }

  /** A local point lies within the rectangle's extents, edges included. */
  predicate Within(s: Shape, q: Vec3)
    requires s.Rect?
  {
    -s.halfWidth <= q.x <= s.halfWidth && -s.halfHeight <= q.y <= s.halfHeight
  }

  /** A world point lies on the rectangle: in its plane and within its extents. */
  predicate OnRect(s: Shape, p: Vec3)
    requires s.Rect?
  {
    var q := ApplyInverse(s.transform, p);
    q.z == 0.0 && Within(s, q)
  }

  /** The local normal faces the incoming ray: -z for a ray travelling up, +z otherwise. */
  function FaceNormal(direction: Vec3): Vec3 {
    Vec3(0.0, 0.0, if direction.z > 0.0 then -1.0 else 1.0)
  }

  /** The record of a hit at distance `localT` along the local ray. */
  function RectRecord(s: Shape, r: Ray, local: Ray, localT: real): HitRecord {
    var t := WorldDistance(s, localT);
    HitRecord(t, To(r, t), Quaternions.Rotate(FaceNormal(local.direction), s.transform.rotation), Some(s))
  }

  /** The test of `hit` as written, given the local ray: the LOCAL distance is compared with
      the world bounds, and only afterwards multiplied by the scale. */
  function AsWrittenInFrame(s: Shape, r: Ray, local: Ray, minDist: real, maxDist: real): Option<HitRecord>
    requires s.Rect?
  {
    var lt := PlaneDistance(local);
    if lt.None? || lt.value < minDist || lt.value > maxDist then None
    else if !Within(s, To(local, lt.value)) then None
    else Some(RectRecord(s, r, local, lt.value))
  }

  /** `hit(r, minDist, maxDist, rec)` as written. */
  function HitAsWritten(s: Shape, r: Ray, minDist: real, maxDist: real): Option<HitRecord>
    requires s.Rect?
  {
    AsWrittenInFrame(s, r, LocalRay(s, r), minDist, maxDist)
  }

  /** The test of `hit` given the local ray, with the bounds applied to the world distance as
      every other shape does. Both bounds are inclusive. */
  function HitInFrame(s: Shape, r: Ray, local: Ray, minDist: real, maxDist: real): (res: Option<HitRecord>)
    requires s.Rect? && WellFormed(s)
    ensures res.Some? ==> minDist <= res.value.t <= maxDist && res.value.hitable == Some(s)
  {
    var lt := PlaneDistance(local);
    if lt.None? then None
    else
      var t := WorldDistance(s, lt.value);
      if t < minDist || t > maxDist then None
      else if !Within(s, To(local, lt.value)) then None
      else Some(RectRecord(s, r, local, lt.value))
  }

  /** `hit(r, minDist, maxDist, rec)` with the corrected bound test. */
  function Hit(s: Shape, r: Ray, minDist: real, maxDist: real): (res: Option<HitRecord>)
    requires s.Rect? && WellFormed(s)
    ensures res.Some? ==> minDist <= res.value.t <= maxDist && res.value.hitable == Some(s)
  {
    HitInFrame(s, r, LocalRay(s, r), minDist, maxDist)
  }

  // ---------------------------------------------------------------- hit, in the frame

  /** A hit lies in the plane, within the extents, at the local ray's plane distance, and its
      local normal faces against the local ray. */
  lemma InFrameFacts(s: Shape, r: Ray, local: Ray, minDist: real, maxDist: real)
    requires s.Rect? && WellFormed(s)
    requires HitInFrame(s, r, local, minDist, maxDist).Some?
    ensures PlaneDistance(local).Some?
    ensures HitInFrame(s, r, local, minDist, maxDist).value == RectRecord(s, r, local, PlaneDistance(local).value)
    ensures To(local, PlaneDistance(local).value).z == 0.0
    ensures Within(s, To(local, PlaneDistance(local).value))
    ensures Dot(FaceNormal(local.direction), local.direction) < 0.0
  {
    var lt := PlaneDistance(local).value;
    InFrameUnfold(s, r, local, minDist, maxDist, lt);
    PlaneHit(local, lt);
    FacesAgainst(local.direction);
  }

  /** The plane distance reaches the plane z = 0. */
  lemma PlaneHit(local: Ray, lt: real)
    requires PlaneDistance(local) == Some(lt)
    ensures To(local, lt).z == 0.0
  {
    var d := local.direction;
    assert -local.origin.z / d.z * d.z == -local.origin.z;
  }

  /** The face normal points against any direction that is not parallel to the plane. */
  lemma FacesAgainst(d: Vec3)
    requires d.z != 0.0
    ensures Dot(FaceNormal(d), d) < 0.0
  {
  }

  /** Conversely, a local ray that is not parallel to the plane and reaches a point of the
      rectangle at a world distance within the bounds hits it there. */
  lemma InFrameComplete(s: Shape, r: Ray, local: Ray, minDist: real, maxDist: real, lt: real)
    requires s.Rect? && WellFormed(s)
    requires local.direction.z != 0.0
    requires To(local, lt).z == 0.0 && Within(s, To(local, lt))
    requires minDist <= WorldDistance(s, lt) <= maxDist
    ensures HitInFrame(s, r, local, minDist, maxDist) == Some(RectRecord(s, r, local, lt))
  {
    var o, d := local.origin, local.direction;
    assert o.z + d.z * lt == 0.0;
    assert lt == -o.z / d.z;
  }

  /** Past the plane-distance step, the code as written keeps a hit exactly when the local
      distance is within the bounds and the point within the extents. */
  lemma AsWrittenUnfold(s: Shape, r: Ray, local: Ray, minDist: real, maxDist: real, lt: real)
    requires s.Rect? && PlaneDistance(local) == Some(lt)
    ensures AsWrittenInFrame(s, r, local, minDist, maxDist) ==
            if minDist <= lt <= maxDist && Within(s, To(local, lt)) then Some(RectRecord(s, r, local, lt)) else None
  {
  }

  /** Past the plane-distance step, the corrected test keeps a hit exactly when the world
      distance is within the bounds and the point within the extents. */
  lemma InFrameUnfold(s: Shape, r: Ray, local: Ray, minDist: real, maxDist: real, lt: real)
    requires s.Rect? && WellFormed(s) && PlaneDistance(local) == Some(lt)
    ensures HitInFrame(s, r, local, minDist, maxDist) ==
            if minDist <= WorldDistance(s, lt) <= maxDist && Within(s, To(local, lt)) then Some(RectRecord(s, r, local, lt)) else None
  {
  }

  /** Multiplying by a positive factor keeps the order. */
  lemma ScaleOrder(a: real, b: real, k: real, ak: real, bk: real)
    requires 0.0 < k && ak == a * k && bk == b * k
    ensures a < b <==> ak < bk
  {
    if a < b {
      PositiveProduct(b - a, k, bk - ak);
    } else if b < a {
      PositiveProduct(a - b, k, ak - bk);
    }
  }

  /** The code as written tests the world distance against the bounds multiplied by the
      scale: the bounds only mean what they say when the scale is 1. */
  lemma AsWrittenScalesBounds(s: Shape, r: Ray, local: Ray, minDist: real, maxDist: real)
    requires s.Rect? && WellFormed(s)
    ensures AsWrittenInFrame(s, r, local, minDist, maxDist) ==
            HitInFrame(s, r, local, minDist * s.transform.scale, maxDist * s.transform.scale)
  {
    var lt := PlaneDistance(local);
    if lt.Some? {
      var k := s.transform.scale;
      AsWrittenUnfold(s, r, local, minDist, maxDist, lt.value);
      InFrameUnfold(s, r, local, minDist * s.transform.scale, maxDist * s.transform.scale, lt.value);
      ScaleOrder(lt.value, minDist, k, WorldDistance(s, lt.value), minDist * s.transform.scale);
      ScaleOrder(maxDist, lt.value, k, maxDist * s.transform.scale, WorldDistance(s, lt.value));
    }
  }

  /** With unit scale the code as written and the corrected test agree. */
  lemma HitAsWrittenUnitScale(s: Shape, r: Ray, minDist: real, maxDist: real)
    requires s.Rect? && WellFormed(s) && s.transform.scale == 1.0
    ensures HitAsWritten(s, r, minDist, maxDist) == Hit(s, r, minDist, maxDist)
  {
    AsWrittenScalesBounds(s, r, LocalRay(s, r), minDist, maxDist);
  }

  /** (h i) k == h when k i == 1. */
  lemma Cancel(h: real, k: real, i: real, hi: real)
    requires k * i == 1.0 && hi == h * i
    ensures hi * k == h
  {
    assert hi * k == h * (k * i);
  }

  /** A height in (1, k], divided by the scale k, is a local height in (0, 1] that the
      scale takes back to the height. */
  lemma LocalHeight(height: real, k: real, i: real, lh: real)
    requires 0.0 < k && k * i == 1.0 && lh == height * i
    requires 1.0 < height <= k
    ensures 0.0 < lh <= 1.0
    ensures lh * k == height
  {
    Cancel(height, k, i, lh);
    assert 0.0 < i;
    assert lh <= 1.0 by {
      assert height * i <= k * i;
    }
    PositiveProduct(height, i, lh);
  }

  /** A local ray falling straight down from a height in (0, 1] onto the centre of the
      rectangle meets it at that local distance. */
  lemma StraightDown(s: Shape, r: Ray, local: Ray, lh: real)
    requires s.Rect? && 0.0 < s.halfWidth && 0.0 < s.halfHeight
    requires 0.0 < lh && local == Ray(Vec3(0.0, 0.0, lh), Vec3(0.0, 0.0, -1.0))
    ensures PlaneDistance(local) == Some(lh)
    ensures Within(s, To(local, lh))
  {
    assert To(local, lh) == Zero;
  }

  /** The counterexample in the rectangle's frame: a local ray falling straight down from
      height h / k onto the centre of a rectangle of scale k, with 1 < h <= k. */
  lemma OvershootInFrame(s: Shape, r: Ray, local: Ray, o: Vec3, height: real)
    requires s.Rect? && WellFormed(s) && 0.0 < s.halfWidth && 0.0 < s.halfHeight
    requires 1.0 < height <= s.transform.scale
    requires o == Vec3(0.0, 0.0, height)
    requires local == Ray(Scale(o, s.transform.inverseScale), Vec3(0.0, 0.0, -1.0))
    ensures AsWrittenInFrame(s, r, local, 0.0, 1.0).Some?
    ensures AsWrittenInFrame(s, r, local, 0.0, 1.0).value.t == height
    ensures HitInFrame(s, r, local, 0.0, 1.0).None?
  {
    var tr := s.transform;
    var lh := height * tr.inverseScale;
    LocalHeight(height, tr.scale, tr.inverseScale, lh);
    assert local.origin == Vec3(0.0, 0.0, lh);
    StraightDown(s, r, local, lh);
    OvershootAt(s, r, local, lh, height);
  }

  /** A local distance in [0, 1] to a point of the rectangle whose world distance exceeds 1
      passes the test as written and fails the corrected one. */
  lemma OvershootAt(s: Shape, r: Ray, local: Ray, lh: real, height: real)
    requires s.Rect? && WellFormed(s)
    requires PlaneDistance(local) == Some(lh) && Within(s, To(local, lh))
    requires 0.0 <= lh <= 1.0 && 1.0 < height && WorldDistance(s, lh) == height
    ensures AsWrittenInFrame(s, r, local, 0.0, 1.0) == Some(RectRecord(s, r, local, lh))
    ensures RectRecord(s, r, local, lh).t == height
    ensures HitInFrame(s, r, local, 0.0, 1.0).None?
  {
    AsWrittenUnfold(s, r, local, 0.0, 1.0, lh);
    InFrameUnfold(s, r, local, 0.0, 1.0, lh);
  }

  /** The same counterexample stated on the world ray, given its local ray. */
  lemma OvershootGivenLocalRay(s: Shape, r: Ray, height: real)
    requires s.Rect? && WellFormed(s) && 0.0 < s.halfWidth && 0.0 < s.halfHeight
    requires 1.0 < height <= s.transform.scale
    requires r.origin == Vec3(0.0, 0.0, height)
    requires LocalRay(s, r) == Ray(Scale(r.origin, s.transform.inverseScale), Vec3(0.0, 0.0, -1.0))
    ensures HitAsWritten(s, r, 0.0, 1.0).Some? && HitAsWritten(s, r, 0.0, 1.0).value.t == height
    ensures Hit(s, r, 0.0, 1.0).None?
  {
    OvershootInFrame(s, r, LocalRay(s, r), r.origin, height);
  }

  /** Without rotation or translation the local ray only has its origin divided by the scale. */
  lemma UnmovedLocalRay(s: Shape, r: Ray)
    requires SqrtLaw()
    requires s.transform.rotation == Quaternions.Identity && s.transform.translation == Zero
    requires IsUnit(r.direction)
    ensures LocalRay(s, r) == Ray(Scale(r.origin, s.transform.inverseScale), r.direction)
  {
    UnrotatedLocalRay(s.transform, r);
  }

  /** Against an unrotated, untranslated rectangle of scale k > 1, a ray falling straight
      down onto its centre from a height h in (1, k] has local distance h / k <= 1, so the
      code as written reports a hit at world distance h, beyond the far bound 1; the
      corrected test rejects it. */
  lemma HitAsWrittenOvershoots(s: Shape, r: Ray, height: real)
    requires SqrtLaw()
    requires s.Rect? && WellFormed(s) && 0.0 < s.halfWidth && 0.0 < s.halfHeight
    requires s.transform.rotation == Quaternions.Identity && s.transform.translation == Zero
    requires 1.0 < height <= s.transform.scale
    requires r.origin == Vec3(0.0, 0.0, height) && r.direction == Vec3(0.0, 0.0, -1.0)
    ensures HitAsWritten(s, r, 0.0, 1.0).Some? && HitAsWritten(s, r, 0.0, 1.0).value.t == height
    ensures Hit(s, r, 0.0, 1.0).None?
  {
    assert IsUnit(r.direction);
    UnmovedLocalRay(s, r);
    OvershootGivenLocalRay(s, r, height);
  }

  // ---------------------------------------------------------------- hit, in the world

  /** For a rigid transform and a unit direction, a hit point lies on the rectangle. */
  lemma HitOnRect(s: Shape, r: Ray, minDist: real, maxDist: real)
    requires SqrtLaw()
    requires s.Rect? && WellFormed(s) && Rigid(s.transform) && IsUnit(r.direction)
    requires Hit(s, r, minDist, maxDist).Some?
    ensures OnRect(s, Hit(s, r, minDist, maxDist).value.point)
  {
    var local := LocalRay(s, r);
    InFrameFacts(s, r, local, minDist, maxDist);
    var lt := PlaneDistance(local).value;
    WorldPoint(s, r, lt);
  }

  /** For a rigid transform and a unit direction, the normal of a hit is a unit vector
      facing against the ray. */
  lemma HitNormalFaces(s: Shape, r: Ray, minDist: real, maxDist: real)
    requires SqrtLaw()
    requires s.Rect? && WellFormed(s) && Rigid(s.transform) && IsUnit(r.direction)
    requires Hit(s, r, minDist, maxDist).Some?
    ensures IsUnit(Hit(s, r, minDist, maxDist).value.normal)
    ensures Dot(Hit(s, r, minDist, maxDist).value.normal, r.direction) < 0.0
  {
    var local := LocalRay(s, r);
    InFrameFacts(s, r, local, minDist, maxDist);
    LocalNormal(s.transform, r, FaceNormal(local.direction));
  }

  /** Every point of the rectangle within the bounds, reached by a ray that is not parallel
      to it, is hit, and at exactly that distance. */
  lemma HitComplete(s: Shape, r: Ray, minDist: real, maxDist: real, t: real)
    requires SqrtLaw()
    requires s.Rect? && WellFormed(s) && Rigid(s.transform) && IsUnit(r.direction)
    requires LocalRay(s, r).direction.z != 0.0
    requires minDist <= t <= maxDist && OnRect(s, To(r, t))
    ensures Hit(s, r, minDist, maxDist).Some?
    ensures Hit(s, r, minDist, maxDist).value.t == t
  {
    var tr, local := s.transform, LocalRay(s, r);
    var lt := t * tr.inverseScale;
    Cancel(t, tr.scale, tr.inverseScale, lt);
    assert WorldDistance(s, lt) == t;
    WorldPoint(s, r, lt);
    InFrameComplete(s, r, local, minDist, maxDist, lt);
  }

  /** Raising the far bound past a hit keeps the hit. */
  lemma HitGrow(s: Shape, r: Ray, minDist: real, m1: real, m2: real)
    requires s.Rect? && WellFormed(s)
    requires m1 <= m2 && Hit(s, r, minDist, m1).Some?
    ensures Hit(s, r, minDist, m2) == Hit(s, r, minDist, m1)
  {
  }

  /** Lowering the far bound to no less than the hit distance keeps the hit. */
  lemma HitShrink(s: Shape, r: Ray, minDist: real, m1: real, m2: real)
    requires s.Rect? && WellFormed(s)
    requires m1 <= m2 && Hit(s, r, minDist, m2).Some?
    requires Hit(s, r, minDist, m2).value.t <= m1
    ensures Hit(s, r, minDist, m1) == Hit(s, r, minDist, m2)
  {
  }

  // ---------------------------------------------------------------- signed distance

  /** `math::sign` on a real, with the convention of `sign` on vectors: +1 for a positive
      value, -1 otherwise. */
  function SignOf(a: real): real {
    if a > 0.0 then 1.0 else -1.0
  }

  /** The squared distance from a point, given relative to one end of an edge, to the edge:
      the offset to the point's projection, clamped to the edge's extent. */
  function SegmentDistanceSquared(edge: Vec3, rel: Vec3): real
    requires SquaredLength(edge) != 0.0
  {
    SquaredLength(Sub(Scale(edge, Clamp(Dot(edge, rel) / SquaredLength(edge), 0.0, 1.0)), rel))
  }

  /** The four edges of a rectangle with non-zero half sizes have non-zero length, and so has
      the normal made from two of them. */
  lemma EdgeLengths(hw: real, hh: real)
    requires hw != 0.0 && hh != 0.0
    ensures SquaredLength(Sub(Vec3(hw, -hh, 0.0), Vec3(-hw, -hh, 0.0))) != 0.0
    ensures SquaredLength(Sub(Vec3(hw, hh, 0.0), Vec3(hw, -hh, 0.0))) != 0.0
    ensures SquaredLength(Sub(Vec3(-hw, hh, 0.0), Vec3(hw, hh, 0.0))) != 0.0
    ensures SquaredLength(Sub(Vec3(-hw, -hh, 0.0), Vec3(-hw, hh, 0.0))) != 0.0
    ensures SquaredLength(Cross(Sub(Vec3(hw, -hh, 0.0), Vec3(-hw, -hh, 0.0)), Sub(Vec3(-hw, -hh, 0.0), Vec3(-hw, hh, 0.0)))) != 0.0
  {
    SquaredLengthSign(Sub(Vec3(hw, -hh, 0.0), Vec3(-hw, -hh, 0.0)));
    SquaredLengthSign(Sub(Vec3(hw, hh, 0.0), Vec3(hw, -hh, 0.0)));
    SquaredLengthSign(Sub(Vec3(-hw, hh, 0.0), Vec3(hw, hh, 0.0)));
    SquaredLengthSign(Sub(Vec3(-hw, -hh, 0.0), Vec3(-hw, hh, 0.0)));
    var n := Cross(Sub(Vec3(hw, -hh, 0.0), Vec3(-hw, -hh, 0.0)), Sub(Vec3(-hw, -hh, 0.0), Vec3(-hw, hh, 0.0)));
    assert n.z == (2.0 * hw) * (-2.0 * hh);
    if n.z == 0.0 {
      ZeroProduct(2.0 * hw, -2.0 * hh);
    }
    SquaredLengthSign(n);
  }

  /** The square of `evaluateSDF` at a local point: the distance to the nearest edge when the
      point's projection falls outside the rectangle (fewer than three of the edge tests are
      positive), the distance to the plane otherwise. */
  function LocalSdfSquared(hw: real, hh: real, p: Vec3): real
    requires hw != 0.0 && hh != 0.0
  {
    var a, b, c, d := Vec3(-hw, -hh, 0.0), Vec3(hw, -hh, 0.0), Vec3(hw, hh, 0.0), Vec3(-hw, hh, 0.0);
    var ba, cb, dc, ad := Sub(b, a), Sub(c, b), Sub(d, c), Sub(a, d);
    var pa, pb, pc, pd := Sub(p, a), Sub(p, b), Sub(p, c), Sub(p, d);
    var nor := Cross(ba, ad);
    EdgeLengths(hw, hh);
    if SignOf(Dot(Cross(ba, nor), pa)) + SignOf(Dot(Cross(cb, nor), pb)) +
       SignOf(Dot(Cross(dc, nor), pc)) + SignOf(Dot(Cross(ad, nor), pd)) < 3.0
    then
      Min(Min(Min(SegmentDistanceSquared(ba, pa), SegmentDistanceSquared(cb, pb)),
              SegmentDistanceSquared(dc, pc)),
          SegmentDistanceSquared(ad, pd))
    else
      Dot(nor, pa) * Dot(nor, pa) / SquaredLength(nor)
  }

  /** `evaluateSDF(point)`: the distance from the point, taken into the rectangle's frame, to
      the rectangle. */
  function Sdf(s: Shape, p: Vec3): real
    requires s.Rect? && WellFormed(s)
  {
    Sqrt(LocalSdfSquared(s.halfWidth, s.halfHeight, ApplyInverse(s.transform, p)))
  }

  /** A square divided by a positive number is not negative. */
  lemma SquareOverPositive(x: real, y: real)
    requires 0.0 < y
    ensures 0.0 <= x * x / y
  {
    SquareNonNegative(x);
  }

  /** Both branches of the squared distance are squares, so it is never negative. */
  lemma LocalSdfSquaredNonNegative(hw: real, hh: real, p: Vec3)
    requires hw != 0.0 && hh != 0.0
    ensures 0.0 <= LocalSdfSquared(hw, hh, p)
  {
    var a, b, c, d := Vec3(-hw, -hh, 0.0), Vec3(hw, -hh, 0.0), Vec3(hw, hh, 0.0), Vec3(-hw, hh, 0.0);
    var ba, cb, dc, ad := Sub(b, a), Sub(c, b), Sub(d, c), Sub(a, d);
    var pa, pb, pc, pd := Sub(p, a), Sub(p, b), Sub(p, c), Sub(p, d);
    var nor := Cross(ba, ad);
    EdgeLengths(hw, hh);
    SegmentNonNegative(ba, pa);
    SegmentNonNegative(cb, pb);
    SegmentNonNegative(dc, pc);
    SegmentNonNegative(ad, pd);
    SquaredLengthSign(nor);
    SquareOverPositive(Dot(nor, pa), SquaredLength(nor));
  }

  /** The squared distance to an edge is a squared length, so it is never negative. */
  lemma SegmentNonNegative(edge: Vec3, rel: Vec3)
    requires SquaredLength(edge) != 0.0
    ensures 0.0 <= SegmentDistanceSquared(edge, rel)
  {
    SquaredLengthSign(Sub(Scale(edge, Clamp(Dot(edge, rel) / SquaredLength(edge), 0.0, 1.0)), rel));
  }

  /** The distance is never negative. */
  lemma SdfNonNegative(s: Shape, p: Vec3)
    requires SqrtLaw()
    requires s.Rect? && WellFormed(s)
    ensures 0.0 <= Sdf(s, p)
  {
    LocalSdfSquaredNonNegative(s.halfWidth, s.halfHeight, ApplyInverse(s.transform, p));
  }

  /** `evaluateNormalFromSDF(point, epsilon)`: +z in the rectangle's frame for a point above
      its plane, -z otherwise, turned into the world; epsilon is not used. */
  function SdfNormal(s: Shape, p: Vec3): Vec3 {
    var q := ApplyInverse(s.transform, p);
    Quaternions.Rotate(Vec3(0.0, 0.0, if q.z > 0.0 then 1.0 else -1.0), s.transform.rotation)
  }

  /** For a rigid transform the normal is a unit vector, and taken back into the rectangle's
      frame it is the z axis pointing to the side of the plane the point is on. */
  lemma SdfNormalSide(s: Shape, p: Vec3)
    requires Rigid(s.transform)
    ensures IsUnit(SdfNormal(s, p))
    ensures Quaternions.Rotate(SdfNormal(s, p), Quaternions.Conjugate(s.transform.rotation)) ==
            Vec3(0.0, 0.0, SignOf(ApplyInverse(s.transform, p).z))
  {
    var q := s.transform.rotation;
    var n := Vec3(0.0, 0.0, SignOf(ApplyInverse(s.transform, p).z));
    QuatRotation.RotateLength(n, q);
    QuatRotation.RotateConjugate(n, q);
  }
}
