/** Boxes (Box.hpp). In its own frame a box is centred on the origin with half extents
    `halfExtents`; its transform places it in the world. The hit test is the slab test of
    Majercik et al. (JCGT 7(3), 2018): from the local ray it picks, per axis, the plane on the
    side the ray comes from (or leaves by, when it starts inside), and accepts the first axis,
    in the order x, y, z, whose crossing lies strictly within the other two extents. */
module Boxes {
  import opened Scalar
  import opened Vectors
  import opened Wrappers
  import opened Rays
  import opened Transforms
  import opened Hitables
  import Quaternions
  import Materials

  /** `Box(transform, extents, material)`: the half extents are half the given ones. */
  function MakeBox(tr: Transform, extents: Vec3, m: Materials.Material): Shape {
    Box(tr, Scale(extents, 0.5), Some(m))
  }

  /** The constructed box has the given extents, and it is well-formed exactly when its
      transform and material are and no extent is zero. */
  lemma MakeBoxProperties(tr: Transform, extents: Vec3, m: Materials.Material)
    ensures Scale(MakeBox(tr, extents, m).halfExtents, 2.0) == extents
    ensures WellFormed(MakeBox(tr, extents, m)) <==>
            Valid(tr) && NoZeroComponent(extents) && Materials.WellFormed(m)
    ensures MaterialOf(HitRecord(0.0, Zero, Zero, Some(MakeBox(tr, extents, m)))) == Some(m)
  {
  }

  // ---------------------------------------------------------------- axes

  datatype Axis = X | Y | Z

  /** The component of a vector along an axis. */
  function Along(v: Vec3, a: Axis): real {
    match a
    case X => v.x
    case Y => v.y
    case Z => v.z
  }

  /** The position of an axis in the order the faces are tried. */
  function Rank(a: Axis): nat {
    match a
    case X => 0
    case Y => 1
    case Z => 2
  }

  /** The vector with component c along the axis and zero elsewhere. */
  function AxisVector(a: Axis, c: real): Vec3 {
    match a
    case X => Vec3(c, 0.0, 0.0)
    case Y => Vec3(0.0, c, 0.0)
    case Z => Vec3(0.0, 0.0, c)
  }

  // ---------------------------------------------------------------- the slab test, in the frame

  /** `winding`: -1 when the ratio of every coordinate's magnitude to the half extent is below
      1, +1 otherwise. */
  function Winding(h: Vec3, o: Vec3): real
    requires NoZeroComponent(h)
  {
    if MaxComponent(Div(AbsV(o), h)) < 1.0 then -1.0 else 1.0
  }

  /** For a magnitude over a positive extent, the ratio is below 1 exactly when the magnitude
      is below the extent. */
  lemma RatioBelowOne(a: real, b: real)
    requires 0.0 < b
    ensures a / b < 1.0 <==> a < b
  {
    assert a / b * b == a;
    if a / b < 1.0 {
      assert a / b * b < b;
    } else {
      assert a / b * b >= b;
    }
  }

  /** For a box with positive half extents the winding is -1 exactly when the point is
      strictly inside, and +1 otherwise. */
  lemma WindingInside(h: Vec3, o: Vec3)
    requires 0.0 < h.x && 0.0 < h.y && 0.0 < h.z
    ensures Winding(h, o) == -1.0 <==> Abs(o.x) < h.x && Abs(o.y) < h.y && Abs(o.z) < h.z
    ensures Winding(h, o) == 1.0 || Winding(h, o) == -1.0
  {
    RatioBelowOne(Abs(o.x), h.x);
    RatioBelowOne(Abs(o.y), h.y);
    RatioBelowOne(Abs(o.z), h.z);
    var q := Div(AbsV(o), h);
    assert q == Vec3(Abs(o.x) / h.x, Abs(o.y) / h.y, Abs(o.z) / h.z);
  }

  /** `halfExtents * winding * sgn` with `sgn = -sign(direction)`: the coordinates of the three
      candidate planes. */
  function Planes(h: Vec3, local: Ray): Vec3
    requires NoZeroComponent(h)
  {
    Mul(Scale(h, Winding(h, local.origin)), Neg(Sign(local.direction)))
  }

  /** The distance along a line from coordinate o, moving by d per unit, to coordinate p. The
      source divides by d; when d is zero the result is an infinity or a NaN, with which the
      face test below never passes, so the model has no distance. */
  function AxisDistance(p: real, o: real, d: real): (t: Option<real>)
    ensures t.Some? ==> o + d * t.value == p
  {
    if d == 0.0 then None else Some((p - o) / d)
  }

  /** The distance along the local ray to the candidate plane of an axis. */
  function Distance(planes: Vec3, local: Ray, a: Axis): Option<real> {
    AxisDistance(Along(planes, a), Along(local.origin, a), Along(local.direction, a))
  }

  /** A local point lies strictly within the extents of the two axes other than `a`. */
  predicate InsideAcross(h: Vec3, q: Vec3, a: Axis) {
    match a
    case X => Abs(q.y) < h.y && Abs(q.z) < h.z
    case Y => Abs(q.z) < h.z && Abs(q.x) < h.x
    case Z => Abs(q.x) < h.x && Abs(q.y) < h.y
  }

  /** The face test of an axis: the plane is not behind the ray, and the ray crosses it within
      the other two extents. */
  predicate Passes(h: Vec3, planes: Vec3, local: Ray, a: Axis) {
    var d := Distance(planes, local, a);
    d.Some? && d.value >= 0.0 && InsideAcross(h, To(local, d.value), a)
  }

  /** The face chosen by the chain of tests, x first, then y, then z. */
  function SelectFace(h: Vec3, planes: Vec3, local: Ray): Option<Axis> {
    if Passes(h, planes, local, X) then Some(X)
    else if Passes(h, planes, local, Y) then Some(Y)
    else if Passes(h, planes, local, Z) then Some(Z)
    else None
  }

  /** The chosen face is the first axis, in the order x, y, z, whose test passes: it passes,
      and every axis that passes comes no earlier than it. There is none exactly when no axis
      passes. */
  lemma SelectFaceFirst(h: Vec3, planes: Vec3, local: Ray)
    ensures SelectFace(h, planes, local).Some? ==> Passes(h, planes, local, SelectFace(h, planes, local).value)
    ensures forall a: Axis :: Passes(h, planes, local, a) ==>
              SelectFace(h, planes, local).Some? && Rank(SelectFace(h, planes, local).value) <= Rank(a)
    ensures SelectFace(h, planes, local).None? <==>
            !Passes(h, planes, local, X) && !Passes(h, planes, local, Y) && !Passes(h, planes, local, Z)
  {
  }

  /** `sgn` after the chain of tests: the component of `sgn` along the chosen face, or the
      zero vector when no face passed. */
  function SelectedNormal(sgn: Vec3, face: Option<Axis>): Vec3 {
    match face
    case None => Zero
    case Some(X) => Vec3(sgn.x, 0.0, 0.0)
    case Some(Y) => Vec3(0.0, sgn.y, 0.0)
    case Some(Z) => Vec3(0.0, 0.0, sgn.z)
  }

  /** The axis `hitDistance` reads: x if the normal's x is non-zero, else y if its y is,
      else z. */
  function PickedAxis(n: Vec3): Axis {
    if n.x != 0.0 then X else if n.y != 0.0 then Y else Z
  }

  /** With `sgn = -sign(direction)`, the selected normal has exactly one non-zero component,
      equal to +1 or -1 and opposite in sign to the direction's component along that axis; it
      is zero exactly when no face was chosen; and `hitDistance` reads the chosen axis. */
  lemma SelectedNormalShape(direction: Vec3, face: Option<Axis>)
    ensures face.None? <==> !Any(SelectedNormal(Neg(Sign(direction)), face))
    ensures face.Some? ==>
              var c := Along(Neg(Sign(direction)), face.value);
              (c == 1.0 || c == -1.0) &&
              SelectedNormal(Neg(Sign(direction)), face) == AxisVector(face.value, c) &&
              (c == 1.0 <==> Along(direction, face.value) <= 0.0) &&
              PickedAxis(SelectedNormal(Neg(Sign(direction)), face)) == face.value
  {
  }

  /** The face `hit` chooses for a local ray. */
  function LocalFace(s: Shape, local: Ray): Option<Axis>
    requires s.Box? && WellFormed(s)
  {
    SelectFace(s.halfExtents, Planes(s.halfExtents, local), local)
  }

  /** The record of a hit with local normal n at local distance `lt`: the distance and
      point in the world, and the normal turned by the box's rotation. */
  function BoxRecord(s: Shape, r: Ray, n: Vec3, lt: real): HitRecord {
    var t := WorldDistance(s, lt);
    HitRecord(t, To(r, t), Quaternions.Rotate(n, s.transform.rotation), Some(s))
  }

  /** The final test of `hit`: the world distance strictly between the bounds. */
  function Accept(s: Shape, r: Ray, n: Vec3, lt: real, minDist: real, maxDist: real): (res: Option<HitRecord>)
    ensures res.Some? ==> minDist < res.value.t < maxDist && res.value.hitable == Some(s)
  {
    var t := WorldDistance(s, lt);
    if t > minDist && t < maxDist then Some(BoxRecord(s, r, n, lt)) else None
  }

  /** `hit` given the local ray. The distance `hitDistance` is read along the picked axis;
      a hit needs a chosen face and a world distance strictly between the bounds. */
  function HitInFrame(s: Shape, r: Ray, local: Ray, minDist: real, maxDist: real): (res: Option<HitRecord>)
    requires s.Box? && WellFormed(s)
    ensures res.Some? ==> minDist < res.value.t < maxDist && res.value.hitable == Some(s)
  {
    var h := s.halfExtents;
    var planes := Planes(h, local);
    var n := SelectedNormal(Neg(Sign(local.direction)), LocalFace(s, local));
    var d := Distance(planes, local, PickedAxis(n));
    if !Any(n) || d.None? then None else Accept(s, r, n, d.value, minDist, maxDist)
  }

  /** `hit(r, minDist, maxDist, rec)`: the slab test on the ray taken into the box's frame. */
  function Hit(s: Shape, r: Ray, minDist: real, maxDist: real): (res: Option<HitRecord>)
    requires s.Box? && WellFormed(s)
    ensures res.Some? ==> minDist < res.value.t < maxDist && res.value.hitable == Some(s)
  {
    HitInFrame(s, r, ApplyInverseRay(s.transform, r), minDist, maxDist)
  }

  // ---------------------------------------------------------------- facts in the frame

  /** A local point is on face `a` of the box: on one of the two planes of that axis, and
      strictly within the other two extents. */
  predicate OnFace(h: Vec3, q: Vec3, a: Axis) {
    Abs(Along(q, a)) == Abs(Along(h, a)) && InsideAcross(h, q, a)
  }

  predicate OnSurface(h: Vec3, q: Vec3) {
    OnFace(h, q, X) || OnFace(h, q, Y) || OnFace(h, q, Z)
  }

  /** The point at distance `Distance` along the local ray lies on the candidate plane. */
  lemma DistanceReachesPlane(planes: Vec3, local: Ray, a: Axis)
    requires Distance(planes, local, a).Some?
    ensures Along(To(local, Distance(planes, local, a).value), a) == Along(planes, a)
  {
    AlongTo(local, Distance(planes, local, a).value, a);
  }

  /** The candidate plane's coordinate has the magnitude of the half extent. */
  lemma PlaneMagnitude(h: Vec3, local: Ray, a: Axis)
    requires NoZeroComponent(h)
    ensures Abs(Along(Planes(h, local), a)) == Abs(Along(h, a))
  {
    var w, sgn := Winding(h, local.origin), Neg(Sign(local.direction));
    AlongMul(Scale(h, w), sgn, a);
    AlongScale(h, w, a);
    UnitFactors(Along(h, a), w, Along(sgn, a), Along(Planes(h, local), a));
  }

  lemma AlongTo(local: Ray, t: real, a: Axis)
    ensures Along(To(local, t), a) == Along(local.origin, a) + Along(local.direction, a) * t
  {
  }

  lemma AlongMul(u: Vec3, v: Vec3, a: Axis)
    ensures Along(Mul(u, v), a) == Along(u, a) * Along(v, a)
  {
  }

  lemma AlongScale(u: Vec3, c: real, a: Axis)
    ensures Along(Scale(u, c), a) == Along(u, a) * c
  {
  }

  /** Multiplying by two signs keeps the magnitude. */
  lemma UnitFactors(x: real, w: real, sg: real, p: real)
    requires w == 1.0 || w == -1.0
    requires sg == 1.0 || sg == -1.0
    requires p == x * w * sg
    ensures Abs(p) == Abs(x)
  {
  }

  /** A hit in the frame comes from the chosen face at its distance: the local point is on
      that face, and the local normal is the face's axis pointing against the local ray. */
  lemma InFrameFacts(s: Shape, r: Ray, local: Ray, minDist: real, maxDist: real)
    requires s.Box? && WellFormed(s)
    requires HitInFrame(s, r, local, minDist, maxDist).Some?
    ensures LocalFace(s, local).Some?
    ensures Distance(Planes(s.halfExtents, local), local, LocalFace(s, local).value).Some?
    ensures OnSurface(s.halfExtents, To(local, Distance(Planes(s.halfExtents, local), local, LocalFace(s, local).value).value))
    ensures HitInFrame(s, r, local, minDist, maxDist).value ==
            BoxRecord(s, r, SelectedNormal(Neg(Sign(local.direction)), LocalFace(s, local)),
                      Distance(Planes(s.halfExtents, local), local, LocalFace(s, local).value).value)
    ensures IsUnit(SelectedNormal(Neg(Sign(local.direction)), LocalFace(s, local)))
    ensures Dot(SelectedNormal(Neg(Sign(local.direction)), LocalFace(s, local)), local.direction) < 0.0
  {
    var h := s.halfExtents;
    var planes := Planes(h, local);
    var face := LocalFace(s, local);
    SelectedNormalShape(local.direction, face);
    var a := face.value;
    SelectFaceFirst(h, planes, local);
    DistanceReachesPlane(planes, local, a);
    PlaneMagnitude(h, local, a);
    var q := To(local, Distance(planes, local, a).value);
    assert OnFace(h, q, a);
    NormalOpposes(local.direction, a);
  }

  /** The axis vector of -sign(d) along an axis where d is not zero is a unit vector with a
      negative dot product with d. */
  lemma NormalOpposes(d: Vec3, a: Axis)
    requires Along(d, a) != 0.0
    ensures IsUnit(AxisVector(a, Along(Neg(Sign(d)), a)))
    ensures Dot(AxisVector(a, Along(Neg(Sign(d)), a)), d) < 0.0
  {
  }

  // ---------------------------------------------------------------- facts in the world

  /** For a rigid transform and a unit direction, a hit point lies on a face of the box. */
  lemma HitOnBox(s: Shape, r: Ray, minDist: real, maxDist: real)
    requires SqrtLaw()
    requires s.Box? && WellFormed(s) && Rigid(s.transform) && IsUnit(r.direction)
    requires Hit(s, r, minDist, maxDist).Some?
    ensures OnSurface(s.halfExtents, ApplyInverse(s.transform, Hit(s, r, minDist, maxDist).value.point))
  {
    var local := ApplyInverseRay(s.transform, r);
    InFrameFacts(s, r, local, minDist, maxDist);
    var lt := Distance(Planes(s.halfExtents, local), local, LocalFace(s, local).value).value;
    WorldPoint(s, r, lt);
  }

  /** For a rigid transform and a unit direction, the normal of a hit is a unit vector
      facing against the ray. */
  lemma HitNormalFaces(s: Shape, r: Ray, minDist: real, maxDist: real)
    requires SqrtLaw()
    requires s.Box? && WellFormed(s) && Rigid(s.transform) && IsUnit(r.direction)
    requires Hit(s, r, minDist, maxDist).Some?
    ensures IsUnit(Hit(s, r, minDist, maxDist).value.normal)
    ensures Dot(Hit(s, r, minDist, maxDist).value.normal, r.direction) < 0.0
  {
    var local := ApplyInverseRay(s.transform, r);
    InFrameFacts(s, r, local, minDist, maxDist);
    LocalNormal(s.transform, r, SelectedNormal(Neg(Sign(local.direction)), LocalFace(s, local)));
  }

  /** Raising the far bound past a hit keeps the hit. */
  lemma HitGrow(s: Shape, r: Ray, minDist: real, m1: real, m2: real)
    requires s.Box? && WellFormed(s)
    requires m1 <= m2 && Hit(s, r, minDist, m1).Some?
    ensures Hit(s, r, minDist, m2) == Hit(s, r, minDist, m1)
  {
  }

  /** Lowering the far bound to above the hit distance keeps the hit. */
  lemma HitShrink(s: Shape, r: Ray, minDist: real, m1: real, m2: real)
    requires s.Box? && WellFormed(s)
    requires m1 <= m2 && Hit(s, r, minDist, m2).Some?
    requires Hit(s, r, minDist, m2).value.t < m1
    ensures Hit(s, r, minDist, m1) == Hit(s, r, minDist, m2)
  {
  }
}
