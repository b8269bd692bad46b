/** `Scene` (src/Scene.hpp): a background and an ordered list of shapes, intersected by a
    linear scan that narrows the upper bound to the closest hit so far, probed by the first
    shape whose distance function is within epsilon, and measured by the minimum of the
    shapes' distance functions. */
module Scenes {
  import opened Scalar
  import opened Vectors
  import opened Wrappers
  import opened Rays
  import opened Hitables
  import opened Shapes
  import Backgrounds

  datatype Scene = Scene(background: Backgrounds.Background, hitables: seq<Shape>)

  /** `Scene()`: no shapes and the default background. */
  const EmptyScene: Scene := Scene(Backgrounds.DefaultBackground, [])

  /** Every shape of the scene was built by its constructor. */
  predicate AllWellFormed(hs: seq<Shape>) {
    forall s :: s in hs ==> WellFormed(s)
  }

  /** `add(hitable)`: the shape goes after the ones already there, which keep their order. */
  function AddHitable(sc: Scene, s: Shape): (res: Scene)
    ensures |res.hitables| == |sc.hitables| + 1
    ensures res.hitables[..|sc.hitables|] == sc.hitables && res.hitables[|sc.hitables|] == s
    ensures res.background == sc.background
  {
    sc.(hitables := sc.hitables + [s])
  }

  /** Adding a well-formed shape to a well-formed scene keeps it well formed. */
  lemma AddHitableWellFormed(sc: Scene, s: Shape)
    requires AllWellFormed(sc.hitables) && WellFormed(s)
    ensures AllWellFormed(AddHitable(sc, s).hitables)
  {
    forall i | 0 <= i < |AddHitable(sc, s).hitables|
      ensures WellFormed(AddHitable(sc, s).hitables[i])
    {
      if i < |sc.hitables| {
        assert AddHitable(sc, s).hitables[i] == AddHitable(sc, s).hitables[..|sc.hitables|][i];
      }
    }
  }

  // ---------------------------------------------------------------- nearest hit

  /** The upper bound the scan passes to the next shape: the closest hit so far, or maxDist. */
  function Closest(prev: Option<HitRecord>, maxDist: real): real {
    if prev.Some? then prev.value.t else maxDist
  }

  /** `hit(r, minDist, maxDist, rec)` as a left fold: each shape is asked for a hit within
      (minDist, closest so far), and a hit replaces the record. */
  function Nearest(hs: seq<Shape>, r: Ray, minDist: real, maxDist: real): (res: Option<HitRecord>)
    requires AllWellFormed(hs)
    ensures res.Some? ==> minDist <= res.value.t <= maxDist
    ensures res.Some? ==> res.value.hitable.Some? && res.value.hitable.value in hs
    decreases |hs|
  {
    if |hs| == 0 then None
    else
      var prev := Nearest(hs[..|hs| - 1], r, minDist, maxDist);
      match ShapeHit(hs[|hs| - 1], r, minDist, Closest(prev, maxDist))
      case Some(rec) => Some(rec)
      case None => prev
  }

  /** The scan of a longer prefix: the shape at position n decides against the scan of the
      first n shapes. */
  lemma NearestStep(hs: seq<Shape>, n: nat, r: Ray, minDist: real, maxDist: real)
    requires AllWellFormed(hs) && n < |hs|
    ensures AllWellFormed(hs[..n]) && AllWellFormed(hs[..n + 1])
    ensures Nearest(hs[..n + 1], r, minDist, maxDist) ==
            match ShapeHit(hs[n], r, minDist, Closest(Nearest(hs[..n], r, minDist, maxDist), maxDist))
            case Some(rec) => Some(rec)
            case None => Nearest(hs[..n], r, minDist, maxDist)
  {
    assert hs[..n + 1][..n] == hs[..n];
    assert hs[..n + 1][n] == hs[n];
  }

  /** The scene misses exactly when every shape misses within (minDist, maxDist); in
      particular an empty scene never hits. */
  lemma {:induction false} NearestMisses(hs: seq<Shape>, r: Ray, minDist: real, maxDist: real)
    requires AllWellFormed(hs)
    ensures Nearest(hs, r, minDist, maxDist).None? <==>
            forall i :: 0 <= i < |hs| ==> ShapeHit(hs[i], r, minDist, maxDist).None?
    decreases |hs|
  {
    if |hs| > 0 {
      var n := |hs| - 1;
      var init := hs[..n];
      NearestMisses(init, r, minDist, maxDist);
      assert forall i :: 0 <= i < n ==> init[i] == hs[i];
      if Nearest(hs, r, minDist, maxDist).None? {
        assert Nearest(init, r, minDist, maxDist).None?;
      }
    }
  }

  /** A scene hit is the hit the winning shape reports on its own within (minDist, maxDist). */
  lemma {:induction false} NearestIsShapeHit(hs: seq<Shape>, r: Ray, minDist: real, maxDist: real)
    requires SqrtLaw()
    requires AllWellFormed(hs) && Nearest(hs, r, minDist, maxDist).Some?
    ensures exists i :: 0 <= i < |hs| && ShapeHit(hs[i], r, minDist, maxDist) == Nearest(hs, r, minDist, maxDist)
    decreases |hs|
  {
    var n := |hs| - 1;
    var init := hs[..n];
    var prev := Nearest(init, r, minDist, maxDist);
    var res := Nearest(hs, r, minDist, maxDist);
    var bound := Closest(prev, maxDist);
    if ShapeHit(hs[n], r, minDist, bound).Some? {
      ShapeHitGrow(hs[n], r, minDist, bound, maxDist);
      assert ShapeHit(hs[n], r, minDist, maxDist) == res;
    } else {
      NearestIsShapeHit(init, r, minDist, maxDist);
      var i :| 0 <= i < n && ShapeHit(init[i], r, minDist, maxDist) == prev;
      assert init[i] == hs[i];
    }
  }

  /** The scene hit is no farther than any shape's own hit within (minDist, maxDist). */
  lemma {:induction false} NearestIsClosest(hs: seq<Shape>, r: Ray, minDist: real, maxDist: real)
    requires AllWellFormed(hs)
    ensures forall i :: 0 <= i < |hs| && ShapeHit(hs[i], r, minDist, maxDist).Some? ==>
              Nearest(hs, r, minDist, maxDist).Some? &&
              Nearest(hs, r, minDist, maxDist).value.t <= ShapeHit(hs[i], r, minDist, maxDist).value.t
    decreases |hs|
  {
    if |hs| > 0 {
      var n := |hs| - 1;
      var init := hs[..n];
      var prev := Nearest(init, r, minDist, maxDist);
      var res := Nearest(hs, r, minDist, maxDist);
      var bound := Closest(prev, maxDist);
      NearestIsClosest(init, r, minDist, maxDist);
      // the result is never farther than the bound the last shape was given
      assert res.Some? ==> res.value.t <= bound;
      forall i | 0 <= i < |hs| && ShapeHit(hs[i], r, minDist, maxDist).Some?
        ensures res.Some? && res.value.t <= ShapeHit(hs[i], r, minDist, maxDist).value.t
      {
        if i < n {
          assert init[i] == hs[i];
        } else {
          var own := ShapeHit(hs[n], r, minDist, maxDist);
          if own.value.t < bound {
            ShapeHitShrink(hs[n], r, minDist, bound, maxDist);
          }
        }
      }
    }
  }

  /** The scan with the rectangle test as src/Rect.hpp writes it. */
  function NearestAsWritten(hs: seq<Shape>, r: Ray, minDist: real, maxDist: real): Option<HitRecord>
    requires AllWellFormed(hs)
    decreases |hs|
  {
    if |hs| == 0 then None
    else
      var prev := NearestAsWritten(hs[..|hs| - 1], r, minDist, maxDist);
      match ShapeHitAsWritten(hs[|hs| - 1], r, minDist, Closest(prev, maxDist))
      case Some(rec) => Some(rec)
      case None => prev
  }

  /** Every rectangle of the list has scale 1. */
  predicate UnitScaleRects(hs: seq<Shape>) {
    forall i :: 0 <= i < |hs| && hs[i].Rect? ==> hs[i].transform.scale == 1.0
  }

  /** In a scene whose rectangles all have scale 1 the scan as written is the modelled scan,
      so the properties proved of `Nearest` hold of it. */
  lemma {:induction false} NearestAsWrittenAgrees(hs: seq<Shape>, r: Ray, minDist: real, maxDist: real)
    requires AllWellFormed(hs) && UnitScaleRects(hs)
    ensures NearestAsWritten(hs, r, minDist, maxDist) == Nearest(hs, r, minDist, maxDist)
    decreases |hs|
  {
    if |hs| > 0 {
      var n := |hs| - 1;
      var init := hs[..n];
      assert forall i :: 0 <= i < n ==> init[i] == hs[i];
      NearestAsWrittenAgrees(init, r, minDist, maxDist);
      ShapeHitAsWrittenAgrees(hs[n], r, minDist, Closest(Nearest(init, r, minDist, maxDist), maxDist));
    }
  }

  /** `Scene::hit` as the loop of the source: rec is written only when some shape hits, and
      then holds the scan's result. */
  method Hit(sc: Scene, r: Ray, minDist: real, maxDist: real, rec0: HitRecord) returns (hit: bool, rec: HitRecord)
    requires AllWellFormed(sc.hitables)
    ensures hit <==> Nearest(sc.hitables, r, minDist, maxDist).Some?
    ensures hit ==> rec == Nearest(sc.hitables, r, minDist, maxDist).value
    ensures !hit ==> rec == rec0
  {
    var hs := sc.hitables;
    hit := false;
    var closestHit := maxDist;
    rec := rec0;
    var i := 0;
    while i < |hs|
      invariant 0 <= i <= |hs|
      invariant AllWellFormed(hs[..i])
      invariant hit <==> Nearest(hs[..i], r, minDist, maxDist).Some?
      invariant hit ==> rec == Nearest(hs[..i], r, minDist, maxDist).value
      invariant !hit ==> rec == rec0
      invariant closestHit == Closest(Nearest(hs[..i], r, minDist, maxDist), maxDist)
    {
      NearestStep(hs, i, r, minDist, maxDist);
      var tmpRec := ShapeHit(hs[i], r, minDist, closestHit);
      if tmpRec.Some? {
        hit := true;
        closestHit := tmpRec.value.t;
        rec := tmpRec.value;
      }
      i := i + 1;
    }
    assert hs[..|hs|] == hs;
  }

  // ---------------------------------------------------------------- distance-function probe

  /** `hitWithSDF(point, epsilon, rec)`: the first shape whose probe hits gives the record;
      a shape that misses lowers rec.t to its distance value when that is smaller in
      magnitude, leaving the rest of rec as it was. */
  function ProbeAll(hs: seq<Shape>, p: Vec3, epsilon: real, rec: HitRecord): (res: Probe)
    requires AllWellFormed(hs)
    ensures res.hit ==> res.record.hitable.Some? && res.record.hitable.value in hs
    decreases |hs|
  {
    if |hs| == 0 then Probe(false, rec)
    else
      var tmp := ShapeProbe(hs[0], p, epsilon);
      if tmp.hit then tmp
      else
        var next := if Abs(tmp.record.t) < Abs(rec.t) then rec.(t := tmp.record.t) else rec;
        ProbeAll(hs[1..], p, epsilon, next)
  }

  /** The scene probe hits exactly when some shape's distance value is within epsilon. */
  lemma ProbeAllHits(hs: seq<Shape>, p: Vec3, epsilon: real, rec: HitRecord)
    requires AllWellFormed(hs)
    ensures ProbeAll(hs, p, epsilon, rec).hit <==>
            exists i :: 0 <= i < |hs| && Abs(ShapeSdf(hs[i], p)) <= epsilon
  {
    if ProbeAll(hs, p, epsilon, rec).hit {
      ProbeAllFirst(hs, p, epsilon, rec);
    } else {
      ProbeAllMiss(hs, p, epsilon, rec);
    }
  }

  /** A scene probe that hits returns the own probe of the first shape whose distance value
      is within epsilon. */
  lemma {:induction false} ProbeAllFirst(hs: seq<Shape>, p: Vec3, epsilon: real, rec: HitRecord)
    requires AllWellFormed(hs) && ProbeAll(hs, p, epsilon, rec).hit
    ensures exists i :: 0 <= i < |hs| && Abs(ShapeSdf(hs[i], p)) <= epsilon &&
              (forall j :: 0 <= j < i ==> Abs(ShapeSdf(hs[j], p)) > epsilon) &&
              ProbeAll(hs, p, epsilon, rec) == ShapeProbe(hs[i], p, epsilon)
    decreases |hs|
  {
    ShapeProbeProperties(hs[0], p, epsilon);
    var tmp := ShapeProbe(hs[0], p, epsilon);
    if tmp.hit {
      assert Abs(ShapeSdf(hs[0], p)) <= epsilon && ProbeAll(hs, p, epsilon, rec) == ShapeProbe(hs[0], p, epsilon);
    } else {
      var next := if Abs(tmp.record.t) < Abs(rec.t) then rec.(t := tmp.record.t) else rec;
      var rest := hs[1..];
      assert ProbeAll(hs, p, epsilon, rec) == ProbeAll(rest, p, epsilon, next);
      ProbeAllFirst(rest, p, epsilon, next);
      var i :| 0 <= i < |rest| && Abs(ShapeSdf(rest[i], p)) <= epsilon &&
               (forall j :: 0 <= j < i ==> Abs(ShapeSdf(rest[j], p)) > epsilon) &&
               ProbeAll(rest, p, epsilon, next) == ShapeProbe(rest[i], p, epsilon);
      FirstShift(hs, p, epsilon, i);
    }
  }

  /** A first shape outside epsilon moves the first shape within epsilon of the rest one
      place on. */
  lemma FirstShift(hs: seq<Shape>, p: Vec3, epsilon: real, i: int)
    requires AllWellFormed(hs) && 0 <= i < |hs| - 1 && Abs(ShapeSdf(hs[0], p)) > epsilon
    requires AllWellFormed(hs[1..])
    requires forall j :: 0 <= j < i ==> Abs(ShapeSdf(hs[1..][j], p)) > epsilon
    ensures hs[1..][i] == hs[i + 1]
    ensures forall j :: 0 <= j < i + 1 ==> Abs(ShapeSdf(hs[j], p)) > epsilon
  {
    forall j | 0 <= j < i + 1 ensures Abs(ShapeSdf(hs[j], p)) > epsilon {
      if j > 0 { assert hs[j] == hs[1..][j - 1]; }
    }
  }

  /** When no shape is within epsilon, rec keeps every field but t, and t ends as the value of
      smallest magnitude among rec.t and the shapes' distance values. */
  lemma {:induction false} ProbeAllMiss(hs: seq<Shape>, p: Vec3, epsilon: real, rec: HitRecord)
    requires AllWellFormed(hs) && !ProbeAll(hs, p, epsilon, rec).hit
    ensures forall i :: 0 <= i < |hs| ==> Abs(ShapeSdf(hs[i], p)) > epsilon
    ensures ProbeAll(hs, p, epsilon, rec).record == rec.(t := ProbeAll(hs, p, epsilon, rec).record.t)
    ensures Abs(ProbeAll(hs, p, epsilon, rec).record.t) <= Abs(rec.t)
    ensures forall i :: 0 <= i < |hs| ==> Abs(ProbeAll(hs, p, epsilon, rec).record.t) <= Abs(ShapeSdf(hs[i], p))
    ensures ProbeAll(hs, p, epsilon, rec).record.t == rec.t ||
            exists i :: 0 <= i < |hs| && ProbeAll(hs, p, epsilon, rec).record.t == ShapeSdf(hs[i], p)
    decreases |hs|
  {
    if |hs| > 0 {
      ShapeProbeProperties(hs[0], p, epsilon);
      var tmp := ShapeProbe(hs[0], p, epsilon);
      var next := if Abs(tmp.record.t) < Abs(rec.t) then rec.(t := tmp.record.t) else rec;
      var rest := hs[1..];
      ProbeAllMiss(rest, p, epsilon, next);
      var res := ProbeAll(hs, p, epsilon, rec);
      assert res == ProbeAll(rest, p, epsilon, next);
      forall i | 0 <= i < |hs| ensures Abs(res.record.t) <= Abs(ShapeSdf(hs[i], p)) && Abs(ShapeSdf(hs[i], p)) > epsilon {
        if i > 0 { assert hs[i] == rest[i - 1]; }
      }
      if res.record.t != rec.t && res.record.t != next.t {
        var i :| 0 <= i < |rest| && res.record.t == ShapeSdf(rest[i], p);
        assert rest[i] == hs[i + 1];
      }
    }
  }

  // ---------------------------------------------------------------- scene distance function

  /** `evaluateSDF(point)`: the minimum over the shapes, starting from the largest real. */
  function MinSdf(hs: seq<Shape>, p: Vec3): real
    requires AllWellFormed(hs)
    decreases |hs|
  {
    if |hs| == 0 then MaxReal
    else Min(MinSdf(hs[..|hs| - 1], p), ShapeSdf(hs[|hs| - 1], p))
  }

  /** The scene's distance is at most every shape's and at most the largest real, and it is
      one of them: the largest real for an empty scene, otherwise a shape's when that is
      below the largest real. */
  lemma MinSdfIsMinimum(hs: seq<Shape>, p: Vec3)
    requires AllWellFormed(hs)
    ensures MinSdf(hs, p) <= MaxReal
    ensures forall i :: 0 <= i < |hs| ==> MinSdf(hs, p) <= ShapeSdf(hs[i], p)
    ensures MinSdf(hs, p) == MaxReal || exists i :: 0 <= i < |hs| && MinSdf(hs, p) == ShapeSdf(hs[i], p)
  {
    MinSdfBelow(hs, p);
    var i := MinSdfWitness(hs, p);
    if 0 <= i {
      assert MinSdf(hs, p) == ShapeSdf(hs[i], p);
    }
  }

  /** The scene's distance is at most the largest real and at most every shape's. */
  lemma {:induction false} MinSdfBelow(hs: seq<Shape>, p: Vec3)
    requires AllWellFormed(hs)
    ensures MinSdf(hs, p) <= MaxReal
    ensures forall i :: 0 <= i < |hs| ==> MinSdf(hs, p) <= ShapeSdf(hs[i], p)
    decreases |hs|
  {
    if |hs| > 0 {
      var n := |hs| - 1;
      var init := hs[..n];
      MinSdfBelow(init, p);
      assert forall i :: 0 <= i < n ==> init[i] == hs[i];
    }
  }

  /** The shape whose distance the scene's distance is, or -1 when it is the largest real. */
  lemma {:induction false} MinSdfWitness(hs: seq<Shape>, p: Vec3) returns (i: int)
    requires AllWellFormed(hs)
    ensures -1 <= i < |hs|
    ensures i == -1 ==> MinSdf(hs, p) == MaxReal
    ensures 0 <= i ==> MinSdf(hs, p) == ShapeSdf(hs[i], p)
    decreases |hs|
  {
    i := -1;
    if |hs| > 0 {
      var n := |hs| - 1;
      var init := hs[..n];
      if MinSdf(hs, p) == ShapeSdf(hs[n], p) {
        i := n;
      } else {
        i := MinSdfWitness(init, p);
        if 0 <= i {
          assert init[i] == hs[i];
        }
      }
    }
  }

  /** `Scene::evaluateSDF` as the loop of the source. */
  method EvaluateSdf(sc: Scene, p: Vec3) returns (minDist: real)
    requires AllWellFormed(sc.hitables)
    ensures minDist == MinSdf(sc.hitables, p)
  {
    var hs := sc.hitables;
    minDist := MaxReal;
    var i := 0;
    while i < |hs|
      invariant 0 <= i <= |hs|
      invariant AllWellFormed(hs[..i])
      invariant minDist == MinSdf(hs[..i], p)
    {
      assert hs[..i + 1][..i] == hs[..i];
      assert hs[..i + 1][i] == hs[i];
      minDist := Min(minDist, ShapeSdf(hs[i], p));
      i := i + 1;
    }
    assert hs[..|hs|] == hs;
  }
}
