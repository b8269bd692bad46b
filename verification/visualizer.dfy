/** The debugging integrator (RaytraceVisualizer.hpp): one ray through the pixel's centre,
    without depth of field, coloured by the distance to the nearest hit, by its normal, or by
    the number of bounces the path tracer would make. */
module Visualizers {
  import opened Scalar
  import opened Vectors
  import opened Wrappers
  import opened Rays
  import opened Viewports
  import opened Hitables
  import opened Materials
  import opened Scenes
  import opened Cameras
  import opened Integrators
  import opened Pixels
  import Raytraces

  /** `RaytraceVisualizerType`. */
  datatype Mode = Depth | Normal | Bounces

  const White: Vec3 := Vec3(1.0, 1.0, 1.0)

  /** `getBounceColour(r, bounces)`: grey in proportion to the bounces made before the path
      stopped. */
  function BounceColour(sc: Scene, r: Ray, bounces: nat, maxBounces: nat, draws: nat -> Draws): Vec3
    requires AllWellFormed(sc.hitables) && SizedDraws(draws) && 0 < maxBounces
    decreases maxBounces - bounces
  {
    var bounce :=
      match Nearest(sc.hitables, r, MinHitDistance, MaxReal)
      case None => None
      case Some(rec) => if bounces < maxBounces then ScatterAt(rec, r, draws(bounces)) else None;
    if bounce.Some? then BounceColour(sc, bounce.value.scattered, bounces + 1, maxBounces, draws)
    else Shade(bounces, maxBounces)
  }

  /** `Vec3(1, 1, 1) * (Real(k) / Real(m))`. */
  function Shade(k: nat, m: nat): Vec3
    requires 0 < m
  {
    Scale(White, k as real / m as real)
  }

  /** The ray of pixel (col, row): through its centre, from the camera position. */
  function CentreRay(cam: Camera, vp: Viewport, col: nat, row: nat): Ray {
    GetRay(cam, (col as real + 0.5) * vp.widthInv, (row as real + 0.5) * vp.heightInv, false, []).value.ray
  }

  /** The colour a mode gives the ray, before scaling. */
  function ModeColour(mode: Mode, sc: Scene, r: Ray, maxBounces: nat, draws: nat -> Draws): Vec3
    requires AllWellFormed(sc.hitables) && SizedDraws(draws) && 0 < maxBounces
  {
    match mode
    case Depth => DepthColour(Nearest(sc.hitables, r, MinHitDistance, MaxReal))
    case Normal => NormalColour(Nearest(sc.hitables, r, MinHitDistance, MaxReal))
    case Bounces => GammaCorrect(BounceColour(sc, r, 0, maxBounces, draws))
  }

  /** The depth mode's colour of the nearest hit, or black on a miss. */
  function DepthColour(hit: Option<HitRecord>): Vec3
    requires hit.Some? ==> 0.0 <= hit.value.t
  {
    match hit
    case Some(rec) => DivScalar(White, 1.0 + rec.t)
    case None => Zero
  }

  /** The normal mode's colour of the nearest hit, or black on a miss. */
  function NormalColour(hit: Option<HitRecord>): Vec3 {
    match hit
    case Some(rec) => AddScalar(Scale(rec.normal, 0.5), 0.5)
    case None => Zero
  }

  /** `renderPixel(col, row)`: the value stored for the pixel. */
  function RenderPixel(mode: Mode, sc: Scene, cam: Camera, vp: Viewport, maxBounces: nat, col: nat, row: nat,
                       draws: nat -> Draws): Vec3
    requires AllWellFormed(sc.hitables) && SizedDraws(draws) && 0 < maxBounces
  {
    Scale(ModeColour(mode, sc, CentreRay(cam, vp, col, row), maxBounces, draws), 255.99)
  }

  // ---------------------------------------------------------------- properties

  /** The bounce colour is the grey of the number of scattering vertices on the path the path
      tracer follows, over the bounce limit; so every channel lies in [0, 1]. */
  lemma {:induction false} BouncesCountPath(sc: Scene, r: Ray, bounces: nat, maxBounces: nat, draws: nat -> Draws)
    requires AllWellFormed(sc.hitables) && SizedDraws(draws) && 0 < maxBounces
    ensures BounceColour(sc, r, bounces, maxBounces, draws) ==
            Shade(bounces + |Raytraces.Trace(sc, r, bounces, maxBounces, draws).vertices|, maxBounces)
    decreases maxBounces - bounces
  {
    var bounce :=
      match Nearest(sc.hitables, r, MinHitDistance, MaxReal)
      case None => None
      case Some(rec) => if bounces < maxBounces then ScatterAt(rec, r, draws(bounces)) else None;
    if bounce.Some? {
      BouncesCountPath(sc, bounce.value.scattered, bounces + 1, maxBounces, draws);
      var rest := Raytraces.Trace(sc, bounce.value.scattered, bounces + 1, maxBounces, draws);
      assert |Raytraces.Trace(sc, r, bounces, maxBounces, draws).vertices| == 1 + |rest.vertices|;
    } else {
      assert Raytraces.Trace(sc, r, bounces, maxBounces, draws).vertices == [];
    }
  }

  /** Every channel of the bounce colour lies in [0, 1]. */
  lemma BounceColourInUnit(sc: Scene, r: Ray, bounces: nat, maxBounces: nat, draws: nat -> Draws)
    requires AllWellFormed(sc.hitables) && SizedDraws(draws) && 0 < maxBounces && bounces <= maxBounces
    ensures InBox(BounceColour(sc, r, bounces, maxBounces, draws), 0.0, 1.0)
  {
    BouncesCountPath(sc, r, bounces, maxBounces, draws);
    ShadeInUnit(bounces + |Raytraces.Trace(sc, r, bounces, maxBounces, draws).vertices|, maxBounces);
  }

  lemma ShadeInUnit(k: nat, m: nat)
    requires 0 < m && k <= m
    ensures InBox(Shade(k, m), 0.0, 1.0)
  {
    assert 0.0 <= k as real / m as real <= 1.0;
  }

  /** The depth colour is a grey strictly between 0 and 1 on a hit in front of the ray, nearer
      white for nearer hits, and black on a miss; the nearest hit of any scene is such a hit. */
  lemma DepthShading(hit: Option<HitRecord>)
    requires hit.Some? ==> MinHitDistance <= hit.value.t
    ensures hit.None? ==> DepthColour(hit) == Zero
    ensures hit.Some? ==>
              var c := DepthColour(hit);
              c.x == c.y == c.z && 0.0 < c.x < 1.0 && c.x * (1.0 + hit.value.t) == 1.0
  {
    if hit.Some? {
      InverseInUnit(1.0 + hit.value.t);
    }
  }

  lemma InverseInUnit(d: real)
    requires 1.0 < d
    ensures 0.0 < 1.0 / d < 1.0 && (1.0 / d) * d == 1.0
  {
  }

  /** The normal colour maps a unit normal into [0, 1] on every channel, and a miss is black. */
  lemma NormalShading(hit: Option<HitRecord>)
    ensures hit.None? ==> NormalColour(hit) == Zero
    ensures hit.Some? && IsUnit(hit.value.normal) ==> InBox(NormalColour(hit), 0.0, 1.0)
  {
    if hit.Some? {
      UnitInBox(hit.value.normal);
    }
  }

  /** A unit vector, halved and shifted by a half, lies in [0, 1] on every channel. */
  lemma UnitInBox(n: Vec3)
    ensures IsUnit(n) ==> InBox(AddScalar(Scale(n, 0.5), 0.5), 0.0, 1.0)
  {
    if IsUnit(n) {
      UnitComponent(n.x, n.y * n.y + n.z * n.z);
      UnitComponent(n.y, n.x * n.x + n.z * n.z);
      UnitComponent(n.z, n.x * n.x + n.y * n.y);
    }
  }

  /** A component of a unit vector, shifted and halved, lies in [0, 1]. */
  lemma UnitComponent(a: real, rest: real)
    requires 0.0 <= rest && a * a + rest == 1.0
    ensures 0.0 <= a * 0.5 + 0.5 <= 1.0
  {
  }

  /** The visualizer's ray starts at the camera position and passes through the centre of the
      pixel on the focus plane, whatever the camera's depth-of-field setting. */
  lemma CentreRayIsPinhole(cam: Camera, vp: Viewport, col: nat, row: nat)
    requires SqrtLaw()
    ensures CentreRay(cam, vp, col, row).origin == cam.position
    ensures var target := Target(cam, (col as real + 0.5) * vp.widthInv, (row as real + 0.5) * vp.heightInv);
            To(CentreRay(cam, vp, col, row), Length(Sub(target, cam.position))) == target
  {
    var target := Target(cam, (col as real + 0.5) * vp.widthInv, (row as real + 0.5) * vp.heightInv);
    assert CentreRay(cam, vp, col, row) == MakeRay(cam.position, Sub(target, cam.position));
    AimsAt(cam.position, target);
  }
}
