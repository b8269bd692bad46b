/** The preview integrator (src/Preview.hpp): like the path tracer, but a scattered ray is
    never traced; it takes the background's colour in its direction. */
module Previews {
  import opened Scalar
  import opened Vectors
  import opened Wrappers
  import opened Rays
  import opened Viewports
  import opened Hitables
  import opened Materials
  import opened Backgrounds
  import opened Shapes
  import opened Scenes
  import opened Cameras
  import opened Integrators
  import opened Pixels
  import Raytraces

  /** `samplesPerPixel = 100`. */
  const DefaultSamplesPerPixel: nat := 100

  /** `getColour(r)`; a scatter reads the draws `d`. */
  function Colour(sc: Scene, r: Ray, d: Draws): Vec3
    requires AllWellFormed(sc.hitables) && |d.sphere| == MetalAttempts
  {
    match Nearest(sc.hitables, r, MinHitDistance, MaxReal)
    case None => Sample(sc.background, r.direction)
    case Some(rec) =>
      match ScatterAt(rec, r, d)
      case Some(b) => Add(Emission(rec), Mul(b.attenuation, Sample(sc.background, b.scattered.direction)))
      case None => Emission(rec)
  }

  /** The preview is the path tracer limited to one bounce whenever the scattered ray escapes
      the scene; it differs only where the scattered ray hits something, which the preview
      does not look for. */
  lemma OneBounceWhenEscaping(sc: Scene, r: Ray, draws: nat -> Draws)
    requires AllWellFormed(sc.hitables) && SizedDraws(draws)
    requires Nearest(sc.hitables, r, MinHitDistance, MaxReal).Some? ==>
             var rec := Nearest(sc.hitables, r, MinHitDistance, MaxReal).value;
             MaterialReady(rec) &&
             (ScatterAt(rec, r, draws(0)).Some? ==>
                Nearest(sc.hitables, ScatterAt(rec, r, draws(0)).value.scattered, MinHitDistance, MaxReal).None?)
    ensures Colour(sc, r, draws(0)) == Raytraces.Colour(sc, r, 0, 1, draws)
  {
    match Nearest(sc.hitables, r, MinHitDistance, MaxReal)
    case None =>
    case Some(rec) =>
      match ScatterAt(rec, r, draws(0))
      case None =>
      case Some(b) =>
        var bg := Sample(sc.background, b.scattered.direction);
        assert Raytraces.Colour(sc, b.scattered, 1, 1, draws) == bg;
        MulCommutes(b.attenuation, bg);
  }

  lemma MulCommutes(a: Vec3, b: Vec3)
    ensures Mul(a, b) == Mul(b, a)
  {
  }

  /** A ray that hits nothing returns the background's colour in its direction. */
  lemma MissIsBackground(sc: Scene, r: Ray, d: Draws)
    requires AllWellFormed(sc.hitables) && |d.sphere| == MetalAttempts
    requires forall i :: 0 <= i < |sc.hitables| ==> ShapeHit(sc.hitables[i], r, MinHitDistance, MaxReal).None?
    ensures Colour(sc, r, d) == Sample(sc.background, r.direction)
  {
    NearestMisses(sc.hitables, r, MinHitDistance, MaxReal);
  }

  /** A hit that does not scatter returns its emission: black without a material, the
      light's colour on a light. */
  lemma NoScatterIsEmission(sc: Scene, r: Ray, d: Draws)
    requires AllWellFormed(sc.hitables) && |d.sphere| == MetalAttempts
    requires Nearest(sc.hitables, r, MinHitDistance, MaxReal).Some?
    ensures var rec := Nearest(sc.hitables, r, MinHitDistance, MaxReal).value;
            MaterialOf(rec).None? ==> Colour(sc, r, d) == Zero
    ensures var rec := Nearest(sc.hitables, r, MinHitDistance, MaxReal).value;
            MaterialOf(rec).Some? && MaterialOf(rec).value.DiffuseLight? ==>
              Colour(sc, r, d) == MaterialOf(rec).value.albedo
  {
    var rec := Nearest(sc.hitables, r, MinHitDistance, MaxReal).value;
    SceneRecordReady(sc.hitables, rec);
    EmissionOrScatter(rec, r, d);
  }

  /** A scattering hit adds the background seen along the scattered direction, filtered by
      the attenuation, to the emission. */
  lemma ScatterSeesBackground(sc: Scene, r: Ray, d: Draws)
    requires AllWellFormed(sc.hitables) && |d.sphere| == MetalAttempts
    requires Nearest(sc.hitables, r, MinHitDistance, MaxReal).Some?
    requires var rec := Nearest(sc.hitables, r, MinHitDistance, MaxReal).value;
             MaterialReady(rec) && ScatterAt(rec, r, d).Some?
    ensures var rec := Nearest(sc.hitables, r, MinHitDistance, MaxReal).value;
            var b := ScatterAt(rec, r, d).value;
            Colour(sc, r, d) == Add(Emission(rec), Mul(b.attenuation, Sample(sc.background, b.scattered.direction)))
    ensures var rec := Nearest(sc.hitables, r, MinHitDistance, MaxReal).value;
            Emission(rec) == Zero
  {
    var rec := Nearest(sc.hitables, r, MinHitDistance, MaxReal).value;
    EmissionOrScatter(rec, r, d);
  }

  // ---------------------------------------------------------------- pixels

  /** The colours of a pixel's samples, sample i scattering with the draws `scatter(i)`. */
  function SampleColours(samplesPerPixel: nat, sc: Scene, cam: Camera, vp: Viewport, col: nat, row: nat,
                         draws: nat -> SampleDraws, scatter: nat -> Draws): (res: Option<seq<Vec3>>)
    requires AllWellFormed(sc.hitables) && SizedDraws(scatter)
    ensures res.Some? ==> |res.value| == samplesPerPixel
  {
    match PrimaryRays(cam, vp, samplesPerPixel, col, row, draws, samplesPerPixel)
    case None => None
    case Some(rays) => Some(seq(samplesPerPixel, i requires 0 <= i < samplesPerPixel =>
                                  Colour(sc, rays[i], scatter(i))))
  }

  /** `renderPixel(col, row)`: the value stored for the pixel. */
  method RenderPixel(samplesPerPixel: nat, sc: Scene, cam: Camera, vp: Viewport, col: nat, row: nat,
                     draws: nat -> SampleDraws, scatter: nat -> Draws) returns (pixel: Option<Vec3>)
    requires samplesPerPixel > 0
    requires AllWellFormed(sc.hitables) && SizedDraws(scatter)
    ensures pixel.Some? <==> SampleColours(samplesPerPixel, sc, cam, vp, col, row, draws, scatter).Some?
    ensures pixel.Some? ==> pixel.value == Resolve(SampleColours(samplesPerPixel, sc, cam, vp, col, row, draws, scatter).value)
  {
    var colours := SampleColours(samplesPerPixel, sc, cam, vp, col, row, draws, scatter);
    if colours.None? {
      return None;
    }
    var value := Accumulate(colours.value);
    return Some(value);
  }

  /** A pixel of an empty scene is the corrected average of the background seen by its
      samples. */
  lemma EmptyScenePixel(samplesPerPixel: nat, sc: Scene, cam: Camera, vp: Viewport, col: nat, row: nat,
                        draws: nat -> SampleDraws, scatter: nat -> Draws)
    requires sc.hitables == [] && SizedDraws(scatter)
    requires PrimaryRays(cam, vp, samplesPerPixel, col, row, draws, samplesPerPixel).Some?
    ensures var rays := PrimaryRays(cam, vp, samplesPerPixel, col, row, draws, samplesPerPixel).value;
            SampleColours(samplesPerPixel, sc, cam, vp, col, row, draws, scatter).value ==
            seq(samplesPerPixel, i requires 0 <= i < samplesPerPixel => Sample(sc.background, rays[i].direction))
  {
    var rays := PrimaryRays(cam, vp, samplesPerPixel, col, row, draws, samplesPerPixel).value;
    forall i | 0 <= i < samplesPerPixel
      ensures Colour(sc, rays[i], scatter(i)) == Sample(sc.background, rays[i].direction)
    {
      MissIsBackground(sc, rays[i], scatter(i));
    }
  }
}
