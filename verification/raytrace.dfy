/** The path-tracing integrator (src/Raytrace.hpp): a ray that hits a surface returns the
    surface's emission plus, while bounces remain and the material scatters, the colour of the
    scattered ray times the attenuation; a ray that escapes returns the background. */
module Raytraces {
  import opened Scalar
  import opened Vectors
  import opened Wrappers
  import opened Rays
  import opened Viewports
  import opened Hitables
  import opened Materials
  import opened Backgrounds
  import opened Shapes
  import opened Scenes
  import opened Cameras
  import opened Integrators
  import opened Pixels

  /** The integrator's settings: at most this many bounces, this many samples per pixel. */
  datatype Settings = Settings(maxBounces: nat, samplesPerPixel: nat)

  /** 50 bounces and 100 samples per pixel. */
  const DefaultSettings: Settings := Settings(50, 100)

  /** `getColour(r, scene, bounces)`. The scatter at bounce b reads `draws(b)`. */
  function Colour(sc: Scene, r: Ray, bounces: nat, maxBounces: nat, draws: nat -> Draws): Vec3
    requires AllWellFormed(sc.hitables) && SizedDraws(draws)
    decreases maxBounces - bounces
  {
    match Nearest(sc.hitables, r, MinHitDistance, MaxReal)
    case None => Sample(sc.background, r.direction)
    case Some(rec) =>
      var bounce := if bounces < maxBounces then ScatterAt(rec, r, draws(bounces)) else None;
      if bounce.Some? then
        Add(Emission(rec), Mul(Colour(sc, bounce.value.scattered, bounces + 1, maxBounces, draws), bounce.value.attenuation))
      else
        Emission(rec)
  }

  // ---------------------------------------------------------------- the path it follows

  /** A surface the path bounced off: the light it emits and the colour it filters the rest of
      the path with. */
  datatype Vertex = Vertex(emission: Vec3, attenuation: Vec3)

  /** The scattering vertices of a path, in order, and the colour that ends it: the background
      if it escaped, the emission of the surface where it stopped otherwise. */
  datatype Path = Path(vertices: seq<Vertex>, end: Vec3)

  /** The path a ray follows from bounce `bounces` on. It has at most `maxBounces - bounces`
      scattering vertices. */
  function Trace(sc: Scene, r: Ray, bounces: nat, maxBounces: nat, draws: nat -> Draws): (p: Path)
    requires AllWellFormed(sc.hitables) && SizedDraws(draws)
    ensures bounces + |p.vertices| <= MaxInt(bounces, maxBounces)
    decreases maxBounces - bounces
  {
    match Nearest(sc.hitables, r, MinHitDistance, MaxReal)
    case None => Path([], Sample(sc.background, r.direction))
    case Some(rec) =>
      var bounce := if bounces < maxBounces then ScatterAt(rec, r, draws(bounces)) else None;
      if bounce.Some? then
        var rest := Trace(sc, bounce.value.scattered, bounces + 1, maxBounces, draws);
        Path([Vertex(Emission(rec), bounce.value.attenuation)] + rest.vertices, rest.end)
      else
        Path([], Emission(rec))
  }

  const One: Vec3 := Vec3(1.0, 1.0, 1.0)

  /** The product of the attenuations of the first k vertices. */
  function Throughput(vs: seq<Vertex>, k: nat): Vec3
    requires k <= |vs|
  {
    if k == 0 then One else Mul(Throughput(vs, k - 1), vs[k - 1].attenuation)
  }

  /** The emission of the first k vertices, each filtered by the vertices before it. */
  function Gathered(vs: seq<Vertex>, k: nat): Vec3
    requires k <= |vs|
  {
    if k == 0 then Zero else Add(Gathered(vs, k - 1), Mul(Throughput(vs, k - 1), vs[k - 1].emission))
  }

  /** The light a path carries back: the sum over its vertices of their emission through the
      vertices before them, plus its end colour through all of them. */
  function Radiance(p: Path): Vec3 {
    Add(Gathered(p.vertices, |p.vertices|), Mul(Throughput(p.vertices, |p.vertices|), p.end))
  }

  // ---------------------------------------------------------------- properties

  /** The recursive estimator computes the radiance of the path it follows. */
  lemma {:induction false} ColourIsRadiance(sc: Scene, r: Ray, bounces: nat, maxBounces: nat, draws: nat -> Draws)
    requires AllWellFormed(sc.hitables) && SizedDraws(draws)
    ensures Colour(sc, r, bounces, maxBounces, draws) == Radiance(Trace(sc, r, bounces, maxBounces, draws))
    decreases maxBounces - bounces
  {
    match Nearest(sc.hitables, r, MinHitDistance, MaxReal)
    case None =>
      EndOnly(Sample(sc.background, r.direction));
    case Some(rec) =>
      var bounce := if bounces < maxBounces then ScatterAt(rec, r, draws(bounces)) else None;
      if bounce.Some? {
        var rest := Trace(sc, bounce.value.scattered, bounces + 1, maxBounces, draws);
        assert Trace(sc, r, bounces, maxBounces, draws) == Path([Vertex(Emission(rec), bounce.value.attenuation)] + rest.vertices, rest.end);
        ColourIsRadiance(sc, bounce.value.scattered, bounces + 1, maxBounces, draws);
        RadianceOfPrepend(Vertex(Emission(rec), bounce.value.attenuation), rest);
      } else {
        EndOnly(Emission(rec));
      }
  }

  /** A path without vertices carries its end colour. */
  lemma EndOnly(end: Vec3)
    ensures Radiance(Path([], end)) == end
  {
  }

  /** Putting a vertex in front of a path adds its emission and filters the rest through it. */
  lemma RadianceOfPrepend(v: Vertex, p: Path)
    ensures Radiance(Path([v] + p.vertices, p.end)) == Add(v.emission, Mul(Radiance(p), v.attenuation))
  {
    var vs := p.vertices;
    ThroughputOfPrepend(v, vs, |vs|);
    GatheredOfPrepend(v, vs, |vs|);
    PrependAlgebra(v.emission, v.attenuation, Gathered(vs, |vs|), Throughput(vs, |vs|), p.end);
  }

  lemma PrependAlgebra(e: Vec3, a: Vec3, g: Vec3, t: Vec3, end: Vec3)
    ensures Add(Add(e, Mul(a, g)), Mul(Mul(a, t), end)) == Add(e, Mul(Add(g, Mul(t, end)), a))
  {
  }

  lemma MulAssociates(a: Vec3, b: Vec3, c: Vec3)
    ensures Mul(Mul(a, b), c) == Mul(a, Mul(b, c))
  {
  }

  lemma {:induction false} ThroughputOfPrepend(v: Vertex, vs: seq<Vertex>, k: nat)
    requires k <= |vs|
    ensures Throughput([v] + vs, k + 1) == Mul(v.attenuation, Throughput(vs, k))
  {
    var ws := [v] + vs;
    if k == 0 {
      assert Throughput(ws, 0) == One;
    } else {
      ThroughputOfPrepend(v, vs, k - 1);
      assert ws[k] == vs[k - 1];
      MulAssociates(v.attenuation, Throughput(vs, k - 1), vs[k - 1].attenuation);
    }
  }

  lemma {:induction false} GatheredOfPrepend(v: Vertex, vs: seq<Vertex>, k: nat)
    requires k <= |vs|
    ensures Gathered([v] + vs, k + 1) == Add(v.emission, Mul(v.attenuation, Gathered(vs, k)))
  {
    var ws := [v] + vs;
    if k == 0 {
      assert Gathered(ws, 0) == Zero && Throughput(ws, 0) == One;
    } else {
      GatheredOfPrepend(v, vs, k - 1);
      ThroughputOfPrepend(v, vs, k - 1);
      assert ws[k] == vs[k - 1];
      MulAssociates(v.attenuation, Throughput(vs, k - 1), vs[k - 1].emission);
      AddMulDistributes(v.emission, v.attenuation, Gathered(vs, k - 1), Mul(Throughput(vs, k - 1), vs[k - 1].emission));
    }
  }

  lemma AddMulDistributes(e: Vec3, a: Vec3, g: Vec3, x: Vec3)
    ensures Add(Add(e, Mul(a, g)), Mul(a, x)) == Add(e, Mul(a, Add(g, x)))
  {
  }

  /** A ray that hits nothing in (0.001, largest real) returns the background's colour in its
      direction. */
  lemma MissIsBackground(sc: Scene, r: Ray, bounces: nat, maxBounces: nat, draws: nat -> Draws)
    requires AllWellFormed(sc.hitables) && SizedDraws(draws)
    requires forall i :: 0 <= i < |sc.hitables| ==> ShapeHit(sc.hitables[i], r, MinHitDistance, MaxReal).None?
    ensures Colour(sc, r, bounces, maxBounces, draws) == Sample(sc.background, r.direction)
  {
    NearestMisses(sc.hitables, r, MinHitDistance, MaxReal);
  }

  /** A ray whose nearest hit is a light returns exactly the light's colour, with no further
      bounce; a ray whose nearest hit has no material returns black. */
  lemma LightIsEmission(sc: Scene, r: Ray, bounces: nat, maxBounces: nat, draws: nat -> Draws)
    requires AllWellFormed(sc.hitables) && SizedDraws(draws)
    requires Nearest(sc.hitables, r, MinHitDistance, MaxReal).Some?
    ensures MaterialOf(Nearest(sc.hitables, r, MinHitDistance, MaxReal).value) == None ==>
              Colour(sc, r, bounces, maxBounces, draws) == Zero
    ensures MaterialOf(Nearest(sc.hitables, r, MinHitDistance, MaxReal).value).Some? &&
            MaterialOf(Nearest(sc.hitables, r, MinHitDistance, MaxReal).value).value.DiffuseLight? ==>
              Colour(sc, r, bounces, maxBounces, draws) == MaterialOf(Nearest(sc.hitables, r, MinHitDistance, MaxReal).value).value.albedo
    ensures MaterialOf(Nearest(sc.hitables, r, MinHitDistance, MaxReal).value).Some? &&
            MaterialOf(Nearest(sc.hitables, r, MinHitDistance, MaxReal).value).value.DiffuseLight? ==>
              Trace(sc, r, bounces, maxBounces, draws).vertices == []
  {
    var rec := Nearest(sc.hitables, r, MinHitDistance, MaxReal).value;
    SceneRecordReady(sc.hitables, rec);
    EmissionOrScatter(rec, r, draws(bounces));
  }

  /** Once the bounces are used up the colour is the background on a miss and the hit's
      emission otherwise: nothing scatters any more. */
  lemma LimitStopsBouncing(sc: Scene, r: Ray, bounces: nat, maxBounces: nat, draws: nat -> Draws)
    requires AllWellFormed(sc.hitables) && SizedDraws(draws)
    requires maxBounces <= bounces
    ensures Trace(sc, r, bounces, maxBounces, draws).vertices == []
    ensures Nearest(sc.hitables, r, MinHitDistance, MaxReal).Some? ==>
              Colour(sc, r, bounces, maxBounces, draws) == Emission(Nearest(sc.hitables, r, MinHitDistance, MaxReal).value)
  {
  }

  // ---------------------------------------------------------------- pixels

  /** The colours of a pixel's samples, sample i tracing its primary ray with the scatter
      oracle `scatter(i)`; none when a primary ray cannot be drawn. */
  function SampleColours(st: Settings, sc: Scene, cam: Camera, vp: Viewport, col: nat, row: nat,
                         draws: nat -> SampleDraws, scatter: nat -> nat -> Draws): (res: Option<seq<Vec3>>)
    requires AllWellFormed(sc.hitables) && forall i: nat :: SizedDraws(scatter(i))
    ensures res.Some? ==> |res.value| == st.samplesPerPixel
  {
    match PrimaryRays(cam, vp, st.samplesPerPixel, col, row, draws, st.samplesPerPixel)
    case None => None
    case Some(rays) => Some(seq(st.samplesPerPixel, i requires 0 <= i < st.samplesPerPixel =>
                                  Colour(sc, rays[i], 0, st.maxBounces, scatter(i))))
  }

  /** `renderPixel(col, row)`: the value stored for the pixel. */
  method RenderPixel(st: Settings, sc: Scene, cam: Camera, vp: Viewport, col: nat, row: nat,
                     draws: nat -> SampleDraws, scatter: nat -> nat -> Draws) returns (pixel: Option<Vec3>)
    requires st.samplesPerPixel > 0
    requires AllWellFormed(sc.hitables) && forall i: nat :: SizedDraws(scatter(i))
    ensures pixel.Some? <==> SampleColours(st, sc, cam, vp, col, row, draws, scatter).Some?
    ensures pixel.Some? ==> pixel.value == Resolve(SampleColours(st, sc, cam, vp, col, row, draws, scatter).value)
  {
    var colours := SampleColours(st, sc, cam, vp, col, row, draws, scatter);
    if colours.None? {
      return None;
    }
    var value := Accumulate(colours.value);
    return Some(value);
  }

  /** With one sample per pixel and no depth of field, the pixel is the corrected colour of the
      ray through the pixel's centre. */
  lemma SingleSampleIsCentre(st: Settings, sc: Scene, cam: Camera, vp: Viewport, col: nat, row: nat,
                             draws: nat -> SampleDraws, scatter: nat -> nat -> Draws)
    requires st.samplesPerPixel == 1 && !cam.depthOfFieldEnabled
    requires AllWellFormed(sc.hitables) && forall i: nat :: SizedDraws(scatter(i))
    ensures SampleColours(st, sc, cam, vp, col, row, draws, scatter) ==
            Some([Colour(sc, GetRay(cam, (col as real + 0.5) * vp.widthInv, (row as real + 0.5) * vp.heightInv, true, []).value.ray,
                         0, st.maxBounces, scatter(0))])
  {
    var ray := GetRay(cam, (col as real + 0.5) * vp.widthInv, (row as real + 0.5) * vp.heightInv, true, []).value.ray;
    var p := SamplePoint(vp, 1, col, row, draws(0));
    assert p.u == (col as real + 0.5) * vp.widthInv && p.v == (row as real + 0.5) * vp.heightInv;
    assert PrimaryRay(cam, vp, 1, col, row, draws(0)) == Some(ray);
    assert PrimaryRays(cam, vp, 1, col, row, draws, 0) == Some([]);
    assert [] + [ray] == [ray];
    var colours := SampleColours(st, sc, cam, vp, col, row, draws, scatter).value;
    assert PrimaryRays(cam, vp, 1, col, row, draws, 1) == Some([ray]);
    assert colours[0] == Colour(sc, ray, 0, st.maxBounces, scatter(0));
    assert colours == [Colour(sc, ray, 0, st.maxBounces, scatter(0))];
  }
}
