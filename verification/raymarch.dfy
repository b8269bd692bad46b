/** The sphere-tracing integrator (src/Raymarch.hpp): a ray advances by the scene's distance
    value until some shape is within epsilon, the length limit is passed or the iterations run
    out; a hit shades like the path tracer, the scattered ray starting epsilon off the surface
    on the side it leaves towards. */
module Raymarches {
  import opened Scalar
  import opened Vectors
  import opened Wrappers
  import opened Rays
  import opened Viewports
  import opened Hitables
  import opened Materials
  import opened Backgrounds
  import opened Shapes
  import opened Scenes
  import opened Cameras
  import opened Integrators
  import opened Pixels
  import Raytraces

  /** The integrator's settings. */
  datatype Settings = Settings(maxRayIterations: nat, maxBounces: nat, samplesPerPixel: nat,
                               maxRayLength: real, hitEpsilon: real)

  /** 300 iterations, 10 bounces, 1 sample per pixel, length 1000 and epsilon 1e-4. */
  const DefaultSettings: Settings := Settings(300, 10, 1, 1000.0, 0.0001)

  /** Where the marching loop stopped: whether it hit, the record, the distance travelled and
      the number of scene probes made. */
  datatype March = March(hit: bool, record: HitRecord, dist: real, probes: nat)

  /** One probe of the loop from distance `dist`: the record with `t` reset to the largest
      real, probed at the point reached, then `t` made absolute. */
  function Step(hs: seq<Shape>, r: Ray, epsilon: real, dist: real, rec: HitRecord): Probe
    requires AllWellFormed(hs)
  {
    var probe := ProbeAll(hs, To(r, dist), epsilon, rec.(t := MaxReal));
    Probe(probe.hit, probe.record.(t := Abs(probe.record.t)))
  }

  /** The loop of `getColour` from iteration `it`, at distance `dist`, with the record `rec`. */
  function MarchFrom(hs: seq<Shape>, r: Ray, st: Settings, it: nat, dist: real, rec: HitRecord): (m: March)
    requires AllWellFormed(hs)
    ensures m.hit ==> m.record.hitable.Some? && m.record.hitable.value in hs
    ensures it <= st.maxRayIterations ==> m.probes <= st.maxRayIterations
    decreases st.maxRayIterations - it
  {
    if it >= st.maxRayIterations then March(false, rec, dist, it)
    else
      var step := Step(hs, r, st.hitEpsilon, dist, rec);
      var next := dist + step.record.t;
      if step.hit || next < step.record.t || next > st.maxRayLength then March(step.hit, step.record, next, it + 1)
      else MarchFrom(hs, r, st, it + 1, next, step.record)
  }

  /** The loop as written: a for loop that breaks on a hit, on the distance falling below the
      last step, or past the length limit. */
  method MarchLoop(hs: seq<Shape>, r: Ray, st: Settings) returns (hit: bool, rec: HitRecord, dist: real, iteration: nat)
    requires AllWellFormed(hs)
    ensures MarchFrom(hs, r, st, 0, 0.0, DefaultRecord) == March(hit, rec, dist, if iteration < st.maxRayIterations then iteration + 1 else iteration)
  {
    hit := false;
    rec := DefaultRecord;
    dist := 0.0;
    iteration := 0;
    while iteration < st.maxRayIterations
      invariant iteration <= st.maxRayIterations
      invariant MarchFrom(hs, r, st, 0, 0.0, DefaultRecord) == MarchFrom(hs, r, st, iteration, dist, rec)
      invariant !hit
      decreases st.maxRayIterations - iteration
    {
      var point := To(r, dist);
      var probe := ProbeAll(hs, point, st.hitEpsilon, rec.(t := MaxReal));
      hit := probe.hit;
      rec := probe.record.(t := Abs(probe.record.t));
      dist := dist + rec.t;
      if hit || dist < rec.t || dist > st.maxRayLength {
        break;
      }
      iteration := iteration + 1;
    }
  }

  /** The same loop without the test `dist < rec.t`: the reference for what the loop does. */
  function MarchPlain(hs: seq<Shape>, r: Ray, st: Settings, it: nat, dist: real, rec: HitRecord): (m: March)
    requires AllWellFormed(hs)
    decreases st.maxRayIterations - it
  {
    if it >= st.maxRayIterations then March(false, rec, dist, it)
    else
      var step := Step(hs, r, st.hitEpsilon, dist, rec);
      var next := dist + step.record.t;
      if step.hit || next > st.maxRayLength then March(step.hit, step.record, next, it + 1)
      else MarchPlain(hs, r, st, it + 1, next, step.record)
  }

  // ---------------------------------------------------------------- the loop's properties

  /** From a non-negative distance the test `dist < rec.t` never stops the loop: every step
      adds a non-negative length, so the distance is never below the last step. */
  lemma {:induction false} ShortStepTestIsDead(hs: seq<Shape>, r: Ray, st: Settings, it: nat, dist: real, rec: HitRecord)
    requires AllWellFormed(hs) && 0.0 <= dist
    ensures MarchFrom(hs, r, st, it, dist, rec) == MarchPlain(hs, r, st, it, dist, rec)
    decreases st.maxRayIterations - it
  {
    if it < st.maxRayIterations {
      var step := Step(hs, r, st.hitEpsilon, dist, rec);
      var next := dist + step.record.t;
      assert !(next < step.record.t);
      if !(step.hit || next > st.maxRayLength) {
        ShortStepTestIsDead(hs, r, st, it + 1, next, step.record);
      }
    }
  }

  /** The distance only grows, the probes never exceed the iteration limit, and the loop
      misses only when the iterations ran out or the ray went past the length limit. */
  lemma {:induction false} MarchProgress(hs: seq<Shape>, r: Ray, st: Settings, it: nat, dist: real, rec: HitRecord)
    requires AllWellFormed(hs) && 0.0 <= dist && it <= st.maxRayIterations
    ensures dist <= MarchPlain(hs, r, st, it, dist, rec).dist
    ensures it <= MarchPlain(hs, r, st, it, dist, rec).probes <= st.maxRayIterations
    ensures !MarchPlain(hs, r, st, it, dist, rec).hit ==>
              MarchPlain(hs, r, st, it, dist, rec).probes == st.maxRayIterations ||
              MarchPlain(hs, r, st, it, dist, rec).dist > st.maxRayLength
    decreases st.maxRayIterations - it
  {
    if it < st.maxRayIterations {
      var step := Step(hs, r, st.hitEpsilon, dist, rec);
      var next := dist + step.record.t;
      if !(step.hit || next > st.maxRayLength) {
        MarchProgress(hs, r, st, it + 1, next, step.record);
      }
    }
  }

  /** A hit is the first shape, in scene order, whose distance value at the point reached is
      within epsilon; the record holds that value made absolute, the point and the shape. */
  lemma {:induction false} MarchHit(hs: seq<Shape>, r: Ray, st: Settings, it: nat, dist: real, rec: HitRecord)
    requires AllWellFormed(hs)
    requires MarchFrom(hs, r, st, it, dist, rec).hit
    ensures var m := MarchFrom(hs, r, st, it, dist, rec);
            0.0 <= m.record.t <= st.hitEpsilon &&
            exists i :: 0 <= i < |hs| && m.record.hitable == Some(hs[i]) &&
              m.record.t == Abs(ShapeSdf(hs[i], m.record.point)) &&
              forall j :: 0 <= j < i ==> Abs(ShapeSdf(hs[j], m.record.point)) > st.hitEpsilon
    decreases st.maxRayIterations - it
  {
    var step := Step(hs, r, st.hitEpsilon, dist, rec);
    var next := dist + step.record.t;
    if step.hit || next < step.record.t || next > st.maxRayLength {
      var p := To(r, dist);
      ProbeAllFirst(hs, p, st.hitEpsilon, rec.(t := MaxReal));
      var i :| 0 <= i < |hs| && Abs(ShapeSdf(hs[i], p)) <= st.hitEpsilon &&
               (forall j :: 0 <= j < i ==> Abs(ShapeSdf(hs[j], p)) > st.hitEpsilon) &&
               ProbeAll(hs, p, st.hitEpsilon, rec.(t := MaxReal)) == ShapeProbe(hs[i], p, st.hitEpsilon);
      ShapeProbeProperties(hs[i], p, st.hitEpsilon);
    } else {
      MarchHit(hs, r, st, it + 1, next, step.record);
    }
  }

  // ---------------------------------------------------------------- shading

  /** The normal flipped, if need be, to the side the direction points to. */
  function PushNormal(normal: Vec3, direction: Vec3): Vec3 {
    if Dot(normal, direction) >= 0.0 then normal else Neg(normal)
  }

  /** The scattered ray moved `hitEpsilon` off the surface, along the normal or against it,
      whichever side the scattered direction points to. */
  function PushOff(normal: Vec3, scattered: Ray, hitEpsilon: real): Ray {
    MakeRay(Add(scattered.origin, Scale(PushNormal(normal, scattered.direction), hitEpsilon)), scattered.direction)
  }

  /** `getColour(r, bounces)`. The scatter at bounce b reads `draws(b)`. */
  function Colour(sc: Scene, r: Ray, st: Settings, bounces: nat, draws: nat -> Draws): Vec3
    requires AllWellFormed(sc.hitables) && SizedDraws(draws)
    decreases st.maxBounces - bounces
  {
    var m := MarchFrom(sc.hitables, r, st, 0, 0.0, DefaultRecord);
    if m.hit then
      var bounce := if bounces < st.maxBounces then ScatterAt(m.record, r, draws(bounces)) else None;
      if bounce.Some? then
        var scattered := PushOff(m.record.normal, bounce.value.scattered, st.hitEpsilon);
        Add(Emission(m.record), Mul(Colour(sc, scattered, st, bounces + 1, draws), bounce.value.attenuation))
      else
        Emission(m.record)
    else
      Sample(sc.background, r.direction)
  }

  /** The path a marched ray follows from bounce `bounces` on. */
  function Trace(sc: Scene, r: Ray, st: Settings, bounces: nat, draws: nat -> Draws): (p: Raytraces.Path)
    requires AllWellFormed(sc.hitables) && SizedDraws(draws)
    ensures bounces + |p.vertices| <= MaxInt(bounces, st.maxBounces)
    decreases st.maxBounces - bounces
  {
    var m := MarchFrom(sc.hitables, r, st, 0, 0.0, DefaultRecord);
    if m.hit then
      var bounce := if bounces < st.maxBounces then ScatterAt(m.record, r, draws(bounces)) else None;
      if bounce.Some? then
        var scattered := PushOff(m.record.normal, bounce.value.scattered, st.hitEpsilon);
        var rest := Trace(sc, scattered, st, bounces + 1, draws);
        Raytraces.Path([Raytraces.Vertex(Emission(m.record), bounce.value.attenuation)] + rest.vertices, rest.end)
      else
        Raytraces.Path([], Emission(m.record))
    else
      Raytraces.Path([], Sample(sc.background, r.direction))
  }

  /** The marcher, like the path tracer, returns the radiance of the path it follows. */
  lemma {:induction false} ColourIsRadiance(sc: Scene, r: Ray, st: Settings, bounces: nat, draws: nat -> Draws)
    requires AllWellFormed(sc.hitables) && SizedDraws(draws)
    ensures Colour(sc, r, st, bounces, draws) == Raytraces.Radiance(Trace(sc, r, st, bounces, draws))
    decreases st.maxBounces - bounces
  {
    var m := MarchFrom(sc.hitables, r, st, 0, 0.0, DefaultRecord);
    if m.hit {
      var bounce := if bounces < st.maxBounces then ScatterAt(m.record, r, draws(bounces)) else None;
      if bounce.Some? {
        var scattered := PushOff(m.record.normal, bounce.value.scattered, st.hitEpsilon);
        var rest := Trace(sc, scattered, st, bounces + 1, draws);
        assert Colour(sc, r, st, bounces, draws) ==
               Add(Emission(m.record), Mul(Colour(sc, scattered, st, bounces + 1, draws), bounce.value.attenuation));
        assert Trace(sc, r, st, bounces, draws) ==
               Raytraces.Path([Raytraces.Vertex(Emission(m.record), bounce.value.attenuation)] + rest.vertices, rest.end);
        ColourIsRadiance(sc, scattered, st, bounces + 1, draws);
        Raytraces.RadianceOfPrepend(Raytraces.Vertex(Emission(m.record), bounce.value.attenuation), rest);
      } else {
        assert Colour(sc, r, st, bounces, draws) == Emission(m.record);
        assert Trace(sc, r, st, bounces, draws) == Raytraces.Path([], Emission(m.record));
        Raytraces.EndOnly(Emission(m.record));
      }
    } else {
      assert Trace(sc, r, st, bounces, draws) == Raytraces.Path([], Sample(sc.background, r.direction));
      Raytraces.EndOnly(Sample(sc.background, r.direction));
    }
  }

  /** A march that finds nothing returns the background; a hit with no bounces left returns
      its emission. */
  lemma MissIsBackground(sc: Scene, r: Ray, st: Settings, bounces: nat, draws: nat -> Draws)
    requires AllWellFormed(sc.hitables) && SizedDraws(draws)
    ensures !MarchFrom(sc.hitables, r, st, 0, 0.0, DefaultRecord).hit ==>
              Colour(sc, r, st, bounces, draws) == Sample(sc.background, r.direction)
    ensures MarchFrom(sc.hitables, r, st, 0, 0.0, DefaultRecord).hit && st.maxBounces <= bounces ==>
              Colour(sc, r, st, bounces, draws) == Emission(MarchFrom(sc.hitables, r, st, 0, 0.0, DefaultRecord).record)
  {
  }

  /** The pushed ray keeps the scattered direction, a unit or zero vector. */
  lemma PushOffDirection(normal: Vec3, scattered: Ray, hitEpsilon: real)
    requires SqrtLaw()
    requires IsUnit(scattered.direction) || scattered.direction == Zero
    ensures PushOff(normal, scattered, hitEpsilon).direction == scattered.direction
  {
    if scattered.direction == Zero {
      NormalizeZero();
    } else {
      NormalizeOfUnit(scattered.direction);
    }
  }

  /** The pushed ray starts `hitEpsilon` along the normal or its opposite, whichever the
      direction does not point against. */
  lemma PushOffSide(normal: Vec3, scattered: Ray, hitEpsilon: real)
    ensures PushOff(normal, scattered, hitEpsilon).origin == Add(scattered.origin, Scale(PushNormal(normal, scattered.direction), hitEpsilon))
    ensures PushNormal(normal, scattered.direction) == normal || PushNormal(normal, scattered.direction) == Neg(normal)
    ensures 0.0 <= Dot(PushNormal(normal, scattered.direction), scattered.direction)
  {
    FlipSide(normal, scattered.direction);
  }

  lemma FlipSide(normal: Vec3, direction: Vec3)
    ensures PushNormal(normal, direction) == normal || PushNormal(normal, direction) == Neg(normal)
    ensures 0.0 <= Dot(PushNormal(normal, direction), direction)
  {
    DotNeg(normal, direction);
  }

  /** A scattered ray of a well-formed material starts at the hit point and has a unit or zero
      direction, so the push applies to it. */
  lemma ScatteredDirection(rec: HitRecord, r: Ray, d: Draws)
    requires SqrtLaw()
    requires MaterialReady(rec) && |d.sphere| == MetalAttempts && ScatterAt(rec, r, d).Some?
    ensures IsUnit(ScatterAt(rec, r, d).value.scattered.direction) || ScatterAt(rec, r, d).value.scattered.direction == Zero
  {
    var m := MaterialOf(rec).value;
    match m
    case Lambertian(_) =>
      NormalizeUnitOrZero(Add(rec.normal, d.sphere[0]));
    case Metal(_, roughness) =>
      NormalizeUnitOrZero(MetalDirection(r.direction, rec.normal, roughness, d.sphere));
    case Dielectric(_, index) =>
      NormalizeUnitOrZero(DielectricDirection(r.direction, rec.normal, index, d.uniform));
  }

  // ---------------------------------------------------------------- pixels

  /** The colours of a pixel's samples, sample i scattering with the oracle `scatter(i)`. */
  function SampleColours(st: Settings, sc: Scene, cam: Camera, vp: Viewport, col: nat, row: nat,
                         draws: nat -> SampleDraws, scatter: nat -> nat -> Draws): (res: Option<seq<Vec3>>)
    requires AllWellFormed(sc.hitables) && forall i: nat :: SizedDraws(scatter(i))
    ensures res.Some? ==> |res.value| == st.samplesPerPixel
  {
    match PrimaryRays(cam, vp, st.samplesPerPixel, col, row, draws, st.samplesPerPixel)
    case None => None
    case Some(rays) => Some(seq(st.samplesPerPixel, i requires 0 <= i < st.samplesPerPixel =>
                                  Colour(sc, rays[i], st, 0, scatter(i))))
  }

  /** `renderPixel(col, row)`: the value stored for the pixel. */
  method RenderPixel(st: Settings, sc: Scene, cam: Camera, vp: Viewport, col: nat, row: nat,
                     draws: nat -> SampleDraws, scatter: nat -> nat -> Draws) returns (pixel: Option<Vec3>)
    requires st.samplesPerPixel > 0
    requires AllWellFormed(sc.hitables) && forall i: nat :: SizedDraws(scatter(i))
    ensures pixel.Some? <==> SampleColours(st, sc, cam, vp, col, row, draws, scatter).Some?
    ensures pixel.Some? ==> pixel.value == Resolve(SampleColours(st, sc, cam, vp, col, row, draws, scatter).value)
  {
    var colours := SampleColours(st, sc, cam, vp, col, row, draws, scatter);
    if colours.None? {
      return None;
    }
    var value := Accumulate(colours.value);
    return Some(value);
  }
}
