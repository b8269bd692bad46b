/** What the integrators (src/Raytrace.hpp, src/Preview.hpp, src/Raymarch.hpp and
    RaytraceVisualizer.hpp) share when they shade a hit: the material of the hit object, the
    light it emits, and the bounce it scatters. The random draws a scatter consumes come from
    an oracle indexed by the bounce number. */
module Integrators {
  import opened Scalar
  import opened Vectors
  import opened Wrappers
  import opened Rays
  import opened Hitables
  import opened Materials
  import opened Scenes

  /** The lower bound on the hit distance every ray-traced integrator passes to `scene.hit`. */
  const MinHitDistance: real := 0.001

  /** The scatter oracle gives every bounce the draws a scatter reads. */
  ghost predicate SizedDraws(draws: nat -> Draws) {
    forall b: nat :: |draws(b).sphere| == MetalAttempts
  }

  /** The record's material, if any, was built by its constructor. */
  predicate MaterialReady(rec: HitRecord) {
    MaterialOf(rec).Some? ==> Materials.WellFormed(MaterialOf(rec).value)
  }

  /** `material ? material->emitted(rec.point) : Vec3()`. */
  function Emission(rec: HitRecord): Vec3 {
    if MaterialOf(rec).Some? then Emitted(MaterialOf(rec).value, rec.point) else Zero
  }

  /** `material && material->scatter(r, rec, attenuation, scattered)`: none when there is no
      material or it does not scatter. */
  function ScatterAt(rec: HitRecord, r: Ray, d: Draws): Option<Bounce>
    requires MaterialReady(rec) && |d.sphere| == MetalAttempts
  {
    if MaterialOf(rec).Some? then Scatter(MaterialOf(rec).value, r, rec.point, rec.normal, d) else None
  }

  /** A record found in a scene of well-formed shapes carries a well-formed material. */
  lemma SceneRecordReady(hs: seq<Shape>, rec: HitRecord)
    requires AllWellFormed(hs) && rec.hitable.Some? && rec.hitable.value in hs
    ensures MaterialReady(rec)
  {
    assert Hitables.WellFormed(rec.hitable.value);
  }

  /** Only a light emits, and a light never scatters; an object without a material neither
      emits nor scatters. */
  lemma EmissionOrScatter(rec: HitRecord, r: Ray, d: Draws)
    requires MaterialReady(rec) && |d.sphere| == MetalAttempts
    ensures MaterialOf(rec).None? ==> Emission(rec) == Zero && ScatterAt(rec, r, d).None?
    ensures MaterialOf(rec).Some? && MaterialOf(rec).value.DiffuseLight? ==>
              ScatterAt(rec, r, d).None? && Emission(rec) == MaterialOf(rec).value.albedo
    ensures MaterialOf(rec).Some? && !MaterialOf(rec).value.DiffuseLight? ==> Emission(rec) == Zero
  {
    if MaterialOf(rec).Some? {
      LightOnlyEmits(MaterialOf(rec).value, r, rec.point, rec.normal, d);
    }
  }
}
