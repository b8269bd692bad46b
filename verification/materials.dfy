/** Materials (src/Lambertian.hpp, src/Metal.hpp, src/Dielectric.hpp, src/DiffuseLight.hpp)
    and the constant texture (src/ConstantTexture.hpp). A material decides whether a ray that
    reached a surface point is scattered, in which direction and with what attenuation, and
    what light the point emits.

    The random numbers one call of `scatter` consumes are drawn beforehand and passed in
    (`Draws`): the unit-ball samples `sampleUnitSphere()` would return and one `uniformRand()`
    value. The sampling module states how such samples are produced from a stream. */
module Materials {
  import opened Scalar
  import opened Vectors
  import opened Wrappers
  import opened Rays

  /** Schlick's approximation of the Fresnel reflectance, applied to the cosine of the
      incidence angle and the refractive index. Its definition is not part of this model. */
  const Schlick: (real, real) -> real

  datatype Texture = ConstantTexture(albedo: Vec3)

  /** `sample(position)`: a constant texture ignores the position. */
  function SampleTexture(tex: Texture, position: Vec3): Vec3 {
    match tex
    case ConstantTexture(albedo) => albedo
  }

  datatype Material =
    | Lambertian(texture: Texture)
    | Metal(albedo: Vec3, roughness: real)
    | Dielectric(albedo: Vec3, refractiveIndex: real)
    | DiffuseLight(albedo: Vec3)

  /** `Lambertian(albedo)` wraps the albedo in a constant texture it owns. */
  function LambertianFromAlbedo(albedo: Vec3): Material {
    Lambertian(ConstantTexture(albedo))
  }

  /** `Metal()`: grey and perfectly smooth. */
  const DefaultMetal: Material := Metal(Vec3(0.5, 0.5, 0.5), 0.0)

  /** `Metal(albedo, roughness)` clamps the roughness to [0, 1]; `Metal(albedo)` passes 0. */
  function MakeMetal(albedo: Vec3, roughness: real): Material {
    Metal(albedo, Clamp(roughness, 0.0, 1.0))
  }

  /** `Dielectric()`: white glass of index 1.5; `Dielectric(index)` keeps the white albedo. */
  const DefaultDielectric: Material := Dielectric(Vec3(1.0, 1.0, 1.0), 1.5)

  function MakeDielectric(index: real): Material {
    Dielectric(Vec3(1.0, 1.0, 1.0), index)
  }

  /** `DiffuseLight()`: white light. */
  const DefaultDiffuseLight: Material := DiffuseLight(Vec3(1.0, 1.0, 1.0))

  /** Only `Dielectric` divides by a material parameter: the outside-to-inside index ratio is
      the reciprocal of the refractive index. */
  predicate WellFormed(m: Material) {
    m.Dielectric? ==> m.refractiveIndex != 0.0
  }

  /** The constructors keep their arguments, clamping a metal's roughness into [0, 1]. */
  lemma ConstructorsKeepParameters(albedo: Vec3, roughness: real, index: real, p: Vec3)
    ensures SampleTexture(LambertianFromAlbedo(albedo).texture, p) == albedo
    ensures 0.0 <= MakeMetal(albedo, roughness).roughness <= 1.0
    ensures 0.0 <= roughness <= 1.0 ==> MakeMetal(albedo, roughness) == Metal(albedo, roughness)
    ensures roughness < 0.0 ==> MakeMetal(albedo, roughness).roughness == 0.0
    ensures 1.0 < roughness ==> MakeMetal(albedo, roughness).roughness == 1.0
    ensures DefaultMetal == MakeMetal(Vec3(0.5, 0.5, 0.5), 0.0)
    ensures DefaultDielectric == MakeDielectric(1.5)
    ensures index != 0.0 ==> WellFormed(MakeDielectric(index))
  {
  }

  // ---------------------------------------------------------------- scattering

  /** The random samples one call of `scatter` may use: up to `MetalAttempts` unit-ball
      samples and one uniform draw. */
  datatype Draws = Draws(sphere: seq<Vec3>, uniform: real)

  /** A rough metal redraws a reflection that points below the surface at most this often. */
  const MetalAttempts: nat := 10

  /** Samples as the samplers produce them: strictly inside the unit ball, and a uniform draw
      in [0, 1). */
  predicate ValidDraws(d: Draws) {
    |d.sphere| == MetalAttempts &&
    (forall i :: 0 <= i < |d.sphere| ==> SquaredLength(d.sphere[i]) < 1.0) &&
    0.0 <= d.uniform < 1.0
  }

  /** A scattered ray and the colour it is multiplied by. */
  datatype Bounce = Bounce(attenuation: Vec3, scattered: Ray)

  /** The perturbed reflection a rough metal tries at attempt i. */
  function MetalCandidate(reflected: Vec3, roughness: real, samples: seq<Vec3>, i: nat): Vec3
    requires i < |samples|
  {
    Add(reflected, Scale(samples[i], roughness))
  }

  /** The retry loop of `Metal::scatter` from attempt i on: perturb the mirror direction and
      try again while the attempt points below the surface and fewer than ten were made. */
  function MetalRetry(reflected: Vec3, roughness: real, normal: Vec3, samples: seq<Vec3>, i: nat): (r: Vec3)
    requires i < MetalAttempts <= |samples|
    ensures Dot(normal, r) < 0.0 ==>
            forall j :: i <= j < MetalAttempts ==> Dot(normal, MetalCandidate(reflected, roughness, samples, j)) < 0.0
    decreases MetalAttempts - i
  {
    var attempt := MetalCandidate(reflected, roughness, samples, i);
    if i + 1 < MetalAttempts && Dot(normal, attempt) < 0.0 then
      MetalRetry(reflected, roughness, normal, samples, i + 1)
    else
      attempt
  }

  /** The retry loop keeps the first attempt that does not point below the surface, or the
      last attempt when all point below it. */
  lemma {:induction false} MetalRetryFirstAbove(reflected: Vec3, roughness: real, normal: Vec3, samples: seq<Vec3>, i: nat, k: nat)
    requires i <= k < MetalAttempts <= |samples|
    requires forall j :: i <= j < k ==> Dot(normal, MetalCandidate(reflected, roughness, samples, j)) < 0.0
    requires 0.0 <= Dot(normal, MetalCandidate(reflected, roughness, samples, k)) || k + 1 == MetalAttempts
    ensures MetalRetry(reflected, roughness, normal, samples, i) == MetalCandidate(reflected, roughness, samples, k)
    decreases k - i
  {
    if i < k {
      MetalRetryFirstAbove(reflected, roughness, normal, samples, i + 1, k);
    }
  }

  /** The outgoing mirror direction of a metal: the reflection, perturbed by the retry loop
      when the roughness is not zero. */
  function MetalDirection(direction: Vec3, normal: Vec3, roughness: real, samples: seq<Vec3>): Vec3
    requires MetalAttempts <= |samples|
  {
    var reflected := Reflect(direction, normal);
    if roughness != 0.0 then MetalRetry(reflected, roughness, normal, samples, 0) else reflected
  }

  /** How a dielectric sees the surface: the normal turned against the incoming direction,
      the ratio of refractive indices across the surface, and the incidence cosine. */
  datatype Orientation = Orientation(normal: Vec3, ratio: real, cosine: real)

  /** Leaving the medium (the direction agrees with the normal) flips the normal and uses the
      index itself; entering it uses the reciprocal and negates the cosine. */
  function Orient(v: Vec3, normal: Vec3, index: real): Orientation
    requires index != 0.0
  {
    var vDotN := Dot(v, normal);
    if vDotN > 0.0 then Orientation(Neg(normal), index, vDotN)
    else Orientation(normal, 1.0 / index, -vDotN)
  }

  /** The direction a dielectric sends the ray in: the reflection when the uniform draw falls
      below the reflectance (1 under total internal reflection, Schlick's value otherwise),
      the refraction otherwise. A refraction that does not exist leaves the default vector. */
  function DielectricDirection(v: Vec3, normal: Vec3, index: real, uniform: real): Vec3
    requires index != 0.0
  {
    var o := Orient(v, normal, index);
    var refracted := Refract(v, o.normal, o.ratio);
    var reflectance := if refracted.Some? then Schlick(o.cosine, index) else 1.0;
    if uniform < reflectance then Reflect(v, o.normal) else refracted.GetOr(Zero)
  }

  /** `scatter(rIn, hit, attenuation, scattered)`: None when it returns false. */
  function Scatter(m: Material, rIn: Ray, point: Vec3, normal: Vec3, d: Draws): Option<Bounce>
    requires WellFormed(m) && |d.sphere| == MetalAttempts
  {
    match m
    case Lambertian(texture) =>
      Some(Bounce(SampleTexture(texture, point), MakeRay(point, Add(normal, d.sphere[0]))))
    case Metal(albedo, roughness) =>
      var reflected := MetalDirection(rIn.direction, normal, roughness, d.sphere);
      if Dot(reflected, normal) > 0.0 then Some(Bounce(albedo, MakeRay(point, reflected))) else None
    case Dielectric(albedo, index) =>
      Some(Bounce(albedo, MakeRay(point, DielectricDirection(rIn.direction, normal, index, d.uniform))))
    case DiffuseLight(_) => None
  }

  /** `emitted(point)`: only a diffuse light emits, its albedo. */
  function Emitted(m: Material, point: Vec3): Vec3 {
    if m.DiffuseLight? then m.albedo else Zero
  }

  // ---------------------------------------------------------------- properties

  /** A Lambertian surface always scatters, with its texture's colour, and sends the ray to the
      side of the surface its unit normal points to. */
  lemma LambertianScatter(texture: Texture, rIn: Ray, point: Vec3, normal: Vec3, d: Draws)
    requires SqrtLaw()
    requires IsUnit(normal) && ValidDraws(d)
    ensures Scatter(Lambertian(texture), rIn, point, normal, d).Some?
    ensures Scatter(Lambertian(texture), rIn, point, normal, d).value.attenuation == texture.albedo
    ensures Scatter(Lambertian(texture), rIn, point, normal, d).value.scattered.origin == point
    ensures Dot(Scatter(Lambertian(texture), rIn, point, normal, d).value.scattered.direction, normal) > 0.0
  {
    var s := d.sphere[0];
    var out := Add(normal, s);
    DotBound(normal, s);
    BelowOne(Dot(normal, s), SquaredLength(s));
    assert Dot(out, normal) == SquaredLength(normal) + Dot(normal, s);
    NormalizeKeepsSide(out, normal);
  }

  /** A number whose square is below one that is itself bounded by a value below one is above
      minus one. */
  lemma BelowOne(x: real, b: real)
    requires x * x <= b < 1.0
    ensures -1.0 < x
  {
    assert x <= -1.0 ==> x * x >= 1.0;
  }

  /** A smooth metal reflects exactly the rays that arrive on the side its unit normal points
      to, along the mirror direction. */
  lemma SmoothMetalScatter(albedo: Vec3, rIn: Ray, point: Vec3, normal: Vec3, d: Draws)
    requires IsUnit(normal) && |d.sphere| == MetalAttempts
    ensures Scatter(Metal(albedo, 0.0), rIn, point, normal, d).Some? <==> Dot(rIn.direction, normal) < 0.0
    ensures Scatter(Metal(albedo, 0.0), rIn, point, normal, d).Some? ==>
            Scatter(Metal(albedo, 0.0), rIn, point, normal, d).value
            == Bounce(albedo, MakeRay(point, Reflect(rIn.direction, normal)))
  {
  }

  /** A rough metal absorbs the ray only when all ten attempts point below the surface, or
      when the attempt it keeps lies exactly in the tangent plane. */
  lemma RoughMetalAbsorbs(albedo: Vec3, roughness: real, rIn: Ray, point: Vec3, normal: Vec3, d: Draws)
    requires roughness != 0.0 && |d.sphere| == MetalAttempts
    requires Scatter(Metal(albedo, roughness), rIn, point, normal, d).None?
    ensures var reflected := Reflect(rIn.direction, normal);
      (forall j :: 0 <= j < MetalAttempts ==> Dot(normal, MetalCandidate(reflected, roughness, d.sphere, j)) < 0.0) ||
      Dot(normal, MetalDirection(rIn.direction, normal, roughness, d.sphere)) == 0.0
  {
    var r := MetalDirection(rIn.direction, normal, roughness, d.sphere);
    DotSymmetric(r, normal);
  }

  /** A dielectric always scatters, with its albedo, from the hit point. */
  lemma DielectricScatters(albedo: Vec3, index: real, rIn: Ray, point: Vec3, normal: Vec3, d: Draws)
    requires index != 0.0 && |d.sphere| == MetalAttempts
    ensures Scatter(Dielectric(albedo, index), rIn, point, normal, d).Some?
    ensures Scatter(Dielectric(albedo, index), rIn, point, normal, d).value.attenuation == albedo
    ensures Scatter(Dielectric(albedo, index), rIn, point, normal, d).value.scattered.origin == point
  {
  }

  /** The oriented normal always faces against the incoming direction, the cosine is the
      (non-negative) projection onto it, and the ratio is the index or its reciprocal
      according to the side. */
  lemma OrientFacesRay(v: Vec3, normal: Vec3, index: real)
    requires index != 0.0
    ensures Dot(v, Orient(v, normal, index).normal) <= 0.0
    ensures Orient(v, normal, index).cosine == -Dot(v, Orient(v, normal, index).normal)
    ensures 0.0 <= Orient(v, normal, index).cosine
    ensures Dot(v, normal) > 0.0 ==> Orient(v, normal, index).ratio == index
    ensures Dot(v, normal) <= 0.0 ==> Orient(v, normal, index).ratio * index == 1.0
    ensures IsUnit(normal) ==> IsUnit(Orient(v, normal, index).normal)
  {
    NegateNormal(v, normal);
  }

  lemma NegateNormal(v: Vec3, n: Vec3)
    ensures Dot(v, Neg(n)) == -Dot(v, n)
    ensures SquaredLength(Neg(n)) == SquaredLength(n)
  {
  }

  /** When no refracted direction exists the dielectric reflects (total internal reflection),
      since every uniform draw lies below 1. */
  lemma TotalInternalReflection(v: Vec3, normal: Vec3, index: real, uniform: real)
    requires index != 0.0 && 0.0 <= uniform < 1.0
    requires Refract(v, Orient(v, normal, index).normal, Orient(v, normal, index).ratio).None?
    ensures DielectricDirection(v, normal, index, uniform) == Reflect(v, Orient(v, normal, index).normal)
  {
  }

  /** When the dielectric refracts a unit direction through a unit normal, the outgoing
      direction is a unit vector obeying Snell's law: its component along the surface is the
      incoming one scaled by the index ratio. */
  lemma DielectricSnell(v: Vec3, normal: Vec3, index: real, uniform: real)
    requires SqrtLaw()
    requires index != 0.0 && IsUnit(v) && IsUnit(normal)
    requires Refract(v, Orient(v, normal, index).normal, Orient(v, normal, index).ratio).Some?
    requires Schlick(Orient(v, normal, index).cosine, index) <= uniform
    ensures var o := Orient(v, normal, index);
      var r := DielectricDirection(v, normal, index, uniform);
      r == Refract(v, o.normal, o.ratio).value &&
      IsUnit(r) && Sub(r, Scale(o.normal, Dot(r, o.normal))) == Scale(Sub(v, Scale(o.normal, Dot(v, o.normal))), o.ratio)
  {
    var o := Orient(v, normal, index);
    OrientFacesRay(v, normal, index);
    RefractSnell(v, o.normal, o.ratio);
  }

  /** Only a diffuse light emits, and it never scatters. */
  lemma LightOnlyEmits(m: Material, rIn: Ray, point: Vec3, normal: Vec3, d: Draws)
    requires WellFormed(m) && |d.sphere| == MetalAttempts
    ensures m.DiffuseLight? ==> Scatter(m, rIn, point, normal, d).None? && Emitted(m, point) == m.albedo
    ensures !m.DiffuseLight? ==> Emitted(m, point) == Zero
  {
  }
}
