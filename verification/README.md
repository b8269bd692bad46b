# A verified model of a small CPU path tracer

This project models the core of a C++ path tracer in Dafny and proves properties of the model.
The tracer follows rays from a pinhole or thin-lens camera through a scene of spheres,
rectangles, boxes and signed-distance hitables. It scatters them off Lambertian, metal,
dielectric and light materials, averages several jittered samples per pixel, and
gamma-corrects them. It schedules pixels in 64x64 tiles pulled from a shared counter, stores
them in a byte-addressed image and writes the image as a plain-text PPM file.

The model works over Dafny `real`, so it states the algebraic and combinatorial contracts of
the code, not IEEE rounding. The modules follow the source files:

- `Scalar`, `Vectors`, `Quaternions` (with `QuatAlgebra`, `QuatIdentities` and `QuatRotation`
  for the Hamilton-product algebra and the rotation laws), and `Transforms`. These are the
  closed-form linear algebra of `src/Math.hpp`, `src/Vec3.hpp`, `src/Quat.hpp` and
  `src/Transform.hpp`.
- `Rays`, `Viewports` and `Sampling` model the root `Ray.hpp`, `Viewport.hpp` and
  `Sampling.hpp`. The rejection samplers read a finite stream of uniform draws.
- `Hitables`, `Shapes`, `Spheres`, `Rects`, `Boxes` and `Scenes` model the hit records, the SDF
  hit rule, the three primitives, the nearest-hit scan and the SDF minimum.
- `Materials`, `Backgrounds` and `Cameras` model the scatter and emission rules, the sky
  gradient, and primary rays with optional depth of field.
- `Integrators`, `Pixels`, `Raytraces`, `Previews`, `Raymarches` and `Visualizers` model the
  shared per-hit step, the per-pixel sampling and averaging, and the four integrators.
- `Renderers`, `Images`, `Files` and `Viewers` model the tile scheduler, the image buffer,
  the PPM writer and the viewer's pure helpers.
- `Wrappers` provides `Option`.

Randomness is an explicit argument. The samplers take a sequence of draws. The integrators
take a function from bounce number to the draws that bounce consumes. `sqrt`, `tan`, `sin`,
`cos`, `acos` and the Schlick approximation are uninterpreted functions. The members that need
`sqrt(x) * sqrt(x) == x` carry the law as a precondition (`Scalar.SqrtLaw`).

## Model

| member | source | states |
|---|---|---|
| Scalar.Min | src/Math.hpp:37-40 | the smaller real is below both arguments and is one of them |
| Scalar.Max | src/Math.hpp:52-55 | the larger real is above both arguments and is one of them |
| Scalar.MinInt | src/Math.hpp:27-35 | the integer minimum is below both arguments and is one of them |
| Scalar.MaxInt | src/Math.hpp:42-50 | the integer maximum is above both arguments and is one of them |
| Scalar.MinMaxOrder | src/Math.hpp:27-55 | `min(a, b) <= max(a, b)`, and the two together return exactly the set of arguments |
| Scalar.Clamp | src/Math.hpp:72-75 | with ordered bounds the result lies in them, equals the argument exactly when the argument already does, and is the violated bound otherwise |
| Scalar.ClampInt | src/Math.hpp:67-70 | the same guarantees for the `int` overload |
| Scalar.ClampUint | src/Math.hpp:62-65 | the `uint` overload keeps ordered bounds and sends anything above the upper bound to it |
| Scalar.U32 | src/Math.hpp:62 | converting an `int` to `uint` gives the unique value below 2^32 congruent to it |
| Scalar.ClampWrappedNegative | tests/math.cpp:33-35 | `clamp(uint(-3), 1, 2) == 2` because -3 wraps to 2^32 - 3, while `clamp(int(-3), 1, 2) == 1` |
| Scalar.Abs | src/Math.hpp:57-60 | the absolute value is non-negative and is the argument or its negation |
| Scalar.AbsNegate | tests/math.cpp:27-30 | `abs(-a) == abs(a)` |
| Scalar.CloseEnough | src/Math.hpp:79-82 | `closeEnough(a, b, e)` holds exactly when b lies strictly inside (a - e, a + e) |
| Scalar.CloseEnoughSymmetric | src/Math.hpp:79-82 | the test is symmetric in a and b, and no value is close enough to itself with a zero tolerance |
| Vectors.Div | src/Vec3.hpp:158-161 | component-wise division undone by component-wise multiplication |
| Vectors.DivScalar | src/Vec3.hpp:178-181 | division by a scalar undone by scaling back |
| Vectors.ScalarDiv | src/Vec3.hpp:198-201 | `c / v` multiplied back by v gives c on every component |
| Vectors.ScalarSubNegates | src/Vec3.hpp:188-191 | `v - c == -(c - v)` and `c - v == -(v - c)` |
| Vectors.DivScalarIsScale | tests/vec3.cpp:48 | dividing by c is scaling by 1 / c |
| Vectors.IndexWraps | src/Vec3.hpp:42-43 | the index is read modulo 3: `v[i + 3] == v[i]`, `v[0..2]` are x, y, z and `v[3] == v[0]` |
| Vectors.SquaredLengthSign | src/Vec3.hpp:54 | the squared length is non-negative and zero exactly for the zero vector |
| Vectors.DotSelf | tests/vec3.cpp:54 | `dot(v, v) == squaredLength(v)` |
| Vectors.DotSymmetric | src/Vec3.hpp:254-257 | the dot product is symmetric |
| Vectors.DotNeg | src/Vec3.hpp:254-257 | negating one factor negates the dot product |
| Vectors.LengthZero | src/Vec3.hpp:55 | the length is non-negative and zero exactly for the zero vector |
| Vectors.CrossOrthogonal | src/Vec3.hpp:259-262 | the cross product is orthogonal to both factors |
| Vectors.CrossOfAxes | tests/vec3.cpp:55 | `cross((1,0,0), (0,1,0)) == (0,0,1)` |
| Vectors.CrossLength | src/Vec3.hpp:259-262 | Lagrange's identity for the squared length of the cross product |
| Vectors.DotBound | src/Vec3.hpp:254-262 | the Cauchy-Schwarz bound on the dot product |
| Vectors.Normalize | src/Vec3.hpp:264-270 | a zero-length vector comes back unchanged; otherwise the result times the length is the vector |
| Vectors.NormalizeZero | src/Vec3.hpp:123-129 | normalising the zero vector gives the zero vector and raises nothing |
| Vectors.NormalizeUnit | tests/vec3.cpp:56 | a non-zero vector normalises to unit length |
| Vectors.NormalizeOfUnit | src/Vec3.hpp:264-270 | normalising a unit vector leaves it unchanged |
| Vectors.NormalizeUnitOrZero | src/Vec3.hpp:264-270 | a normalised vector is unit or zero |
| Vectors.NormalizeKeepsSide | src/Vec3.hpp:264-270 | normalising keeps the side of a plane a vector points to |
| Vectors.MinComponent | src/Vec3.hpp:203-206 | the smallest component is below every component and is one of them |
| Vectors.MaxComponent | src/Vec3.hpp:213-216 | the largest component is above every component and is one of them |
| Vectors.CloseEnoughV | src/Vec3.hpp:228-231 | two vectors are close enough exactly when every component pair is |
| Vectors.All | src/Vec3.hpp:233-236 | `all(v)` holds exactly when no component is zero |
| Vectors.Any | src/Vec3.hpp:238-241 | `any(v)` holds exactly when v is not the zero vector |
| Vectors.Sign | src/Vec3.hpp:243-246 | each component is +1 or -1, and +1 exactly when the input component is positive |
| Vectors.SignOfZero | src/Vec3.hpp:243-246 | the zero vector's sign is (-1, -1, -1) |
| Vectors.SqrtVOfSquares | tests/vec3.cpp:57 | `sqrt((4, 9, 16)) == (2, 3, 4)` |
| Vectors.MixClamped | src/Vec3.hpp:248-252 | the scalar mean with t clamped lies between its ends and is an end for t outside [0, 1] |
| Vectors.LerpBetween | src/Vec3.hpp:248-252 | every component of a lerp lies between the matching components of a and b; t <= 0 gives a and t >= 1 gives b |
| Vectors.Reflect | src/Vec3.hpp:277-281 | for a unit normal, the reflected vector's normal component is the negated original one |
| Vectors.ReflectInvolutive | src/Vec3.hpp:277-281 | reflecting twice about a unit normal gives the vector back, and reflection keeps lengths |
| Vectors.ReflectExample | tests/vec3.cpp:59 | `reflect((1,-1,0), (0,1,0)) == (1,1,0)` |
| Vectors.Refract | src/Vec3.hpp:283-295 | a refracted direction is produced exactly when the discriminant is positive; otherwise nothing is written |
| Vectors.RefractRatioOne | src/Vec3.hpp:284-291 | with ratio 1 and `v . n < 0` the refracted direction is v itself |
| Vectors.RefractExample | tests/vec3.cpp:60-62 | `refract((1,-1,0), (0,1,0), 1)` succeeds with (1,-1,0) |
| Vectors.RefractSnell | src/Vec3.hpp:283-295 | Snell's law: the tangential part is the incident one times the ratio, and a unit incident vector refracts to a unit vector |
| Quaternions.FromScalarVectorParts | src/Quat.hpp:22 | `Quat(s, v)` has scalar part s and vector part v |
| Quaternions.IndexClamps | src/Quat.hpp:33-34 | indices 0..3 read w, x, y, z and every index from 3 up reads z, so `q[4] == q[3]` |
| Quaternions.ScalarOperatorExamples | tests/quat.cpp:59-63 | `(1,-1,0,1) += 1` gives (2,0,1,2), `-= 2` gives (0,-2,-1,0), and `2 - (0,-1,2,3) == (2,3,0,-1)` |
| Quaternions.ScaleExamples | tests/quat.cpp:64-67 | `*= -2` then `/= 2` give (0,4,2,0) and (0,2,1,0) |
| Quaternions.DivScalar | src/Quat.hpp:251-254 | division by a non-zero scalar undone by scaling back |
| Quaternions.MinComponent | src/Quat.hpp:276-279 | the smallest component is below all four and is one of them |
| Quaternions.MaxComponent | src/Quat.hpp:286-289 | the largest component is above all four and is one of them |
| Quaternions.CloseEnoughQ | src/Quat.hpp:301-304 | two quaternions are close enough exactly when every component pair is |
| Quaternions.Conjugate | src/Quat.hpp:45 | the conjugate keeps the scalar part and negates the vector part |
| Quaternions.SquaredNormSign | src/Quat.hpp:47 | the squared norm is non-negative and zero exactly for the zero quaternion |
| Quaternions.ConjugateInvolution | src/Quat.hpp:134-140 | conjugating twice gives the quaternion back, and conjugation keeps the squared norm |
| Quaternions.ConjugateExample | tests/quat.cpp:71-72 | `conjugate((1,2,3,4)) == (1,-2,-3,-4)` |
| Quaternions.NormExample | tests/quat.cpp:73-75 | (-2,2,-2,2) has squared norm 16 and norm 4 |
| Quaternions.Normalize | src/Quat.hpp:148-161 | a zero-norm quaternion becomes the identity; otherwise the result times the norm is the quaternion |
| Quaternions.Reciprocal | src/Quat.hpp:163-172 | a zero squared norm gives the identity; otherwise the result times the squared norm is the conjugate |
| Quaternions.Reciprocate | src/Quat.hpp:332-340 | the free `reciprocate`, which multiplies by the inverse squared norm, equals the member `reciprocal` |
| Quaternions.DotProperties | src/Quat.hpp:312-315 | `dot(q, q)` is the squared norm, and `dot((1,-1,2,-2), (-2,-1,2,1)) == 1` |
| Quaternions.LerpBetween | src/Quat.hpp:306-310 | every component of a lerp lies between the ends' components; t <= 0 gives a and t >= 1 gives b |
| Quaternions.AxisAngleToQuat | src/Quat.hpp:342-353 | a zero angle or a zero-length axis gives the identity; otherwise the scalar part is cos(angle/2) and the vector part the unit axis times sin(angle/2) |
| Quaternions.AxisAngleUnit | src/Quat.hpp:342-353 | every quaternion built from an axis and angle is a unit quaternion |
| Quaternions.GetAxisAngle | src/Quat.hpp:189-200 | the angle is 2 acos(w), and it is zero exactly when the axis is set to zero because acos(w) is zero; otherwise the axis times sqrt(1 - w^2) is the vector part |
| Quaternions.AxisAngleAxis | src/Quat.hpp:189-200 | for w^2 < 1 and a non-zero angle, sqrt(1 - w^2) is positive and the axis times it is the vector part, so the axis points along the vector part; for a unit quaternion the axis has length 1 |
| QuatAlgebra.MulVectorForm | src/Quat.hpp:224-229 | the product is the scalar/vector formula of the source: `(a.w b.w - a.v . b.v, a.w b.v + b.w a.v + a.v x b.v)` |
| QuatAlgebra.MulIdentity | src/Quat.hpp:18 | the default quaternion is a two-sided identity for the product |
| QuatAlgebra.MulAssociative | src/Quat.hpp:75-89 | the Hamilton product is associative, so chaining rotations does not depend on grouping |
| QuatAlgebra.MulScale | src/Quat.hpp:224-229 | the product scales with either factor |
| QuatAlgebra.MulByReal | src/Quat.hpp:224-229 | multiplying by a real quaternion on either side scales |
| QuatAlgebra.MulConjugate | src/Quat.hpp:224-229 | `q q* == q* q == (|q|^2, 0, 0, 0)` |
| QuatAlgebra.ConjugateOfProduct | src/Quat.hpp:224-229 | the conjugate of a product is the product of the conjugates in reverse order |
| QuatAlgebra.NormalizeUnit | tests/quat.cpp:76-77 | a normalised quaternion has unit norm, and the zero quaternion is exactly the one that normalises to the identity with norm zero |
| QuatAlgebra.MulReciprocal | src/Quat.hpp:163-172 | a non-zero quaternion times its reciprocal, on either side, is the identity |
| QuatAlgebra.ReciprocalExamples | tests/quat.cpp:78-80 | `(1,-1,1,-1)^-1 == (0.25,0.25,-0.25,0.25)`, and the zero quaternion's reciprocal is the identity |
| QuatAlgebra.DivInverse | src/Quat.hpp:231-234 | `a / b` times b is a for non-zero b; dividing by zero leaves a unchanged |
| QuatAlgebra.DivSelf | tests/quat.cpp:57-58 | `q / q` is the identity for a non-zero q, and zero for zero |
| QuatAlgebra.ScalarDivInverse | src/Quat.hpp:271-274 | `c / q` times q is the real quaternion c for non-zero q, and `c / 0` is c |
| QuatRotation.RotateIdentity | src/Quat.hpp:355-363 | rotating by the default quaternion changes nothing |
| QuatRotation.RotateLinear | src/Quat.hpp:355-363 | `rotate` is linear in the vector: it commutes with sums, differences and scaling |
| QuatRotation.RotateIsSandwich | src/Quat.hpp:355-363 | `rotate(v, q)` is the vector part of q (0, v) q*, whose scalar part is zero, for every q |
| QuatRotation.RotateConjugate | src/Quat.hpp:355-363 | rotating by q then by its conjugate scales by `|q|^4`, so a unit quaternion's conjugate undoes its rotation |
| QuatRotation.RotateLength | src/Quat.hpp:355-363 | rotation scales squared lengths by `|q|^4`, so a unit quaternion keeps lengths |
| QuatRotation.RotateDot | src/Quat.hpp:355-363 | a unit quaternion keeps dot products |
| QuatRotation.RotateQuarterTurn | tests/quat.cpp:106-107 | a quarter turn about z sends (1,1,0) to (-1,1,0) |
| Rays.MakeRayDirection | Ray.hpp:15 | a constructed ray keeps its origin and stores the unit direction of a non-zero argument, which scaled by the argument's length gives the argument back; a zero direction stays zero |
| Rays.ToProperties | Ray.hpp:19 | the point at parameter 0 is the origin, advancing by s then t is advancing by s + t, and the point at t lies at squared distance t² times the direction's squared length from the origin |
| Rays.DefaultRayExample | tests/ray.cpp:11-14 | the default ray starts at the origin, looks down -z, and reaches (0, 0, -5) at parameter 5 |
| Rays.MakeRayExample | tests/ray.cpp:16-19 | the ray from (0, 0, 1) towards -z keeps its origin and direction and reaches the origin at parameter 1 |
| Raytraces.Trace | src/Raytrace.hpp:46-63 | the path followed from bounce b has at most maxBounces - b scattering vertices |
| Raytraces.ColourIsRadiance | src/Raytrace.hpp:46-63 | the recursive colour equals the radiance of the traced path: each vertex's emission plus its attenuation times everything gathered after it, ending at the background or a last emission |
| Raytraces.RadianceOfPrepend | src/Raytrace.hpp:57 | putting a vertex in front of a path gives its emission plus the rest's radiance times its attenuation, as the recursive step does |
| Raytraces.MissIsBackground | src/Raytrace.hpp:49-62 | a ray that no shape hits within [0.001, maxReal] gets the background's sample in its direction |
| Raytraces.LightIsEmission | src/Raytrace.hpp:55-59 | a hit without a material is black; a hit on a diffuse light returns the light's colour and the path stops there |
| Raytraces.LimitStopsBouncing | src/Raytrace.hpp:56-59 | once the bounce limit is reached no ray scatters and a hit returns only its emission |
| Raytraces.SampleColours | src/Raytrace.hpp:88-96 | when every primary ray can be drawn there is one colour per sample |
| Raytraces.RenderPixel | src/Raytrace.hpp:72-107 | the stored value exists exactly when the samples do, and is 255.99 times the gamma-corrected mean of the sample colours |
| Raytraces.SingleSampleIsCentre | src/Raytrace.hpp:76-89 | with one sample and no depth of field the pixel's only sample is the colour of the ray through the pixel's centre |
| Raymarches.MarchFrom | src/Raymarch.hpp:55-66 | a hit names one of the scene's shapes, and the loop never probes more than the iteration limit |
| Raymarches.MarchLoop | src/Raymarch.hpp:51-66 | the imperative loop stops with the same hit, record and distance as the recursive march, its counter one short of the probe count when it broke early |
| Raymarches.ShortStepTestIsDead | src/Raymarch.hpp:61-64 | since every step is made non-negative, the break on `dist < rec.t` never fires and the march equals the one without that test |
| Raymarches.MarchProgress | src/Raymarch.hpp:55-66 | the distance never decreases, the probes stay within the limit, and a miss means the iterations ran out or the ray passed the length limit |
| Raymarches.MarchHit | src/Raymarch.hpp:57-65 | a hit is the first shape in scene order within epsilon of the point reached, and the record holds its distance value made absolute |
| Raymarches.Trace | src/Raymarch.hpp:68-87 | the path a marched ray follows from bounce b has at most maxBounces - b scattering vertices |
| Raymarches.ColourIsRadiance | src/Raymarch.hpp:49-88 | the marcher's recursive colour equals the radiance of the path it follows |
| Raymarches.MissIsBackground | src/Raymarch.hpp:75-87 | a march that finds nothing returns the background sample; a hit with no bounces left returns its emission |
| Raymarches.PushOffDirection | src/Raymarch.hpp:78 | pushing the scattered ray off the surface leaves its unit or zero direction unchanged |
| Raymarches.PushOffSide | src/Raymarch.hpp:77-78 | the pushed origin moves epsilon along the normal or its opposite, whichever does not point against the scattered direction |
| Raymarches.ScatteredDirection | src/Raymarch.hpp:75 | a material's scattered direction is a unit or zero vector |
| Raymarches.SampleColours | src/Raymarch.hpp:113-121 | when every primary ray can be drawn there is one colour per sample |
| Raymarches.RenderPixel | src/Raymarch.hpp:97-132 | the stored value exists exactly when the samples do, and is 255.99 times the gamma-corrected mean of the sample colours |
| Viewports.MakeViewportValid | Viewport.hpp:14-23 | the default and the sized viewport cache reciprocals that undo their dimensions, keep the given size, and their aspect ratio times the height is the width |
| Backgrounds.SampleBetween | src/Background.hpp:23-27 | a sampled colour lies channel by channel between the bottom and the top colour; straight down (or beyond) gives the bottom, straight up (or beyond) the top |
| Backgrounds.HorizonIsMidway | src/Background.hpp:25-26 | a horizontal direction gets the even mix of bottom and top |
| Sampling.SampleIn | Sampling.hpp:8-31 | an accepted sample lies strictly inside the unit ball, in the cube [-1, 1) per axis for draws in [0, 1), on the plane z = 0 for the disk, and leaves a suffix of the stream after at least one block |
| Sampling.SampleFirstAccepted | Sampling.hpp:12-16 | the do/while loop returns the first candidate, in draw order, that is not rejected, and leaves the draws after its block |
| Sampling.SampleExhausted | Sampling.hpp:12-16 | the sampler gives up exactly when every complete block of draws in the stream is rejected |
| Sampling.AllRejectedStep | Sampling.hpp:12-16 | all blocks are rejected exactly when the first one is and all later ones are |
| Materials.ConstructorsKeepParameters | src/Metal.hpp:16-18 | a Lambertian built from a colour samples that colour, a metal's roughness is clamped into [0, 1] and otherwise kept, and the default metal and dielectric have albedo 0.5 with roughness 0 and index 1.5 |
| Materials.MetalRetry | src/Metal.hpp:29-37 | the retry loop ends on an attempt below the surface only when every attempt from there on is below it |
| Materials.MetalRetryFirstAbove | src/Metal.hpp:31-37 | the retry loop keeps the first attempt that does not point below the surface, or the tenth when all do |
| Materials.LambertianScatter | src/Lambertian.hpp:37-43 | a Lambertian always scatters with its texture's colour, from the hit point, towards the side its unit normal points to |
| Materials.SmoothMetalScatter | src/Metal.hpp:23-42 | a smooth metal reflects along the mirror direction exactly when the ray arrives against its unit normal |
| Materials.RoughMetalAbsorbs | src/Metal.hpp:26-41 | a rough metal absorbs only when all ten attempts point below the surface or the kept one lies in the tangent plane |
| Materials.DielectricScatters | src/Dielectric.hpp:24-62 | a dielectric always scatters, with its albedo, from the hit point |
| Materials.OrientFacesRay | src/Dielectric.hpp:32-44 | the chosen normal faces against the incoming direction, the cosine is the non-negative projection, and the ratio is the index when leaving and its reciprocal when entering |
| Materials.TotalInternalReflection | src/Dielectric.hpp:46-55 | without a refracted direction the reflectance is 1, so every draw in [0, 1) reflects |
| Materials.DielectricSnell | src/Dielectric.hpp:48-59 | a refracted unit direction is a unit vector whose tangential part is the incoming one scaled by the index ratio |
| Materials.LightOnlyEmits | src/DiffuseLight.hpp:18-25 | a diffuse light never scatters and emits its albedo; every other material emits black |
| Integrators.SceneRecordReady | src/Raytrace.hpp:49-56 | a record found in a scene of well-formed shapes carries a material that can scatter |
| Integrators.EmissionOrScatter | src/Raytrace.hpp:55-56 | without a material nothing is emitted or scattered; a light emits its albedo and does not scatter; other materials emit black |
| Pixels.PrimaryRays | src/Raytrace.hpp:88-95 | when the rays of n samples exist there are n of them, the i-th being the camera ray of the i-th sample's draws |
| Pixels.PrimaryRaysExist | src/Raytrace.hpp:88-95 | the rays fail to exist exactly when some sample's camera ray fails; without depth of field they always exist |
| Pixels.SampleInPixel | src/Raytrace.hpp:74-87 | a sample's screen point, scaled back by the viewport size, lies in its pixel's half-open cell, and a single sample lies at the pixel's centre |
| Pixels.Accumulate | src/Raytrace.hpp:89-100 | the accumulation loop stores 255.99 times the square root of the mean of the sample colours |
| Pixels.AverageOfCopies | src/Raytrace.hpp:96-99 | samples that all see one colour average to that colour |
| Pixels.AverageBetween | src/Raytrace.hpp:96-99 | the average of colours whose channels lie in [lo, hi] lies in [lo, hi] |
| Pixels.SumBetween | src/Raytrace.hpp:96 | the sum of n colours in [lo, hi] lies in [n lo, n hi] |
| Cameras.BasisOrthonormal | src/Camera.hpp:42-44 | for a viewing direction not parallel to the up hint, forward, right and up are orthonormal |
| Cameras.ScreenCentre | src/Camera.hpp:36-48 | the screen's centre is the point at the focus distance along the viewing direction, (0, 0) is the bottom-left corner, and the lens radius is half the aperture |
| Cameras.PinholeRay | src/Camera.hpp:51-60 | without depth of field the ray starts at the camera position, draws nothing and passes through the screen point |
| Cameras.LensRay | src/Camera.hpp:53-60 | with depth of field the ray starts at the position moved by a unit-disk sample in the lens plane, consumes only that sample's draws, and still passes through the screen point |
| Cameras.LensOffsetBound | src/Camera.hpp:56-57 | for an orthonormal right and up a lens offset is shorter than the lens radius |
| Cameras.AimsAt | src/Camera.hpp:60 | the ray from a start towards a target reaches it after the distance between them |
| Previews.OneBounceWhenEscaping | src/Preview.hpp:37-53 | the preview's colour equals the path tracer's with a one-bounce limit whenever the scattered ray escapes the scene |
| Previews.MissIsBackground | src/Preview.hpp:40-52 | a ray that no shape hits gets the background's colour in its direction |
| Previews.NoScatterIsEmission | src/Preview.hpp:44-49 | a hit that does not scatter returns its emission: black without a material, the light's colour on a light |
| Previews.ScatterSeesBackground | src/Preview.hpp:46-47 | a scattering hit returns its (black) emission plus the attenuation times the background seen along the scattered direction |
| Previews.SampleColours | src/Preview.hpp:78-87 | when every primary ray can be drawn there is one colour per sample |
| Previews.RenderPixel | src/Preview.hpp:62-97 | the stored value exists exactly when the samples do, and is 255.99 times the gamma-corrected mean of the sample colours |
| Previews.EmptyScenePixel | src/Preview.hpp:52-87 | in an empty scene every sample's colour is the background seen along its primary ray |
| Visualizers.BouncesCountPath | RaytraceVisualizer.hpp:36-47 | the bounce colour is the grey of the number of scattering vertices on the path the path tracer follows, over the bounce limit |
| Visualizers.BounceColourInUnit | RaytraceVisualizer.hpp:36-47 | every channel of the bounce colour lies in [0, 1] |
| Visualizers.DepthShading | RaytraceVisualizer.hpp:66-71 | a hit beyond the minimum distance gives a grey strictly between 0 and 1 whose product with 1 + t is 1, so nearer hits are whiter; a miss stays black |
| Visualizers.NormalShading | RaytraceVisualizer.hpp:73-78 | a unit normal maps into [0, 1] on every channel; a miss stays black |
| Visualizers.CentreRayIsPinhole | RaytraceVisualizer.hpp:56-61 | the visualizer's ray starts at the camera position and passes through the pixel's centre on the focus plane, whatever the camera's depth-of-field setting |
| Hitables.WorldPoint | src/Hitable.hpp:21-25 | for a rigid transform and a unit direction, the point a local distance times the scale reaches along the world ray is, in the shape's frame, the point the local distance reaches along the local ray |
| Hitables.SdfProbeProperties | src/Hitable.hpp:38-49 | a probe always reports the distance value in t, and hits exactly when the value lies within epsilon, then recording the point, the normal and the shape, whose material the record yields |
| Hitables.GradientOfConstant | src/Hitable.hpp:34-59 | central differences of a constant distance function, such as the default largest real, normalise to the zero vector |
| Hitables.GradientOfPlane | src/Hitable.hpp:51-59 | for the distance to a plane with unit normal n and a positive step, the central differences recover n |
| Shapes.ShapeHit | src/Hitable.hpp:32 | a shape's hit lies within its bounds (strictly, except for the rectangle, whose bounds are inclusive) and names that shape |
| Shapes.ShapeHitAsWrittenAgrees | src/Hitable.hpp:32 | dispatching with the rectangle test as written agrees with the modelled dispatch on spheres, boxes and rectangles of scale 1 |
| Shapes.ShapeProbeProperties | src/Hitable.hpp:38-49 | a shape's probe reports its distance value and hits exactly when the value is within epsilon, with the normal taken at a tenth of epsilon |
| Shapes.BoxNeverProbed | src/Hitable.hpp:34-59 | a box, which keeps the default distance function, is never found by a probe with epsilon below the largest real, and its gradient normal is zero |
| Shapes.ShapeHitGrow | src/Hitable.hpp:32 | a hit found under a smaller upper bound is also the hit found under a larger one |
| Shapes.ShapeHitShrink | src/Hitable.hpp:32 | lowering the upper bound while keeping it above the hit's distance keeps the hit |
| Scenes.AddHitable | src/Scene.hpp:27 | adding a shape appends it after the existing shapes, which keep their order, and leaves the background alone |
| Scenes.AddHitableWellFormed | src/Scene.hpp:27 | adding a well-formed shape to a well-formed scene keeps it well formed |
| Scenes.Nearest | src/Scene.hpp:30-45 | the scene's hit lies within the bounds and names one of its shapes |
| Scenes.NearestStep | src/Scene.hpp:34-43 | scanning one more shape asks it for a hit below the closest so far, and takes that hit when there is one |
| Scenes.NearestMisses | src/Scene.hpp:30-45 | the scene misses exactly when every shape misses within the bounds |
| Scenes.NearestIsShapeHit | src/Scene.hpp:30-45 | a scene hit is the hit some shape reports on its own within the original bounds |
| Scenes.NearestIsClosest | src/Scene.hpp:30-45 | the scene hit is no farther than the hit of any shape within the bounds |
| Scenes.NearestAsWrittenAgrees | src/Scene.hpp:30-45 | in a scene whose rectangles all have scale 1, the scan with the rectangle test as written gives the same result as the modelled scan |
| Scenes.Hit | src/Scene.hpp:30-45 | the loop reports a hit exactly when the scan finds one, stores that record, and leaves the record untouched on a miss |
| Scenes.ProbeAll | src/Scene.hpp:47-63 | a probe hit names one of the scene's shapes |
| Scenes.ProbeAllHits | src/Scene.hpp:47-63 | the scene probe hits exactly when some shape's distance value lies within epsilon |
| Scenes.ProbeAllFirst | src/Scene.hpp:49-56 | a hit is the probe of the first shape, in scene order, whose distance value is within epsilon |
| Scenes.ProbeAllMiss | src/Scene.hpp:57-62 | on a miss every shape is farther than epsilon, the record keeps all but t, and t ends as the value of smallest magnitude among the incoming t and the shapes' values |
| Scenes.MinSdfIsMinimum | src/Scene.hpp:65-71 | the scene's distance is at most the largest real and every shape's distance, and equals one of them or the largest real |
| Scenes.MinSdfBelow | src/Scene.hpp:67-69 | the scene's distance is a lower bound of the largest real and of every shape's distance |
| Scenes.MinSdfWitness | src/Scene.hpp:67-69 | the scene's distance is attained: by some shape, or by the starting largest real |
| Scenes.EvaluateSdf | src/Scene.hpp:65-71 | the loop returns the minimum of the shapes' distances, starting from the largest real |
| Transforms.SettersKeepValid | src/Transform.hpp:18-53 | every constructor and setter leaves a positive scale with a matching cached reciprocal; a positive scale is kept and any other becomes 1; each setter changes only its own field |
| Transforms.TransformExamples | tests/transform.cpp:15-29 | the default transform has the identity rotation, zero translation and scale 1, and the constructor and setters store what they are given |
| Transforms.EqIsEquality | src/Transform.hpp:21-22 | `!=` is the negation of `==`, and on valid transforms `==` holds exactly for equal transforms, the cached reciprocal following from the scale |
| Transforms.CloseEnoughTProperties | src/Transform.hpp:111-116 | closeness is symmetric, holds between a transform and itself for any positive tolerance, and never holds for tolerance 0 |
| Transforms.InverseFields | src/Transform.hpp:55-59 | the inverse of a valid transform is valid, with the conjugate rotation, the translation rotated back, negated and scaled, and the reciprocal scale |
| Transforms.InverseApply | src/Transform.hpp:55-75 | applying the inverse transform equals `applyInverse`, for any rotation |
| Transforms.ApplyRoundTrip | src/Transform.hpp:61-75 | with a unit rotation, `applyInverse` undoes `apply` |
| Transforms.ApplyInverseRoundTrip | src/Transform.hpp:61-75 | with a unit rotation, `apply` undoes `applyInverse` |
| Transforms.RayRoundTrip | src/Transform.hpp:77-89 | with a unit rotation, taking a ray with a unit direction into the frame and back gives the same ray |
| Transforms.LocalDirection | src/Transform.hpp:84-89 | a unit direction taken into a rigid frame is only rotated back and stays a unit vector |
| Transforms.LocalPoint | src/Transform.hpp:69-89 | the point at local distance l along the local ray is the local image of the point at world distance l times the scale |
| Transforms.LocalNormal | src/Transform.hpp:61-67 | rotating a local normal into the world keeps its length and its angle with the ray |
| Transforms.UnrotatedLocalRay | src/Transform.hpp:69-89 | without rotation or translation the local ray is the origin divided by the scale, with the same unit direction |
| Spheres.MakeSphereProperties | src/Sphere.hpp:13-18 | the constructor keeps the centre and a positive radius, turns any other radius into 1, and records the material |
| Spheres.CoefficientsMeaning | src/Sphere.hpp:29-32 | the quadratic a t² + 2 b t + c at t is the squared distance of the ray's point from the centre minus the squared radius |
| Spheres.CoefficientsProper | src/Sphere.hpp:30 | the leading coefficient is a squared length, zero only together with b |
| Spheres.ChooseRootChoice | src/Sphere.hpp:40-48 | the chosen numerator is -sqrt(disc) or +sqrt(disc) and lies strictly between the bounds; none is chosen exactly when neither does |
| Spheres.HitRootUnfold | src/Sphere.hpp:35-39 | with a positive discriminant the test compares ±sqrt(disc) with the bounds mapped to numerators a t + b |
| Spheres.NumeratorDistance | src/Sphere.hpp:38-51 | mapping a distance to its numerator and back, and a numerator to its distance and back, are identities |
| Spheres.NumeratorOrder | src/Sphere.hpp:38-39 | for a positive a, numerators grow with the distance, both ways |
| Spheres.HitRootRange | src/Sphere.hpp:35-51 | a chosen numerator has a positive a and a distance strictly between the original bounds |
| Spheres.Hit | src/Sphere.hpp:25-59 | a hit lies strictly between the bounds and names the sphere |
| Spheres.HitRootIsRoot | src/Sphere.hpp:33-51 | the distance of a chosen numerator is a root of the quadratic |
| Spheres.HitOnSurface | src/Sphere.hpp:49-55 | a hit's distance is a root, its point lies on the sphere, and its normal is a unit vector |
| Spheres.HitNearest | src/Sphere.hpp:35-51 | whenever the ray crosses the sphere non-tangentially at some t strictly between the bounds, `hit` reports a hit no farther than t |
| Spheres.ChooseRootGrow | src/Sphere.hpp:40-48 | widening the upper bound keeps a chosen numerator |
| Spheres.ChooseRootShrink | src/Sphere.hpp:40-48 | narrowing the upper bound to just above the chosen numerator keeps it |
| Spheres.HitGrow | src/Sphere.hpp:25-59 | a hit found with a smaller upper bound is the hit found with a larger one |
| Spheres.HitShrink | src/Sphere.hpp:25-59 | lowering the upper bound to above the hit's distance keeps the hit |
| Spheres.SdfSign | src/Sphere.hpp:61-64 | the distance is negative inside the sphere, zero on it and positive outside |
| Spheres.HitAgreesWithSdf | src/Sphere.hpp:53-69 | the point `hit` reports has distance zero, and the distance function's normal there is the normal `hit` reports |
| Rects.MakeRectProperties | src/Rect.hpp:23-29 | the constructed rectangle is as wide and as high as asked, well-formed exactly when its transform is valid, neither size is zero and its material is well-formed, and it records the material |
| Rects.HitInFrame | src/Rect.hpp:31-53 | a hit found in the rectangle's frame has a world distance within the inclusive bounds and names the rectangle |
| Rects.Hit | src/Rect.hpp:31-53 | the corrected hit test reports a world distance within the inclusive bounds and names the rectangle |
| Rects.InFrameFacts | src/Rect.hpp:35-50 | a hit is at the local ray's plane distance, reaches the plane z = 0 within the extents, and its local normal faces against the local direction |
| Rects.PlaneHit | src/Rect.hpp:35 | the plane distance reaches the plane z = 0 |
| Rects.FacesAgainst | src/Rect.hpp:49 | the local normal, -z for a ray travelling up and +z otherwise, points against any direction not parallel to the plane |
| Rects.InFrameComplete | src/Rect.hpp:35-52 | a local ray not parallel to the plane that reaches a point within the extents at a world distance within the bounds is hit there |
| Rects.AsWrittenUnfold | src/Rect.hpp:35-47 | past the plane-distance step the code as written keeps a hit exactly when the local distance is within the bounds and the point within the extents |
| Rects.InFrameUnfold | src/Rect.hpp:35-47 | past the plane-distance step the corrected test keeps a hit exactly when the world distance is within the bounds and the point within the extents |
| Rects.AsWrittenScalesBounds | src/Rect.hpp:36-47 | the code as written is the corrected test with both bounds multiplied by the scale |
| Rects.HitAsWrittenUnitScale | src/Rect.hpp:36-47 | with unit scale the code as written and the corrected test agree |
| Rects.OvershootInFrame | src/Rect.hpp:36-47 | in the frame, a ray falling straight down from a local height in (0, 1] is accepted by the code as written at a world distance above the far bound 1, and rejected by the corrected test |
| Rects.OvershootAt | src/Rect.hpp:36-47 | a local distance in [0, 1] to a point of the rectangle whose world distance exceeds 1 passes the test as written and fails the corrected one |
| Rects.OvershootGivenLocalRay | src/Rect.hpp:33-47 | the counterexample stated on the world ray, given its local ray |
| Rects.UnmovedLocalRay | src/Rect.hpp:33 | without rotation or translation the local ray is the world ray with its origin divided by the scale |
| Rects.HitAsWrittenOvershoots | src/Rect.hpp:31-53 | against an unrotated, untranslated rectangle of scale k > 1, a ray falling straight down from height h in (1, k] gets a hit at distance h > 1 from the code as written with bounds [0, 1], and none from the corrected test |
| Rects.HitOnRect | src/Rect.hpp:39-48 | for a rigid transform and a unit direction, a hit point lies on the rectangle |
| Rects.HitNormalFaces | src/Rect.hpp:49 | for a rigid transform and a unit direction, a hit's normal is a unit vector pointing against the ray |
| Rects.HitComplete | src/Rect.hpp:31-53 | every point of the rectangle at a distance within the bounds, reached by a ray not parallel to it, is hit at exactly that distance |
| Rects.HitGrow | src/Rect.hpp:36 | raising the far bound past a hit keeps the hit |
| Rects.HitShrink | src/Rect.hpp:36 | lowering the far bound to no less than the hit distance keeps the hit |
| Rects.EdgeLengths | src/Rect.hpp:58-66 | the four edges of a rectangle with non-zero half sizes, and the normal made from two of them, have non-zero length, so the divisions of the distance function are defined |
| Rects.LocalSdfSquaredNonNegative | src/Rect.hpp:68-80 | the squared distance is never negative, in both branches |
| Rects.SdfNonNegative | src/Rect.hpp:55-81 | the rectangle's distance is never negative |
| Rects.SdfNormalSide | src/Rect.hpp:83-86 | for a rigid transform the normal is a unit vector, and back in the frame it is the z axis pointing to the side of the plane the point is on |
| Boxes.MakeBoxProperties | Box.hpp:21-26 | the constructed box has the given extents, is well-formed exactly when its transform is valid, no extent is zero and its material is well-formed, and it records the material |
| Boxes.WindingInside | Box.hpp:34 | for positive half extents the winding is -1 exactly when the local origin is strictly inside the box, and +1 otherwise |
| Boxes.AxisDistance | Box.hpp:38-39 | a distance to a plane, when the direction's component is not zero, reaches the plane's coordinate |
| Boxes.SelectFaceFirst | Box.hpp:41-62 | the chosen face is the first axis, in the order x, y, z, whose test passes, and there is none exactly when no test passes |
| Boxes.SelectedNormalShape | Box.hpp:35-64 | after the chain of tests the normal is zero exactly when no face was chosen; otherwise it is the unit axis vector of the chosen face pointing against the direction, and it is the axis `hitDistance` reads |
| Boxes.Accept | Box.hpp:65-66 | a record is produced only for a world distance strictly between the bounds, and it names the box |
| Boxes.HitInFrame | Box.hpp:64-73 | a hit found in the box's frame lies strictly between the bounds and names the box |
| Boxes.Hit | Box.hpp:29-76 | a hit lies strictly between the bounds and names the box |
| Boxes.DistanceReachesPlane | Box.hpp:38-39 | the point at the computed distance along the local ray lies on the candidate plane |
| Boxes.PlaneMagnitude | Box.hpp:38 | the candidate plane's coordinate has the magnitude of the half extent |
| Boxes.InFrameFacts | Box.hpp:38-70 | a hit comes from the chosen face at its distance, the local point lies on the surface of the box, and the local normal is a unit axis vector against the local direction |
| Boxes.NormalOpposes | Box.hpp:35-57 | along an axis the direction moves on, the axis vector of -sign(direction) is a unit vector pointing against the direction |
| Boxes.HitOnBox | Box.hpp:29-76 | for a rigid transform and a unit direction, a hit point taken into the frame lies on a face of the box |
| Boxes.HitNormalFaces | Box.hpp:70 | for a rigid transform and a unit direction, a hit's normal is a unit vector pointing against the ray |
| Boxes.HitGrow | Box.hpp:66 | raising the far bound past a hit keeps the hit |
| Boxes.HitShrink | Box.hpp:66 | lowering the far bound to above the hit distance keeps the hit |
| Images.FormatSizes | src/Image.hpp:102-147 | every format stores four bytes per channel; the three single-channel formats have one channel, the three RGB formats three, and `Invalid` and `Count` none |
| Images.MakeImageValid | src/Image.hpp:94-151 | a constructed image keeps the format, raises a zero width or height to one and keeps any other, has width over height as its aspect ratio, a data array of `pixelSize * width * height` bytes that are all zero, and consistent metadata |
| Images.IndexInBounds | src/Image.hpp:87-92 | for any coordinates, however far outside the image, the addressed pixel's bytes lie wholly inside the data |
| Images.IndexSeparation | src/Image.hpp:87-92 | positions that clamp to the same pixel address the same bytes; positions that clamp to different pixels address disjoint byte ranges |
| Images.Store | src/Image.hpp:165-169 | storing a pixel keeps the image's descriptor and layout |
| Images.Load | src/Image.hpp:171-175 | a load yields exactly one pixel's worth of bytes |
| Images.LoadStore | src/Image.hpp:165-175 | a load after a store returns the stored bytes at every position clamping to the stored pixel and the previous bytes at every other pixel |
| Images.LoadFresh | src/Image.hpp:150 | every pixel of a new image reads as zero bytes |
| Images.AssignCopies | src/Image.hpp:153-163 | after assignment the target has the source's descriptor, layout and bytes, whether or not the descriptors differed, so every load agrees with the source |
| Images.AssignIsCopy | src/Image.hpp:153-163 | for images whose aspect ratio is width over height, assignment makes the target equal to the source |
| Images.ColourRoundTrip | src/Image.hpp:165-175 | in a three-channel image, storing a colour as the bytes of its three floats leaves exactly those twelve bytes in the pixel; they read back as each component rounded to a float, so a colour whose components are floats, as the renderer's are, loads back unchanged |
| Images.RoundDecoded | src/Image.hpp:171-175 | four bytes loaded from a pixel read as a float that stores back to the same four bytes, so rounding it changes nothing |
| Images.RoundLaws | src/Image.hpp:165-175 | a real stored as a float takes four bytes; storing is idempotent and monotone, and 1 is stored exactly |
| Files.FileNameRule | src/File.hpp:18-24 | the name is kept exactly when it ends with ".ppm" after at least one other character, otherwise ".ppm" is appended; the result always ends with ".ppm" |
| Files.NatToStringRoundTrip | src/File.hpp:52 | the decimal digits written for a number read back as the number and carry no sign |
| Files.IntToStringRoundTrip | src/File.hpp:52 | the decimal text written for an int, negative values with a leading minus, reads back as the int |
| Files.DigitCount | src/File.hpp:39-40 | a number below 10^k is written with at most k digits |
| Files.Colours | src/File.hpp:44-49 | one colour per pixel is read |
| Files.RunningMaxIsMaximum | src/File.hpp:50-51 | the running maximum is at least the start and every element, and is the start or one of the elements |
| Files.MaxValueBounds | src/File.hpp:42-55 | the maximum value lies in [1, 65535]; a positive range is kept up to the cap; otherwise the value bounds every pixel's truncated maximum (capped) and is 1 or one of them |
| Files.MaxValueFits | src/File.hpp:39-58 | the maximum value's digits fit the five-space placeholder |
| Files.WritePpm | src/File.hpp:16-64 | no file is produced exactly when the named file cannot be opened; otherwise the file has the derived name and the header, pixel lines and patched maximum value as its text |
| Files.WriteLines | src/File.hpp:42-55 | the row and column loops produce every pixel's line in write order, and the running maximum that, once capped, is the maximum value |
| Files.WriteRow | src/File.hpp:46-54 | one pass of the column loop appends the lines of one row, in order, and extends the running maximum over them |
| Files.WrittenAt | src/File.hpp:44-52 | pixel (col, row) is the colour, the line and the maximum written at its place in the write order |
| Files.HeaderLayout | src/File.hpp:37-58 | the text reads "P3", the width and height, then the maximum value padded with the placeholder's remaining spaces, then the pixel lines untouched |
| Files.LineOrder | src/File.hpp:44-52 | pixel (col, row) is written on line `(height - 1 - row) * width + col`: top row first, each row left to right, one line per pixel |
| Viewers.ClampToAspectRatio | Viewer.hpp:27-38 | one dimension is kept and the other does not grow |
| Viewers.ClampShrinksOneSide | Viewer.hpp:29-37 | the height is the side that shrinks exactly when the target aspect ratio is wider than the framebuffer's; otherwise the height is kept |
| Viewers.ClampMatchesAspect | Viewer.hpp:29-37 | the clamped size has the target aspect ratio up to the truncation of one pixel of the changed side |
| Viewers.CenteredMargins | Viewer.hpp:40-45 | a viewport that fits its window lies inside it, with margins before and after that differ by at most one pixel, the extra one after |
| Viewers.OriginWrapsWhenTooWide | Viewer.hpp:42-43 | a viewport wider than its window makes the unsigned subtraction wrap, so the origin lies beyond the window's right edge |
| Viewers.EncodeRealsRoundTrip | Viewer.hpp:73-78 | a staging pixel's values encode to four bytes each, and each reads back as the float it rounds to |
| Viewers.PixelMax | Viewer.hpp:59-63 | the channel loop raises the running maximum to at least every channel of the pixel, and the result is the old maximum or one of the channels |
| Viewers.RowMax | Viewer.hpp:57-64 | the column loop raises the running maximum to at least every channel of the row, and the result is the old maximum or one of those channels |
| Viewers.ImageMax | Viewer.hpp:54-65 | the first pass yields a non-negative value that bounds every channel of every pixel and is 0 or one of those channels |
| Viewers.ImageMaxUnique | Viewer.hpp:54-65 | the first pass's maximum is determined by the image |
| Viewers.Staging | Viewer.hpp:73-77 | the staging pixel holds each channel of the pixel multiplied by the factor |
| Viewers.ScalePixel | Viewer.hpp:73-78 | scaling a pixel keeps the image's descriptor and layout |
| Viewers.StoredValues | Viewer.hpp:78 | storing encoded values into a pixel makes its channels read as those values rounded to floats |
| Viewers.ScalePixelScales | Viewer.hpp:73-78 | after the second pass's step every channel of the pixel is the old one times the factor, rounded to a float |
| Viewers.ScalePixelScalesFrom | Viewer.hpp:73-78 | scaling a pixel whose bytes are still the original image's gives the original channels times the factor, rounded to floats |
| Viewers.SameStaging | Viewer.hpp:73-77 | pixels with the same bytes give the same staging pixel |
| Viewers.ScalePixelFrame | Viewer.hpp:73-78 | the step leaves every other pixel's bytes as they were |
| Viewers.ScaleRow | Viewer.hpp:71-79 | one pass of the column loop scales every pixel of the row and leaves later rows untouched |
| Viewers.NormalizeImage | Viewer.hpp:47-81 | the image keeps its descriptor and channel count, and every channel of every pixel becomes the float that the old value times the factor of the image's maximum rounds to; the factor is the maximum's inverse above 1e-6 and 1 otherwise |
| Viewers.NormalizedPeakIsOne | Viewer.hpp:67-78 | when the maximum exceeds 1e-6, every normalised channel is at most 1 and the channel that held the maximum is exactly 1 |
| Viewers.NormalizedDarkUnchanged | Viewer.hpp:67 | when the maximum is at most 1e-6 every channel is left as it was, since every loaded value is already a float |
| Viewers.StoredFloat | Viewer.hpp:59 | a channel value loaded from the image is a float, so rounding it again changes nothing |
| Renderers.TilesAlong | Renderer.hpp:47-48 | the number of 64-pixel tiles is the least that covers the pixels: enough to cover them, and one fewer would not, with none for an empty dimension |
| Renderers.TileIndexBijection | Renderer.hpp:49-57 | a claimed index is below the tile amount exactly when its tile lies in the grid, and tile indices and tile coordinates correspond one to one |
| Renderers.PixelTileInGrid | Renderer.hpp:47-49 | every pixel of the image lies in a tile of the grid |
| Renderers.RenderTile | Renderer.hpp:25-41 | the row loop around the column loop visits the tile's pixels, clipped at the image edges, row by row |
| Renderers.InRow | Renderer.hpp:36-39 | a row pass visits exactly the pixels of that row between its start and stop columns |
| Renderers.InBlock | Renderer.hpp:34-40 | the nested loops visit exactly the pixels of the rectangle between the tile's offsets and stops |
| Renderers.BlockDistinct | Renderer.hpp:34-40 | the nested loops visit no pixel twice |
| Renderers.TileCoverage | Renderer.hpp:25-41 | a tile renders, once each, exactly the pixels of the image that lie in that tile |
| Renderers.InSquare | Renderer.hpp:29-33 | a coordinate lies in the span of a tile coordinate exactly when its quotient by the tile size is that coordinate |
| Renderers.RenderTiles | Renderer.hpp:43-61 | a worker claims indices from the counter until one is past the tile amount, rendering the tiles it claimed in order, and leaves the counter one past its last claim |
| Renderers.TilesCoverage | Renderer.hpp:50-60 | the tiles with indices in a range render exactly the pixels of the image whose tile index is in that range |
| Renderers.TilesDistinct | Renderer.hpp:50-60 | no pixel is rendered by two tiles of a range, nor twice by one |
| Renderers.EveryPixelOnce | Renderer.hpp:43-61 | draining every tile index renders every pixel of the image exactly once and nothing outside it |
| Renderers.DistinctOnce | Renderer.hpp:43-61 | in a sequence without repetition an element occurs exactly once |
| Renderers.WorkerCount | Renderer.hpp:84 | the number of extra workers is one less than the hardware concurrency, and zero when that is unknown |
| Renderers.Render | Renderer.hpp:80-93 | with the workers run one after the other on the shared counter, the image is rendered with every pixel exactly once and nothing outside it, whatever the number of workers |
| Renderers.PixelIndexBijection | Renderer.hpp:66-74 | a pixel index is below the pixel amount exactly when its pixel lies in the image, and indices and pixels correspond one to one |
| Renderers.RenderPixels | Renderer.hpp:63-78 | a worker in pixel mode claims pixel indices until one is past the pixel amount, rendering each claimed pixel, and leaves the counter one past its last claim |
| Renderers.PixelsCoverage | Renderer.hpp:67-77 | the pixel indices in a range render exactly the pixels of the image whose row-major index is in that range, none twice |
| Renderers.EveryPixelOncePixelMode | Renderer.hpp:63-78 | draining every pixel index renders every pixel of the image exactly once |

## Left out

- IEEE floating point: rounding, infinities and NaN are not modelled. Divisions the source can make by zero are guarded instead. Vector division by a scalar, a viewport of zero size, a dielectric index of 0, and box or rect extents of zero are excluded by preconditions. A ray parallel to a rect's plane or to a box's slab never hits that plane.
- Transcendental functions: `sqrt`, `tan`, `sin`, `cos`, `acos` and `schlick` are uninterpreted. Only `sqrt`'s square law (`Scalar.SqrtLaw`) and the Pythagorean identity of `sin`/`cos` (`Scalar.PythagoreanLaw`) are assumed, as preconditions of the lemmas that need them.
- Rects.SdfNonNegative: the rect's SDF formula (src/Rect.hpp:55-81) is modelled as written, but only its non-negativity is proved, not that it is the distance to the rectangle.
- Rects.SignOf: `math::sign` is not part of this model. Rects.SignOf is a chosen definition, 1 for positive values and -1 otherwise, so 0 counts as negative. On a point exactly on an edge line this picks the branch of the SDF's `< 3` test; another definition of the sign of 0 can pick the other branch there.
- Quaternions.GetAxisAngle: requires that `sqrt(1 - w^2)` is non-zero whenever the angle is, since the source divides by it. What the axis is follows only under the square-root law (Quaternions.AxisAngleAxis). When acos is not zero but w^2 >= 1, as for a w that acos maps to NaN, nothing is stated.
- Random numbers: `uniformRand` in Random.hpp is replaced by explicit draws. Its statistical quality and the termination of the rejection loops on a real generator are not modelled. A sampler whose draws run out yields no sample.
- Concurrency: `std::async`, `std::future` and `std::atomic` in `Renderer::render` are replaced by workers that run one after the other on a counter that hands out consecutive claims.
- Unsigned wrap-around: the 32-bit arithmetic of the image's data size, tile offsets and claim counter is unbounded. Wrap-around is modelled only where a result depends on it: the `uint` clamp of a negative value and `getCenteredViewportOrigin`. Viewport sizes are required to fit in 32 bits.
- Files.WritePpm: file opening is a parameter (`canOpen`). The model returns the file's name and text rather than performing stream I/O. It handles three-channel images only, the only kind the program writes. The layout of a float in its four bytes is an uninterpreted codec. Its law (`Images.CodecLaw`) states only what any such store satisfies: every real takes four bytes, four bytes read and stored again are unchanged, storing rounds monotonically, and 1 is stored exactly. Images.CodecLawSatisfiable gives a codec that meets the law.
- Raytraces.RenderPixel, Previews.RenderPixel and Raymarches.RenderPixel: require at least one sample per pixel, because the average divides by the sample count.
- Visualizers.RenderPixel: requires a positive bounce limit, because the bounce colour divides by it.
- Images.PositionToIndex: the `clamp` call mixes `int` and `uint` arguments. It is taken as the `int` overload, so a negative coordinate clamps to 0.
- Viewers.ClampToAspectRatio: requires a positive height and aspect ratio, because it divides by both.
- Viewers.CenteredMargins: assumes the viewport fits the window, as the source's comment does. Viewers.OriginWrapsWhenTooWide states what happens otherwise.
- Viewers.NormalizeImage: keeps the factor as the exact real 1 / max. The source rounds it to a float before the multiplication, so Viewers.NormalizedPeakIsOne holds only for the exact factor: with the rounded factor the peak can miss 1 by a rounding step.
- Viewers.NormalizeImage: reads every channel as a float, as the source assumes. It is modelled on the `Images` buffer, because src/Framebuffer.hpp repeats the same descriptor, index, store and load code.
- Images.AssignIsCopy: the aspect ratio is a separate field, so equality after assignment is stated for images whose aspect ratio is width over height, as every constructed image's is.
- Material lookup: Box.hpp, src/Raytrace.hpp and RaytraceVisualizer.hpp:43 read `rec.material`, while src/Hitable.hpp records only the hitable. The model reads the material of the recorded hitable everywhere (`Hitables.MaterialOf`).
- src/Material.hpp, src/Debug.hpp and Random.hpp are not part of this model. A material's default emission is black, and only DiffuseLight overrides it.
- CheckerTexture.hpp: its choice depends on the sign of a product of sines, so nothing beyond an uninterpreted predicate could be stated. Only the constant texture is modelled.
- `Viewer::show` and the GPU and platform back ends are OpenGL and GLFW calls and are not modelled. Neither are the stream operators.
- The older copies of the sources at the root of the repository (`Vec3.hpp`, `Sphere.hpp`, `Scene.hpp` and the others that src/ supersedes) are not modelled. Box.hpp, Ray.hpp, Viewport.hpp, Sampling.hpp, Renderer.hpp, Viewer.hpp and RaytraceVisualizer.hpp have no newer copy and are modelled.
- Vectors.Normalize: tests/vec3.cpp:64-80 expects an exception when normalising the zero vector, but src/Vec3.hpp:123-129 returns the zero vector. The model follows the code.
- Raymarches.ShortStepTestIsDead: the loop's `dist < rec.t` exit test (src/Raymarch.hpp:61-64) can never fire with exact arithmetic. It is modelled, and the lemma shows it never stops the loop.
- Images.Store: its own contract states only that the layout is kept. What a later load reads is stated by Images.LoadStore.
- Images.Load: its own contract states only the length read. The bytes read are stated by Images.LoadStore and Images.LoadFresh.
- Files.Colours: its own contract states only the count. The order and colour of each entry are stated by Files.WrittenAt.
- Viewers.ScalePixel: its own contract states only that the layout is kept. The scaling is stated by Viewers.ScalePixelScales, and the untouched other pixels by Viewers.ScalePixelFrame.
- Viewers.ClampToAspectRatio: its own contract states only that one side is kept and the other does not grow. Which side changes is stated by Viewers.ClampShrinksOneSide, and the resulting aspect ratio by Viewers.ClampMatchesAspect.
- Spheres.Hit, Rects.Hit and Boxes.Hit: their own contracts state the distance bounds and the named shape. The point, the normal and the choice of root or face are stated by the lemmas in the same rows' modules (for example Spheres.HitOnSurface, Spheres.HitNearest, Rects.HitOnRect and Boxes.HitOnBox).
- Shapes.ShapeHit: dispatches a rectangle to the corrected test Rects.Hit of "## Findings", so Scenes.NearestIsClosest, Scenes.NearestIsShapeHit and the integrators that build on the scan describe the corrected program. For the source as written they hold when every rectangle has scale 1 (Scenes.NearestAsWrittenAgrees); with a scaled rectangle the as-written scan can return a hit beyond its bounds (Rects.HitAsWrittenOvershoots).
- Scenes.Nearest and Scenes.ProbeAll: their own contracts state only bounds and membership. Being the closest hit and being the first probe hit are stated by Scenes.NearestIsClosest and Scenes.ProbeAllFirst.
- Raytraces.Trace and Raymarches.Trace: their own contracts bound the path's length. The colour the path yields is stated by Raytraces.ColourIsRadiance and Raymarches.ColourIsRadiance.

## Findings

| source | as written | input that shows it | evidently intended | confidence | as-written member | corrected member |
|---|---|---|---|---|---|---|
| src/Rect.hpp:35-47 | the plane distance in the rect's own frame is compared against the caller's world-space bounds, and only then multiplied by the transform's scale | an unrotated, untranslated rect with scale k > 1 and a ray from (0, 0, h), 1 < h <= k, straight down, with bounds (0, 1): the code reports a hit at world distance h > 1, outside the bounds the scene's nearest-hit scan relies on | compare the world distance `t * scale` against the bounds, as Box.hpp:65-66 does | not executed | Rects.HitAsWrittenOvershoots | Rects.Hit |
