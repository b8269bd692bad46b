/** Pixel rendering shared by the sampling integrators (`renderPixel` in src/Raytrace.hpp,
    src/Preview.hpp and src/Raymarch.hpp, with `gammaCorrect` of src/Postprocess.hpp): where
    each sample looks through the pixel, the average of the samples' colours, the gamma-2
    correction and the scaling to the stored value. */
module Pixels {
  import opened Scalar
  import opened Vectors
  import opened Wrappers
  import opened Rays
  import opened Viewports
  import opened Cameras

  /** The random numbers one sample draws: the two jitters (read only when there is more than
      one sample per pixel) and the stream the lens sampler reads. */
  datatype SampleDraws = SampleDraws(jitterU: real, jitterV: real, lens: seq<real>)

  /** Normalised screen coordinates. */
  datatype ScreenPoint = ScreenPoint(u: real, v: real)

  /** The screen point of one sample of pixel (col, row): the pixel's centre when there is a
      single sample, a jittered point of the pixel otherwise. */
  function SamplePoint(vp: Viewport, samplesPerPixel: nat, col: nat, row: nat, d: SampleDraws): ScreenPoint {
    if samplesPerPixel > 1 then
      ScreenPoint((col as real + d.jitterU) * vp.widthInv, (row as real + d.jitterV) * vp.heightInv)
    else
      ScreenPoint((col as real + 0.5) * vp.widthInv, (row as real + 0.5) * vp.heightInv)
  }

  /** `camera.getRay(u, v)` for one sample; none when its lens stream runs out. */
  function PrimaryRay(cam: Camera, vp: Viewport, samplesPerPixel: nat, col: nat, row: nat, d: SampleDraws): Option<Ray> {
    var p := SamplePoint(vp, samplesPerPixel, col, row, d);
    match GetRay(cam, p.u, p.v, true, d.lens)
    case None => None
    case Some(cr) => Some(cr.ray)
  }

  /** The primary rays of the first n samples; none when some sample's lens stream runs out. */
  function PrimaryRays(cam: Camera, vp: Viewport, samplesPerPixel: nat, col: nat, row: nat,
                       draws: nat -> SampleDraws, n: nat): (res: Option<seq<Ray>>)
    ensures res.Some? ==> |res.value| == n
    ensures res.Some? ==> forall i :: 0 <= i < n ==> PrimaryRay(cam, vp, samplesPerPixel, col, row, draws(i)) == Some(res.value[i])
  {
    if n == 0 then Some([])
    else
      match PrimaryRays(cam, vp, samplesPerPixel, col, row, draws, n - 1)
      case None => None
      case Some(rays) =>
        match PrimaryRay(cam, vp, samplesPerPixel, col, row, draws(n - 1))
        case None => None
        case Some(r) => Some(rays + [r])
  }

  /** Sum of the colours, added in order. */
  function Sum(cs: seq<Vec3>): Vec3 {
    if cs == [] then Zero else Add(Sum(cs[..|cs| - 1]), cs[|cs| - 1])
  }

  /** `colour /= samplesPerPixel`. */
  function Average(cs: seq<Vec3>): Vec3
    requires |cs| > 0
  {
    DivScalar(Sum(cs), |cs| as real)
  }

  /** `gammaCorrect(colour)`: gamma 2, the square root of each channel. */
  function GammaCorrect(c: Vec3): Vec3 { SqrtV(c) }

  /** The value a pixel stores: `255.99 * gammaCorrect(average)`. */
  function Resolve(cs: seq<Vec3>): Vec3
    requires |cs| > 0
  {
    Scale(GammaCorrect(Average(cs)), 255.99)
  }

  // ---------------------------------------------------------------- accumulation

  /** The loop of `renderPixel`: start from the first sample's colour, add the others one at a
      time, divide by the count and correct. */
  method Accumulate(colours: seq<Vec3>) returns (pixel: Vec3)
    requires |colours| > 0
    ensures pixel == Resolve(colours)
  {
    var colour := colours[0];
    assert colours[..1] == [colours[0]];
    assert colours[..1][..0] == [];
    var i := 1;
    while i < |colours|
      invariant 1 <= i <= |colours|
      invariant colour == Sum(colours[..i])
    {
      assert colours[..i + 1][..i] == colours[..i];
      colour := Add(colour, colours[i]);
      i := i + 1;
    }
    assert colours[..|colours|] == colours;
    colour := DivScalar(colour, |colours| as real);
    pixel := Scale(GammaCorrect(colour), 255.99);
  }

  // ---------------------------------------------------------------- properties

  /** A sample's screen point lies in its pixel: jittered by draws in [0, 1) it is in the
      pixel's half-open cell, and a single sample is exactly at its centre. */
  lemma SampleInPixel(vp: Viewport, samplesPerPixel: nat, col: nat, row: nat, d: SampleDraws)
    requires Valid(vp)
    requires 0.0 <= d.jitterU < 1.0 && 0.0 <= d.jitterV < 1.0
    ensures col as real <= SamplePoint(vp, samplesPerPixel, col, row, d).u * vp.width as real < col as real + 1.0
    ensures row as real <= SamplePoint(vp, samplesPerPixel, col, row, d).v * vp.height as real < row as real + 1.0
    ensures samplesPerPixel <= 1 ==>
              SamplePoint(vp, samplesPerPixel, col, row, d).u * vp.width as real == col as real + 0.5 &&
              SamplePoint(vp, samplesPerPixel, col, row, d).v * vp.height as real == row as real + 0.5
  {
    var p := SamplePoint(vp, samplesPerPixel, col, row, d);
    if samplesPerPixel > 1 {
      Unscale(col as real + d.jitterU, vp.widthInv, vp.width as real);
      Unscale(row as real + d.jitterV, vp.heightInv, vp.height as real);
    } else {
      Unscale(col as real + 0.5, vp.widthInv, vp.width as real);
      Unscale(row as real + 0.5, vp.heightInv, vp.height as real);
    }
  }

  lemma Unscale(a: real, inv: real, n: real)
    requires inv * n == 1.0
    ensures (a * inv) * n == a
  {
    calc {
      (a * inv) * n;
      a * (inv * n);
    }
  }

  /** A sample's ray exists exactly when its camera ray does: without depth of field every
      sample has one. */
  lemma PrimaryRaysExist(cam: Camera, vp: Viewport, samplesPerPixel: nat, col: nat, row: nat,
                         draws: nat -> SampleDraws, n: nat)
    ensures PrimaryRays(cam, vp, samplesPerPixel, col, row, draws, n).None? <==>
            exists i :: 0 <= i < n && PrimaryRay(cam, vp, samplesPerPixel, col, row, draws(i)).None?
    ensures !cam.depthOfFieldEnabled ==> PrimaryRays(cam, vp, samplesPerPixel, col, row, draws, n).Some?
  {
    if n > 0 {
      PrimaryRaysExist(cam, vp, samplesPerPixel, col, row, draws, n - 1);
      if PrimaryRays(cam, vp, samplesPerPixel, col, row, draws, n - 1).None? {
        var i :| 0 <= i < n - 1 && PrimaryRay(cam, vp, samplesPerPixel, col, row, draws(i)).None?;
      }
    }
  }

  /** The sum of n copies of a colour is n times that colour. */
  lemma SumOfCopies(c: Vec3, n: nat)
    ensures Sum(seq(n, i => c)) == Scale(c, n as real)
  {
    if n > 0 {
      SumOfCopies(c, n - 1);
      assert seq(n, i => c)[..n - 1] == seq(n - 1, i => c);
    }
  }

  /** Samples that all see the same colour average to that colour. */
  lemma AverageOfCopies(cs: seq<Vec3>, c: Vec3)
    requires |cs| > 0 && forall i :: 0 <= i < |cs| ==> cs[i] == c
    ensures Average(cs) == c
    ensures Resolve(cs) == Scale(SqrtV(c), 255.99)
  {
    assert cs == seq(|cs|, i => c);
    SumOfCopies(c, |cs|);
    var n := |cs| as real;
    assert Scale(c, n).x / n == c.x && Scale(c, n).y / n == c.y && Scale(c, n).z / n == c.z;
  }

  /** The average of colours whose channels lie in [lo, hi] lies in [lo, hi]. */
  lemma AverageBetween(cs: seq<Vec3>, lo: real, hi: real)
    requires |cs| > 0
    requires forall i :: 0 <= i < |cs| ==> InBox(cs[i], lo, hi)
    ensures InBox(Average(cs), lo, hi)
  {
    SumBetween(cs, lo, hi);
    TimesIsProduct(|cs|, lo);
    TimesIsProduct(|cs|, hi);
    BoxDivide(Sum(cs), |cs| as real, lo, hi);
  }

  /** Dividing a colour in [n lo, n hi] by n > 0 gives one in [lo, hi]. */
  lemma BoxDivide(s: Vec3, n: real, lo: real, hi: real)
    requires n > 0.0 && InBox(s, n * lo, n * hi)
    ensures InBox(DivScalar(s, n), lo, hi)
  {
    DivideBetween(s.x, n, lo, hi);
    DivideBetween(s.y, n, lo, hi);
    DivideBetween(s.z, n, lo, hi);
  }

  /** Every channel of c lies in [lo, hi]. */
  predicate InBox(c: Vec3, lo: real, hi: real) {
    lo <= c.x <= hi && lo <= c.y <= hi && lo <= c.z <= hi
  }

  /** n times x, as repeated addition. */
  function Times(n: nat, x: real): real {
    if n == 0 then 0.0 else Times(n - 1, x) + x
  }

  lemma {:induction false} TimesIsProduct(n: nat, x: real)
    ensures Times(n, x) == n as real * x
  {
    if n > 0 {
      TimesIsProduct(n - 1, x);
    }
  }

  lemma {:induction false} SumBetween(cs: seq<Vec3>, lo: real, hi: real)
    requires forall i :: 0 <= i < |cs| ==> InBox(cs[i], lo, hi)
    ensures InBox(Sum(cs), Times(|cs|, lo), Times(|cs|, hi))
  {
    if cs != [] {
      var init := cs[..|cs| - 1];
      assert forall i :: 0 <= i < |init| ==> init[i] == cs[i];
      SumBetween(init, lo, hi);
    }
  }

  lemma DivideBetween(s: real, n: real, lo: real, hi: real)
    requires n > 0.0 && n * lo <= s <= n * hi
    ensures lo <= s / n <= hi
  {
  }
}
