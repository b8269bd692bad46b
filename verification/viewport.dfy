/** The viewport (Viewport.hpp): the pixel dimensions of the rendered image together with
    their cached reciprocals. */
module Viewports {
  import opened Scalar

  datatype Viewport = Viewport(width: nat, height: nat, widthInv: real, heightInv: real)

  /** `Viewport()`: one pixel. */
  const DefaultViewport: Viewport := Viewport(1, 1, 1.0, 1.0)

  /** `Viewport(w, h)`. Both dimensions are unsigned 32-bit values; a zero dimension would
      make the reciprocal a division by zero, so it is excluded. */
  function MakeViewport(width: nat, height: nat): Viewport
    requires 0 < width < UintModulus && 0 < height < UintModulus
  {
    Viewport(width, height, 1.0 / width as real, 1.0 / height as real)
  }

  /** A viewport whose cached reciprocals match its dimensions. */
  predicate Valid(vp: Viewport) {
    0 < vp.width && 0 < vp.height &&
    vp.widthInv * vp.width as real == 1.0 && vp.heightInv * vp.height as real == 1.0
  }

  /** `aspectRatio()`: width over height. */
  function AspectRatio(vp: Viewport): real
    requires 0 < vp.height
  {
    vp.width as real / vp.height as real
  }

  /** Both constructors produce a consistent viewport that keeps the given size, and its
      aspect ratio recovers the width from the height. */
  lemma MakeViewportValid(width: nat, height: nat)
    requires 0 < width < UintModulus && 0 < height < UintModulus
    ensures Valid(DefaultViewport) && AspectRatio(DefaultViewport) == 1.0
    ensures Valid(MakeViewport(width, height))
    ensures MakeViewport(width, height).width == width && MakeViewport(width, height).height == height
    ensures AspectRatio(MakeViewport(width, height)) * height as real == width as real
    ensures width == height ==> AspectRatio(MakeViewport(width, height)) == 1.0
  {
  }
}
