/** The viewer's pure helpers (Viewer.hpp): fitting the window's framebuffer to the image's
    aspect ratio, centring a viewport in a window, and normalising an image so that its
    largest channel value becomes 1. The image is the byte buffer of the `Images` module read
    as 32-bit floats; the window, the GPU and the display loop are not modelled. */
module Viewers {
  import opened Scalar
  import opened Images

  /** A framebuffer size in pixels. */
  datatype Size = Size(width: nat, height: nat)

  /** A viewport origin in pixels. */
  datatype Origin = Origin(x: nat, y: nat)

  // ---------------------------------------------------------------- clampToAspectRatio

  /** `clampToAspectRatio(width, height, aspectRatio)`: when the target is wider than the
      framebuffer the height becomes `width / aspectRatio`, otherwise the width becomes
      `height * aspectRatio`, each truncated to an unsigned integer. */
  function ClampToAspectRatio(width: nat, height: nat, aspect: real): (r: Size)
    requires 0 < height && 0.0 < aspect
    ensures (r.width == width && r.height <= height) || (r.height == height && r.width <= width)
  {
    var framebufferAspect := width as real / height as real;
    if aspect > framebufferAspect then
      QuotientBelow(width as real, height as real, aspect);
      Size(width, (width as real / aspect).Floor)
    else
      ProductBelow(width as real, height as real, aspect);
      Size((height as real * aspect).Floor, height)
  }

  /** If a / h < t then a / t < h. */
  lemma QuotientBelow(a: real, h: real, t: real)
    requires 0.0 <= a && 0.0 < h && 0.0 < t && a / h < t
    ensures 0.0 <= a / t < h
  {
    assert a < t * h;
  }

  /** If t <= a / h then h * t <= a. */
  lemma ProductBelow(a: real, h: real, t: real)
    requires 0.0 <= a && 0.0 < h && 0.0 < t && t <= a / h
    ensures 0.0 <= h * t <= a
  {
  }

  /** The dimension that changes is the one that shrinks: the height exactly when the target
      is wider than the framebuffer, and the width otherwise. */
  lemma ClampShrinksOneSide(width: nat, height: nat, aspect: real)
    requires 0 < height && 0.0 < aspect
    ensures var r := ClampToAspectRatio(width, height, aspect);
            aspect > width as real / height as real <==> (r.width == width && r.height < height)
  {
    var r := ClampToAspectRatio(width, height, aspect);
    if aspect > width as real / height as real {
      QuotientBelow(width as real, height as real, aspect);
      FloorBelow(width as real / aspect, height);
    } else if r.width == width {
      ProductBelow(width as real, height as real, aspect);
    }
  }

  /** The floor of a value below n is below n. */
  lemma FloorBelow(v: real, n: nat)
    requires 0.0 <= v < n as real
    ensures v.Floor < n
  {
  }

  /** The clamped size has the target aspect ratio up to the truncation of one pixel: either
      its width is at least `height * aspect` and less than one aspect step above it, or its
      width is at most `height * aspect` and less than one pixel below it. */
  lemma ClampMatchesAspect(width: nat, height: nat, aspect: real)
    requires 0 < height && 0.0 < aspect
    ensures var r := ClampToAspectRatio(width, height, aspect);
            (r.height as real * aspect <= r.width as real < (r.height as real + 1.0) * aspect) ||
            (r.width as real <= r.height as real * aspect < r.width as real + 1.0)
  {
    if aspect > width as real / height as real {
      QuotientBelow(width as real, height as real, aspect);
      FloorTimes(width as real, aspect, (width as real / aspect).Floor);
    } else {
      ProductBelow(width as real, height as real, aspect);
      var v := height as real * aspect;
      assert v.Floor as real <= v < v.Floor as real + 1.0;
    }
  }

  /** With f the floor of a / t: f * t <= a < (f + 1) * t. */
  lemma FloorTimes(a: real, t: real, f: int)
    requires 0.0 < t && f == (a / t).Floor
    ensures f as real * t <= a
    ensures a < (f as real + 1.0) * t
  {
    var q := a / t;
    FloorBounds(q, f);
    MulLe(f as real, q, t);
    assert q * t == a;
    assert q < f as real + 1.0;
    MulLt(q, f as real + 1.0, t);
    assert q * t < (f as real + 1.0) * t;
    assert a < (f as real + 1.0) * t;
  }

  lemma FloorBounds(v: real, f: int)
    requires f == v.Floor
    ensures f as real <= v < f as real + 1.0
  {
  }

  lemma MulLt(a: real, b: real, t: real)
    requires a < b && 0.0 < t
    ensures a * t < b * t
  {
  }

  lemma MulLe(a: real, b: real, t: real)
    requires a <= b && 0.0 < t
    ensures a * t <= b * t
  {
  }

  // ---------------------------------------------------------------- getCenteredViewportOrigin

  /** `getCenteredViewportOrigin`: half of each unsigned margin; a viewport larger than the
      window makes the subtraction wrap modulo 2^32. */
  function CenteredViewportOrigin(windowWidth: nat, windowHeight: nat, viewportWidth: nat, viewportHeight: nat): Origin {
    Origin(U32(windowWidth - viewportWidth) / 2, U32(windowHeight - viewportHeight) / 2)
  }

  /** A viewport that fits its window is centred: it lies inside the window, and the margins
      before and after it differ by at most one pixel, the extra one after it. */
  lemma CenteredMargins(windowWidth: nat, windowHeight: nat, viewportWidth: nat, viewportHeight: nat)
    requires viewportWidth <= windowWidth < UintModulus && viewportHeight <= windowHeight < UintModulus
    ensures var o := CenteredViewportOrigin(windowWidth, windowHeight, viewportWidth, viewportHeight);
            o.x + viewportWidth <= windowWidth && o.y + viewportHeight <= windowHeight &&
            0 <= (windowWidth - viewportWidth - o.x) - o.x <= 1 &&
            0 <= (windowHeight - viewportHeight - o.y) - o.y <= 1
  {
  }

  /** A viewport wider than its window wraps: the origin lies beyond the window's right edge. */
  lemma OriginWrapsWhenTooWide(windowWidth: nat, windowHeight: nat, viewportWidth: nat, viewportHeight: nat)
    requires windowWidth < viewportWidth && windowWidth + viewportWidth < UintModulus - 1
    ensures windowWidth < CenteredViewportOrigin(windowWidth, windowHeight, viewportWidth, viewportHeight).x
  {
    assert U32(windowWidth - viewportWidth) == UintModulus + windowWidth - viewportWidth;
  }

  // ---------------------------------------------------------------- normalizeImage

  /** Channel c of pixel (x, y), read as a float. */
  function Value(img: Image, x: int, y: int, c: nat): real
    requires Valid(img) && c < img.channelAmount
  {
    FormatSizes(img.desc.format);
    Channel(Load(img, x, y), c)
  }

  predicate InImage(img: Image, x: int, y: int) {
    0 <= x < img.desc.width && 0 <= y < img.desc.height
  }

  /** m is the value the first pass computes: it starts at 0 and is raised to every channel of
      every pixel, so it is non-negative, bounds every channel, and is 0 or one of them. */
  ghost predicate IsImageMax(img: Image, m: real)
    requires Valid(img)
  {
    0.0 <= m &&
    (forall x, y, c :: InImage(img, x, y) && 0 <= c < img.channelAmount ==> Value(img, x, y, c) <= m) &&
    (m == 0.0 || exists x, y, c :: InImage(img, x, y) && 0 <= c < img.channelAmount && Value(img, x, y, c) == m)
  }

  /** `abs(imageMax) > 1e-6 ? 1.0 / imageMax : 1.0`. */
  function Factor(m: real): real {
    if Abs(m) > 0.000001 then 1.0 / m else 1.0
  }

  /** Every channel of pixel (x, y) of r is the one of img times the factor, stored as a
      float. */
  ghost predicate Scaled(r: Image, img: Image, x: int, y: int, factor: real)
    requires Valid(r) && Valid(img) && r.desc == img.desc
  {
    forall c :: 0 <= c < img.channelAmount ==> Value(r, x, y, c) == Round(Value(img, x, y, c) * factor)
  }

  /** The floats of a staging pixel as bytes. */
  function EncodeReals(vs: seq<real>): (bytes: seq<Byte>)
    decreases |vs|
  {
    if |vs| == 0 then [] else EncodeReals(vs[..|vs| - 1]) + EncodeReal(vs[|vs| - 1])
  }

  /** Encoding a staging pixel gives four bytes per float, and each reads back as the float
      it rounds to. */
  lemma {:induction false} EncodeRealsRoundTrip(vs: seq<real>)
    requires CodecLaw()
    ensures |EncodeReals(vs)| == 4 * |vs|
    ensures forall c :: 0 <= c < |vs| ==> Channel(EncodeReals(vs), c) == Round(vs[c])
    decreases |vs|
  {
    if |vs| > 0 {
      var init := vs[..|vs| - 1];
      EncodeRealsRoundTrip(init);
      var e := EncodeReals(vs);
      assert e == EncodeReals(init) + EncodeReal(vs[|vs| - 1]);
      RoundLaws(vs[|vs| - 1], vs[|vs| - 1]);
      assert |e| == 4 * |vs|;
      forall c | 0 <= c < |vs|
        ensures Channel(e, c) == Round(vs[c])
      {
        if c < |vs| - 1 {
          assert e[4 * c..4 * c + 4] == EncodeReals(init)[4 * c..4 * c + 4];
          assert init[c] == vs[c];
        } else {
          assert e[4 * c..4 * c + 4] == EncodeReal(vs[|vs| - 1]);
        }
      }
    }
  }

  /** The first pass over one pixel: `imageMax = max(imageMax, stagingPixel[c])` per channel. */
  method PixelMax(img: Image, x: int, y: int, m: real) returns (m': real)
    requires Valid(img)
    ensures m <= m'
    ensures forall c :: 0 <= c < img.channelAmount ==> Value(img, x, y, c) <= m'
    ensures m' == m || exists c :: 0 <= c < img.channelAmount && Value(img, x, y, c) == m'
  {
    m' := m;
    var c := 0;
    while c < img.channelAmount
      invariant 0 <= c <= img.channelAmount
      invariant m <= m'
      invariant forall c' :: 0 <= c' < c ==> Value(img, x, y, c') <= m'
      invariant m' == m || exists c' :: 0 <= c' < c && Value(img, x, y, c') == m'
    {
      m' := Max(m', Value(img, x, y, c));
      c := c + 1;
    }
  }

  /** The first pass over row y. */
  method RowMax(img: Image, y: int, m: real) returns (m': real)
    requires Valid(img)
    ensures m <= m'
    ensures forall x, c :: 0 <= x < img.desc.width && 0 <= c < img.channelAmount ==> Value(img, x, y, c) <= m'
    ensures m' == m || exists x, c :: 0 <= x < img.desc.width && 0 <= c < img.channelAmount && Value(img, x, y, c) == m'
  {
    m' := m;
    var x := 0;
    while x < img.desc.width
      invariant 0 <= x <= img.desc.width
      invariant m <= m'
      invariant forall x', c :: 0 <= x' < x && 0 <= c < img.channelAmount ==> Value(img, x', y, c) <= m'
      invariant m' == m || exists x', c :: 0 <= x' < x && 0 <= c < img.channelAmount && Value(img, x', y, c) == m'
    {
      m' := PixelMax(img, x, y, m');
      x := x + 1;
    }
  }

  /** The first pass of `normalizeImage`: the largest channel value, from 0. */
  method ImageMax(img: Image) returns (m: real)
    requires Valid(img)
    ensures IsImageMax(img, m)
  {
    m := 0.0;
    var y := 0;
    while y < img.desc.height
      invariant 0 <= y <= img.desc.height
      invariant 0.0 <= m
      invariant forall x, y', c :: 0 <= x < img.desc.width && 0 <= y' < y && 0 <= c < img.channelAmount ==>
                  Value(img, x, y', c) <= m
      invariant m == 0.0 || exists x, y', c :: (0 <= x < img.desc.width && 0 <= y' < y && 0 <= c < img.channelAmount &&
                                                 Value(img, x, y', c) == m)
    {
      m := RowMax(img, y, m);
      y := y + 1;
    }
  }

  /** The staging pixel after `stagingPixel[c] *= factor`. */
  function Staging(img: Image, x: int, y: int, factor: real): (vs: seq<real>)
    requires Valid(img)
    ensures |vs| == img.channelAmount
    ensures forall c :: 0 <= c < |vs| ==> vs[c] == Value(img, x, y, c) * factor
  {
    seq(img.channelAmount, c requires 0 <= c < img.channelAmount => Value(img, x, y, c) * factor)
  }

  /** The second pass over one pixel: load it, scale every channel, store it back. */
  function ScalePixel(img: Image, x: int, y: int, factor: real): (r: Image)
    requires Valid(img) && CodecLaw()
    ensures Valid(r) && r.desc == img.desc
  {
    FormatSizes(img.desc.format);
    EncodeRealsRoundTrip(Staging(img, x, y, factor));
    Store(img, x, y, EncodeReals(Staging(img, x, y, factor)))
  }

  /** Storing encoded reals into a pixel makes its channels read as those reals rounded to
      floats. */
  lemma StoredValues(img: Image, x: int, y: int, vs: seq<real>)
    requires Valid(img) && CodecLaw() && |vs| == img.channelAmount
    ensures |EncodeReals(vs)| == 4 * |vs| == img.pixelSize
    ensures forall c :: 0 <= c < |vs| ==> Value(Store(img, x, y, EncodeReals(vs)), x, y, c) == Round(vs[c])
  {
    FormatSizes(img.desc.format);
    EncodeRealsRoundTrip(vs);
    var bytes := EncodeReals(vs);
    LoadStore(img, x, y, bytes, x, y);
    assert bytes[..img.pixelSize] == bytes;
  }

  /** Scaling a pixel scales its channels. */
  lemma ScalePixelScales(img: Image, x: int, y: int, factor: real)
    requires Valid(img) && CodecLaw()
    ensures Scaled(ScalePixel(img, x, y, factor), img, x, y, factor)
  {
    StoredValues(img, x, y, Staging(img, x, y, factor));
  }

  /** Scaling a pixel leaves every other pixel of the image alone. */
  lemma ScalePixelFrame(img: Image, x: int, y: int, factor: real, x2: int, y2: int)
    requires Valid(img) && CodecLaw() && InImage(img, x, y) && InImage(img, x2, y2) && (x2 != x || y2 != y)
    ensures Load(ScalePixel(img, x, y, factor), x2, y2) == Load(img, x2, y2)
  {
    FormatSizes(img.desc.format);
    EncodeRealsRoundTrip(Staging(img, x, y, factor));
    LoadStore(img, x, y, EncodeReals(Staging(img, x, y, factor)), x2, y2);
  }

  /** Pixel (x2, y2) comes before pixel (x, y) in the second pass. */
  predicate Before(x2: int, y2: int, x: int, y: int) {
    y2 < y || (y2 == y && x2 < x)
  }

  /** Every pixel before (x, y) has been scaled. */
  ghost predicate Done(img: Image, r: Image, x: int, y: int, factor: real)
    requires Valid(img) && Valid(r) && r.desc == img.desc
  {
    forall x2, y2 :: InImage(img, x2, y2) && Before(x2, y2, x, y) ==> Scaled(r, img, x2, y2, factor)
  }

  /** Every pixel from (x, y) on still holds its original bytes. */
  ghost predicate Pending(img: Image, r: Image, x: int, y: int)
    requires Valid(img) && Valid(r) && r.desc == img.desc
  {
    forall x2, y2 :: InImage(img, x2, y2) && !Before(x2, y2, x, y) ==> Load(r, x2, y2) == Load(img, x2, y2)
  }

  /** One step of the second pass moves the boundary past pixel (x, y). */
  lemma ScaleStep(img: Image, r: Image, x: int, y: int, factor: real)
    requires Valid(img) && Valid(r) && r.desc == img.desc && CodecLaw() && InImage(img, x, y)
    requires Done(img, r, x, y, factor) && Pending(img, r, x, y)
    ensures Done(img, ScalePixel(r, x, y, factor), x + 1, y, factor)
    ensures Pending(img, ScalePixel(r, x, y, factor), x + 1, y)
  {
    var next := ScalePixel(r, x, y, factor);
    ScalePixelScalesFrom(r, img, x, y, factor);
    forall x2, y2 | InImage(img, x2, y2) && (x2 != x || y2 != y)
      ensures Load(next, x2, y2) == Load(r, x2, y2)
    {
      ScalePixelFrame(r, x, y, factor, x2, y2);
    }
    ScaleStepDone(img, r, next, x, y, factor);
    ScaleStepPending(img, r, next, x, y);
  }

  /** Scaling pixel (x, y), and nothing else, extends the scaled pixels past it. */
  lemma ScaleStepDone(img: Image, r: Image, next: Image, x: int, y: int, factor: real)
    requires Valid(img) && Valid(r) && Valid(next) && r.desc == img.desc && next.desc == img.desc
    requires Done(img, r, x, y, factor) && Scaled(next, img, x, y, factor)
    requires forall x2, y2 :: InImage(img, x2, y2) && (x2 != x || y2 != y) ==> Load(next, x2, y2) == Load(r, x2, y2)
    ensures Done(img, next, x + 1, y, factor)
  {
    forall x2, y2 | InImage(img, x2, y2) && Before(x2, y2, x + 1, y)
      ensures Scaled(next, img, x2, y2, factor)
    {
      if x2 != x || y2 != y {
        assert Before(x2, y2, x, y);
        SameLoadStaysScaled(next, r, img, x2, y2, factor);
      }
    }
  }

  /** Scaling a pixel of r whose bytes are those of the same pixel of img scales img's. */
  lemma ScalePixelScalesFrom(r: Image, img: Image, x: int, y: int, factor: real)
    requires Valid(img) && Valid(r) && r.desc == img.desc && CodecLaw()
    requires Load(r, x, y) == Load(img, x, y)
    ensures Scaled(ScalePixel(r, x, y, factor), img, x, y, factor)
  {
    SameStaging(r, img, x, y, factor);
    StoredValues(r, x, y, Staging(img, x, y, factor));
  }

  /** Pixels with the same bytes scale to the same staging pixel. */
  lemma SameStaging(r: Image, img: Image, x: int, y: int, factor: real)
    requires Valid(img) && Valid(r) && r.desc == img.desc
    requires Load(r, x, y) == Load(img, x, y)
    ensures Staging(r, x, y, factor) == Staging(img, x, y, factor)
  {
    var a := Staging(r, x, y, factor);
    var b := Staging(img, x, y, factor);
    forall c | 0 <= c < |a|
      ensures a[c] == b[c]
    {
      SameLoadSameValue(r, img, x, y, c);
    }
  }

  lemma SameLoadSameValue(a: Image, b: Image, x: int, y: int, c: nat)
    requires Valid(a) && Valid(b) && a.desc == b.desc && Load(a, x, y) == Load(b, x, y)
    requires c < a.channelAmount
    ensures Value(a, x, y, c) == Value(b, x, y, c)
  {
  }

  /** A scaled pixel whose bytes are kept stays scaled. */
  lemma SameLoadStaysScaled(next: Image, r: Image, img: Image, x: int, y: int, factor: real)
    requires Valid(img) && Valid(r) && Valid(next) && r.desc == img.desc && next.desc == img.desc
    requires Scaled(r, img, x, y, factor) && Load(next, x, y) == Load(r, x, y)
    ensures Scaled(next, img, x, y, factor)
  {
    SameLoadSameValues(next, r, x, y);
  }

  /** Changing only pixel (x, y) keeps the pixels after it pending. */
  lemma ScaleStepPending(img: Image, r: Image, next: Image, x: int, y: int)
    requires Valid(img) && Valid(r) && Valid(next) && r.desc == img.desc && next.desc == img.desc
    requires Pending(img, r, x, y)
    requires forall x2, y2 :: InImage(img, x2, y2) && (x2 != x || y2 != y) ==> Load(next, x2, y2) == Load(r, x2, y2)
    ensures Pending(img, next, x + 1, y)
  {
  }

  /** The end of a row is the start of the next one. */
  lemma RowEnd(img: Image, r: Image, y: int, factor: real)
    requires Valid(img) && Valid(r) && r.desc == img.desc
    requires Done(img, r, img.desc.width, y, factor) && Pending(img, r, img.desc.width, y)
    ensures Done(img, r, 0, y + 1, factor) && Pending(img, r, 0, y + 1)
  {
    forall x2, y2 | InImage(img, x2, y2) && Before(x2, y2, 0, y + 1)
      ensures Scaled(r, img, x2, y2, factor)
    {
      assert Before(x2, y2, img.desc.width, y);
    }
    forall x2, y2 | InImage(img, x2, y2) && !Before(x2, y2, 0, y + 1)
      ensures Load(r, x2, y2) == Load(img, x2, y2)
    {
      assert !Before(x2, y2, img.desc.width, y);
    }
  }

  /** The second pass over row y. */
  method ScaleRow(img: Image, cur: Image, y: int, factor: real) returns (r: Image)
    requires Valid(img) && Valid(cur) && CodecLaw() && cur.desc == img.desc && 0 <= y < img.desc.height
    requires Done(img, cur, 0, y, factor) && Pending(img, cur, 0, y)
    ensures Valid(r) && r.desc == img.desc
    ensures Done(img, r, 0, y + 1, factor) && Pending(img, r, 0, y + 1)
  {
    r := cur;
    var x := 0;
    while x < img.desc.width
      invariant 0 <= x <= img.desc.width
      invariant Valid(r) && r.desc == img.desc
      invariant Done(img, r, x, y, factor) && Pending(img, r, x, y)
    {
      ScaleStep(img, r, x, y, factor);
      r := ScalePixel(r, x, y, factor);
      x := x + 1;
    }
    RowEnd(img, r, y, factor);
  }

  /** Pixels with the same bytes have the same channel values. */
  lemma SameLoadSameValues(a: Image, b: Image, x: int, y: int)
    requires Valid(a) && Valid(b) && a.desc == b.desc && Load(a, x, y) == Load(b, x, y)
    ensures forall c :: 0 <= c < a.channelAmount ==> Value(a, x, y, c) == Value(b, x, y, c)
  {
  }

  /** `normalizeImage(image)`: the image keeps its descriptor (so its dimensions and channel
      count) and every channel of every pixel is multiplied by the factor of the largest
      channel value: `1 / max` when that is above 1e-6, 1 otherwise. */
  method NormalizeImage(img: Image) returns (r: Image)
    requires Valid(img) && CodecLaw()
    ensures Valid(r) && r.desc == img.desc && r.channelAmount == img.channelAmount
    ensures exists m :: IsImageMax(img, m) &&
              (forall x, y :: InImage(img, x, y) ==> Scaled(r, img, x, y, Factor(m)))
  {
    var m := ImageMax(img);
    var factor := Factor(m);
    r := img;
    var y := 0;
    while y < img.desc.height
      invariant 0 <= y <= img.desc.height
      invariant Valid(r) && r.desc == img.desc
      invariant Done(img, r, 0, y, factor) && Pending(img, r, 0, y)
    {
      r := ScaleRow(img, r, y, factor);
      y := y + 1;
    }
    AllDone(img, r, factor);
  }

  /** Past the last row every pixel has been scaled. */
  lemma AllDone(img: Image, r: Image, factor: real)
    requires Valid(img) && Valid(r) && r.desc == img.desc && Done(img, r, 0, img.desc.height, factor)
    ensures forall x, y :: InImage(img, x, y) ==> Scaled(r, img, x, y, factor)
  {
    forall x, y | InImage(img, x, y)
      ensures Scaled(r, img, x, y, factor)
    {
      assert Before(x, y, 0, img.desc.height);
    }
  }

  // ---------------------------------------------------------------- properties

  /** The first pass's maximum is determined by the image. */
  lemma ImageMaxUnique(img: Image, m1: real, m2: real)
    requires Valid(img) && IsImageMax(img, m1) && IsImageMax(img, m2)
    ensures m1 == m2
  {
    MaxBelow(img, m1, m2);
    MaxBelow(img, m2, m1);
  }

  lemma MaxBelow(img: Image, a: real, b: real)
    requires Valid(img) && IsImageMax(img, a) && IsImageMax(img, b)
    ensures b <= a
  {
    if b != 0.0 {
      var x, y, c :| InImage(img, x, y) && 0 <= c < img.channelAmount && Value(img, x, y, c) == b;
    }
  }

  /** After normalising an image whose maximum exceeds 1e-6, every channel is at most 1 and
      the channel that held the maximum is exactly 1. */
  lemma NormalizedPeakIsOne(img: Image, r: Image, m: real)
    requires Valid(img) && Valid(r) && r.desc == img.desc && CodecLaw() && IsImageMax(img, m) && m > 0.000001
    requires forall x, y :: InImage(img, x, y) ==> Scaled(r, img, x, y, Factor(m))
    ensures forall x, y, c :: InImage(img, x, y) && 0 <= c < img.channelAmount ==> Value(r, x, y, c) <= 1.0
    ensures exists x, y, c :: InImage(img, x, y) && 0 <= c < img.channelAmount && Value(r, x, y, c) == 1.0
  {
    NormalizedAtMostOne(img, r, m);
    NormalizedPeak(img, r, m);
  }

  lemma NormalizedAtMostOne(img: Image, r: Image, m: real)
    requires Valid(img) && Valid(r) && r.desc == img.desc && CodecLaw() && IsImageMax(img, m) && m > 0.000001
    requires forall x, y :: InImage(img, x, y) ==> Scaled(r, img, x, y, Factor(m))
    ensures forall x, y, c :: InImage(img, x, y) && 0 <= c < img.channelAmount ==> Value(r, x, y, c) <= 1.0
  {
    forall x, y, c | InImage(img, x, y) && 0 <= c < img.channelAmount
      ensures Value(r, x, y, c) <= 1.0
    {
      ChannelAtMostOne(r, img, x, y, c, m);
    }
  }

  lemma ChannelAtMostOne(r: Image, img: Image, x: int, y: int, c: nat, m: real)
    requires Valid(img) && Valid(r) && r.desc == img.desc && CodecLaw() && c < img.channelAmount && m > 0.000001
    requires Value(img, x, y, c) <= m && Scaled(r, img, x, y, Factor(m))
    ensures Value(r, x, y, c) <= 1.0
  {
    var s := Value(img, x, y, c) * Factor(m);
    ScaledValue(r, img, x, y, c, Factor(m));
    LargeFactor(m);
    BelowMaxScaled(Value(img, x, y, c), m, Factor(m), s);
    RoundLaws(s, 1.0);
  }

  lemma NormalizedPeak(img: Image, r: Image, m: real)
    requires Valid(img) && Valid(r) && r.desc == img.desc && CodecLaw() && IsImageMax(img, m) && m > 0.000001
    requires forall x, y :: InImage(img, x, y) ==> Scaled(r, img, x, y, Factor(m))
    ensures exists x, y, c :: InImage(img, x, y) && 0 <= c < img.channelAmount && Value(r, x, y, c) == 1.0
  {
    var x, y, c := MaxWitness(img, m);
    PeakChannel(r, img, x, y, c, m);
  }

  lemma PeakChannel(r: Image, img: Image, x: int, y: int, c: nat, m: real)
    requires Valid(img) && Valid(r) && r.desc == img.desc && CodecLaw() && c < img.channelAmount && m > 0.000001
    requires Value(img, x, y, c) == m && Scaled(r, img, x, y, Factor(m))
    ensures Value(r, x, y, c) == 1.0
  {
    var s := Value(img, x, y, c) * Factor(m);
    ScaledValue(r, img, x, y, c, Factor(m));
    LargeFactor(m);
    BelowMaxScaled(Value(img, x, y, c), m, Factor(m), s);
    RoundLaws(s, s);
  }

  /** A non-zero maximum is the value of some channel. */
  lemma MaxWitness(img: Image, m: real) returns (x: int, y: int, c: nat)
    requires Valid(img) && IsImageMax(img, m) && m != 0.0
    ensures InImage(img, x, y) && c < img.channelAmount && Value(img, x, y, c) == m
  {
    x, y, c :| InImage(img, x, y) && 0 <= c < img.channelAmount && Value(img, x, y, c) == m;
  }

  lemma LargeFactor(m: real)
    requires m > 0.000001
    ensures Factor(m) == 1.0 / m
  {
  }

  /** Channel c of a scaled pixel. */
  lemma ScaledValue(r: Image, img: Image, x: int, y: int, c: nat, factor: real)
    requires Valid(r) && Valid(img) && r.desc == img.desc && c < img.channelAmount
    requires Scaled(r, img, x, y, factor)
    ensures Value(r, x, y, c) == Round(Value(img, x, y, c) * factor)
  {
  }

  /** v <= m with m positive gives v * (1 / m) <= 1, with equality at v == m. */
  lemma BelowMaxScaled(v: real, m: real, f: real, s: real)
    requires v <= m && 0.0 < m && f == 1.0 / m && s == v * f
    ensures s <= 1.0
    ensures v == m ==> s == 1.0
  {
  }

  /** An image whose maximum is at most 1e-6 is left as it is: its values are floats
      already, and multiplying by 1 and storing them again changes none of them. */
  lemma NormalizedDarkUnchanged(img: Image, r: Image, m: real)
    requires Valid(img) && Valid(r) && r.desc == img.desc && CodecLaw() && IsImageMax(img, m) && m <= 0.000001
    requires forall x, y :: InImage(img, x, y) ==> Scaled(r, img, x, y, Factor(m))
    ensures forall x, y, c :: InImage(img, x, y) && 0 <= c < img.channelAmount ==> Value(r, x, y, c) == Value(img, x, y, c)
  {
    assert Factor(m) == 1.0;
    forall x, y, c | InImage(img, x, y) && 0 <= c < img.channelAmount
      ensures Value(r, x, y, c) == Value(img, x, y, c)
    {
      ScaledValue(r, img, x, y, c, Factor(m));
      StoredFloat(img, x, y, c);
    }
  }

  /** A channel value read from an image is a float: rounding it changes nothing. */
  lemma StoredFloat(img: Image, x: int, y: int, c: nat)
    requires Valid(img) && CodecLaw() && c < img.channelAmount
    ensures Round(Value(img, x, y, c)) == Value(img, x, y, c)
  {
    FormatSizes(img.desc.format);
    RoundDecoded(Load(img, x, y)[4 * c..4 * c + 4]);
  }
}
