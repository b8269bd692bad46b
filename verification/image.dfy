/** The pixel buffer (src/Image.hpp; src/Framebuffer.hpp is the same code under another
    name): a descriptor, metadata derived from it, and a zero-filled byte array addressed by
    clamped pixel positions. Bytes are copied as they are; the layout of a float in its four
    bytes is left to an uninterpreted codec. */
module Images {
  import opened Scalar
  import opened Vectors

  type Byte = b: int | 0 <= b < 256

  /** `ImageFormat`: 32-bit channels, one or three of them, of float, unsigned or signed type. */
  datatype ImageFormat = Invalid | R32f | R32ui | R32si | R32g32b32f | R32g32b32ui | R32g32b32si | Count

  /** `ImageDesc`; its `operator==` compares all three fields, as datatype equality does. */
  datatype ImageDesc = ImageDesc(width: nat, height: nat, format: ImageFormat)

  /** `ImageDesc()`: a 1x1 single-float image. */
  const DefaultDesc: ImageDesc := ImageDesc(1, 1, R32f)

  datatype Image = Image(desc: ImageDesc, data: seq<Byte>, aspectRatio: real,
                         channelAmount: nat, pixelSize: nat, dataSize: nat)

  /** The first switch of the constructor: the number of channels. */
  function ChannelAmount(f: ImageFormat): nat {
    match f
    case R32f | R32ui | R32si => 1
    case R32g32b32f | R32g32b32ui | R32g32b32si => 3
    case _ => 0
  }

  /** The second switch: `sizeof(float)`, `sizeof(uint)` or `sizeof(int)`, all four bytes. */
  function ChannelSize(f: ImageFormat): nat {
    match f
    case R32f | R32g32b32f => 4
    case R32ui | R32g32b32ui => 4
    case R32si | R32g32b32si => 4
    case _ => 0
  }

  /** `pixelSizeInBytes *= channelAmount`. */
  function PixelSize(f: ImageFormat): nat {
    ChannelSize(f) * ChannelAmount(f)
  }

  /** Every format stores four bytes per channel; the six valid formats have one or three
      channels, and the two markers none. */
  lemma FormatSizes(f: ImageFormat)
    ensures PixelSize(f) == 4 * ChannelAmount(f)
    ensures ChannelAmount(f) == 1 <==> f in {R32f, R32ui, R32si}
    ensures ChannelAmount(f) == 3 <==> f in {R32g32b32f, R32g32b32ui, R32g32b32si}
    ensures ChannelAmount(f) == 0 <==> f in {Invalid, Count}
  {
  }

  /** `Image(desc)`: dimensions of at least one pixel, derived metadata, zero-filled data. */
  function MakeImage(desc: ImageDesc): Image {
    var w := MaxInt(desc.width, 1);
    var h := MaxInt(desc.height, 1);
    var size := PixelSize(desc.format) * w * h;
    Image(ImageDesc(w, h, desc.format), seq(size, _ => 0), w as real / h as real,
          ChannelAmount(desc.format), PixelSize(desc.format), size)
  }

  /** The constructor's layout invariant: metadata consistent with the descriptor and a data
      array of `dataSize` bytes. Store, load and assignment depend on nothing else; the aspect
      ratio is stated by `MakeImageValid`. */
  predicate Valid(img: Image) {
    1 <= img.desc.width && 1 <= img.desc.height &&
    img.channelAmount == ChannelAmount(img.desc.format) &&
    img.pixelSize == PixelSize(img.desc.format) &&
    img.dataSize == img.pixelSize * img.desc.width * img.desc.height &&
    |img.data| == img.dataSize
  }

  /** A constructed image is valid, keeps the format, raises a zero dimension to one and
      leaves others alone, has width over height as its aspect ratio, and holds only zero
      bytes. */
  lemma MakeImageValid(desc: ImageDesc)
    ensures Valid(MakeImage(desc))
    ensures AspectOf(MakeImage(desc))
    ensures MakeImage(desc).desc.format == desc.format
    ensures 0 < desc.width ==> MakeImage(desc).desc.width == desc.width
    ensures desc.width == 0 ==> MakeImage(desc).desc.width == 1
    ensures 0 < desc.height ==> MakeImage(desc).desc.height == desc.height
    ensures desc.height == 0 ==> MakeImage(desc).desc.height == 1
    ensures forall i :: 0 <= i < |MakeImage(desc).data| ==> MakeImage(desc).data[i] == 0
  {
  }

  // ---------------------------------------------------------------- addressing

  /** `clamp(x, 0, width - 1)`. The call mixes `int` and `uint` arguments; it is taken as
      the `int` overload, so a negative coordinate clamps to 0. */
  function ClampX(img: Image, x: int): nat
    requires Valid(img)
  {
    ClampInt(x, 0, img.desc.width - 1)
  }

  function ClampY(img: Image, y: int): nat
    requires Valid(img)
  {
    ClampInt(y, 0, img.desc.height - 1)
  }

  /** `positionToIndex(x, y)`: the byte offset of the clamped pixel, row-major. */
  function PositionToIndex(img: Image, x: int, y: int): nat
    requires Valid(img)
  {
    (ClampX(img, x) + ClampY(img, y) * img.desc.width) * img.pixelSize
  }

  /** For every pair of coordinates, however far outside the image, the pixel addressed lies
      wholly inside the data. */
  lemma IndexInBounds(img: Image, x: int, y: int)
    requires Valid(img)
    ensures PositionToIndex(img, x, y) + img.pixelSize <= img.dataSize
  {
    SlotInBounds(ClampX(img, x), ClampY(img, y), img.desc.width, img.desc.height, img.pixelSize);
  }

  /** Slot (cx, cy) of a w x h grid of ps-byte cells ends inside the grid's bytes. */
  lemma SlotInBounds(cx: nat, cy: nat, w: nat, h: nat, ps: nat)
    requires cx < w && cy < h
    ensures (cx + cy * w) * ps + ps <= ps * w * h
  {
    MulMonotone(cy + 1, h, w);
    MulMonotone(cx + cy * w + 1, h * w, ps);
  }

  lemma MulMonotone(a: nat, b: nat, c: nat)
    requires a <= b
    ensures a * c <= b * c
  {
  }

  /** Two positions are the same pixel when they clamp to the same place; the pixels of two
      different places occupy disjoint byte ranges. */
  lemma IndexSeparation(img: Image, x: int, y: int, x2: int, y2: int)
    requires Valid(img)
    ensures ClampX(img, x) == ClampX(img, x2) && ClampY(img, y) == ClampY(img, y2) ==>
              PositionToIndex(img, x, y) == PositionToIndex(img, x2, y2)
    ensures ClampX(img, x) != ClampX(img, x2) || ClampY(img, y) != ClampY(img, y2) ==>
              PositionToIndex(img, x, y) + img.pixelSize <= PositionToIndex(img, x2, y2) ||
              PositionToIndex(img, x2, y2) + img.pixelSize <= PositionToIndex(img, x, y)
  {
    var w := img.desc.width;
    var k := ClampX(img, x) + ClampY(img, y) * w;
    var k2 := ClampX(img, x2) + ClampY(img, y2) * w;
    DivModUnique(w, ClampY(img, y), ClampX(img, x));
    DivModUnique(w, ClampY(img, y2), ClampX(img, x2));
    if k < k2 {
      MulMonotone(k + 1, k2, img.pixelSize);
    } else if k2 < k {
      MulMonotone(k2 + 1, k, img.pixelSize);
    }
  }

  // ---------------------------------------------------------------- store / load

  /** `store(x, y, in)`: copy `pixelSizeInBytes` bytes of `in` over the addressed pixel. */
  function Store(img: Image, x: int, y: int, bytes: seq<Byte>): (r: Image)
    requires Valid(img) && img.pixelSize <= |bytes|
    ensures Valid(r) && r.desc == img.desc
  {
    var i := PositionToIndex(img, x, y);
    IndexInBounds(img, x, y);
    img.(data := img.data[..i] + bytes[..img.pixelSize] + img.data[i + img.pixelSize..])
  }

  /** `load(x, y, out)`: the `pixelSizeInBytes` bytes of the addressed pixel. */
  function Load(img: Image, x: int, y: int): (r: seq<Byte>)
    requires Valid(img)
    ensures |r| == img.pixelSize
  {
    IndexInBounds(img, x, y);
    img.data[PositionToIndex(img, x, y)..PositionToIndex(img, x, y) + img.pixelSize]
  }

  /** A load after a store returns the stored bytes at the stored pixel (and at every
      position clamping to it) and the old bytes at every other pixel. */
  lemma LoadStore(img: Image, x: int, y: int, bytes: seq<Byte>, x2: int, y2: int)
    requires Valid(img) && img.pixelSize <= |bytes|
    ensures ClampX(img, x) == ClampX(img, x2) && ClampY(img, y) == ClampY(img, y2) ==>
              Load(Store(img, x, y, bytes), x2, y2) == bytes[..img.pixelSize]
    ensures ClampX(img, x) != ClampX(img, x2) || ClampY(img, y) != ClampY(img, y2) ==>
              Load(Store(img, x, y, bytes), x2, y2) == Load(img, x2, y2)
  {
    IndexSeparation(img, x, y, x2, y2);
    IndexInBounds(img, x, y);
    IndexInBounds(img, x2, y2);
  }

  /** Every pixel of a new image reads as zero bytes. */
  lemma LoadFresh(desc: ImageDesc, x: int, y: int)
    ensures Valid(MakeImage(desc))
    ensures forall i :: 0 <= i < |Load(MakeImage(desc), x, y)| ==> Load(MakeImage(desc), x, y)[i] == 0
  {
    var img := MakeImage(desc);
    MakeImageValid(desc);
    IndexInBounds(img, x, y);
    forall i | 0 <= i < |Load(img, x, y)|
      ensures Load(img, x, y)[i] == 0
    {
      assert Load(img, x, y)[i] == img.data[PositionToIndex(img, x, y) + i];
    }
  }

  /** `operator=`: with a different descriptor the whole object is copied (and fresh storage
      allocated); in either case the bytes are copied. */
  function Assign(a: Image, b: Image): Image
    requires Valid(a) && Valid(b)
  {
    if a.desc != b.desc then b else a.(data := b.data[..a.dataSize])
  }

  /** After `a = b`, a has b's descriptor, layout and bytes, so every load agrees. */
  lemma AssignCopies(a: Image, b: Image, x: int, y: int)
    requires Valid(a) && Valid(b)
    ensures Valid(Assign(a, b))
    ensures Assign(a, b).desc == b.desc && Assign(a, b).data == b.data
    ensures Assign(a, b).pixelSize == b.pixelSize && Assign(a, b).channelAmount == b.channelAmount
    ensures Load(Assign(a, b), x, y) == Load(b, x, y)
  {
    if a.desc == b.desc {
      assert b.data[..a.dataSize] == b.data;
    }
  }

  /** For images whose aspect ratios are width over height, as constructed ones are, `a = b`
      makes a equal to b. */
  lemma AssignIsCopy(a: Image, b: Image)
    requires Valid(a) && Valid(b) && AspectOf(a) && AspectOf(b)
    ensures Assign(a, b) == b
  {
    if a.desc == b.desc {
      assert b.data[..a.dataSize] == b.data;
      SameAspect(a.aspectRatio, b.aspectRatio, a.desc.height as real);
    }
  }

  /** The aspect ratio the constructor sets: width over height. */
  predicate AspectOf(img: Image) {
    img.aspectRatio * img.desc.height as real == img.desc.width as real
  }

  lemma SameAspect(p: real, q: real, h: real)
    requires 0.0 < h && p * h == q * h
    ensures p == q
  {
  }

  // ---------------------------------------------------------------- colours

  /** The bytes of a 32-bit float and back. The bit layout is not modelled; `CodecLaw` is
      all the model knows. */
  const EncodeReal: real -> seq<Byte>
  const DecodeReal: seq<Byte> -> real

  /** What any store of reals in four bytes obeys: every real takes four bytes, four bytes
      read as a value and stored again are the same four bytes, storing rounds monotonically,
      and 1 is stored exactly. A real is not in general read back as itself: there are more
      reals than byte strings. */
  ghost predicate IsFloatCodec(enc: real -> seq<Byte>, dec: seq<Byte> -> real) {
    (forall x: real :: |enc(x)| == 4) &&
    (forall b: seq<Byte> :: |b| == 4 ==> enc(dec(b)) == b) &&
    (forall x: real, y: real :: x <= y ==> dec(enc(x)) <= dec(enc(y))) &&
    dec(enc(1.0)) == 1.0
  }

  /** The float codec of the images is such a store. */
  ghost predicate CodecLaw() {
    IsFloatCodec(EncodeReal, DecodeReal)
  }

  /** A real stored as a float and read back: the float it rounds to. */
  function Round(x: real): real {
    DecodeReal(EncodeReal(x))
  }

  /** A value read from four bytes is a float: storing it again changes nothing. */
  lemma RoundDecoded(b: seq<Byte>)
    requires CodecLaw() && |b| == 4
    ensures EncodeReal(DecodeReal(b)) == b
    ensures Round(DecodeReal(b)) == DecodeReal(b)
  {
  }

  /** Rounding is idempotent, monotone and keeps 1. */
  lemma RoundLaws(x: real, y: real)
    requires CodecLaw()
    ensures |EncodeReal(x)| == 4
    ensures Round(Round(x)) == Round(x)
    ensures x <= y ==> Round(x) <= Round(y)
    ensures Round(1.0) == 1.0
  {
    RoundDecoded(EncodeReal(x));
  }

  /** A codec meeting the law, so the law is consistent: the little-endian base-256 digits of
      the real's floor clamped to 32 bits. */
  function WitnessEncode(x: real): (b: seq<Byte>)
    ensures |b| == 4
  {
    Digits(ClampInt(x.Floor, 0, UintModulus - 1))
  }

  function WitnessDecode(b: seq<Byte>): real {
    if |b| == 4 then Word(b) as real else 0.0
  }

  /** Four bytes read as a little-endian base-256 number. */
  function Word(b: seq<Byte>): int
    requires |b| == 4
  {
    (b[0] as int) + 256 * (b[1] as int) + 65536 * (b[2] as int) + 16777216 * (b[3] as int)
  }

  /** The four base-256 digits of a 32-bit number, least significant first. */
  function Digits(n: int): (b: seq<Byte>)
    requires 0 <= n < UintModulus
    ensures |b| == 4
  {
    var n1 := n / 256;
    var n2 := n1 / 256;
    [n % 256, n1 % 256, n2 % 256, n2 / 256]
  }

  /** Reading the digits of n gives n. */
  lemma DigitsValue(n: int)
    requires 0 <= n < UintModulus
    ensures WitnessDecode(Digits(n)) == n as real
  {
    var n1 := n / 256;
    var n2 := n1 / 256;
    assert n == 256 * n1 + n % 256;
    assert n1 == 256 * n2 + n1 % 256;
    assert n2 == 256 * (n2 / 256) + n2 % 256;
  }

  /** The digits of the value of four bytes are those bytes. */
  lemma WordDigits(b: seq<Byte>)
    requires |b| == 4
    ensures 0 <= Word(b) < UintModulus
    ensures Digits(Word(b)) == b
  {
    var q2: int := (b[2] as int) + 256 * (b[3] as int);
    var q1: int := (b[1] as int) + 256 * q2;
    assert Word(b) == (b[0] as int) + 256 * q1;
    DivModUnique(256, q1, b[0]);
    DivModUnique(256, q2, b[1]);
    DivModUnique(256, b[3], b[2]);
    assert Digits(Word(b)) == [b[0], b[1], b[2], b[3]];
  }

  /** Storing with the witness codec clamps the floor of the real to 32 bits. */
  lemma WitnessRound(x: real)
    ensures WitnessDecode(WitnessEncode(x)) == ClampInt(x.Floor, 0, UintModulus - 1) as real
  {
    DigitsValue(ClampInt(x.Floor, 0, UintModulus - 1));
  }

  /** Four bytes read with the witness codec and stored again are the same bytes. */
  lemma WitnessKeepsBytes(b: seq<Byte>)
    requires |b| == 4
    ensures WitnessEncode(WitnessDecode(b)) == b
  {
    WordDigits(b);
    assert (Word(b) as real).Floor == Word(b);
  }

  /** The witness codec rounds monotonically. */
  lemma WitnessMonotone(x: real, y: real)
    requires x <= y
    ensures WitnessDecode(WitnessEncode(x)) <= WitnessDecode(WitnessEncode(y))
  {
    WitnessRound(x);
    WitnessRound(y);
    assert x.Floor <= y.Floor;
  }

  /** The law has a model. */
  lemma CodecLawSatisfiable()
    ensures IsFloatCodec(WitnessEncode, WitnessDecode)
  {
    forall b: seq<Byte> | |b| == 4
      ensures WitnessEncode(WitnessDecode(b)) == b
    {
      WitnessKeepsBytes(b);
    }
    forall x: real, y: real | x <= y
      ensures WitnessDecode(WitnessEncode(x)) <= WitnessDecode(WitnessEncode(y))
    {
      WitnessMonotone(x, y);
    }
    WitnessRound(1.0);
  }

  /** Channel c of a pixel's bytes read as a float. */
  function Channel(bytes: seq<Byte>, c: nat): real
    requires 4 * c + 4 <= |bytes|
  {
    DecodeReal(bytes[4 * c..4 * c + 4])
  }

  /** `(byte*)&colour`: a colour as the bytes of its three floats. */
  function EncodeColour(v: Vec3): seq<Byte> {
    EncodeReal(v.x) + EncodeReal(v.y) + EncodeReal(v.z)
  }

  /** The first three floats of a pixel's bytes as a colour. */
  function DecodeColour(bytes: seq<Byte>): Vec3
    requires 12 <= |bytes|
  {
    Vec3(Channel(bytes, 0), Channel(bytes, 1), Channel(bytes, 2))
  }

  /** A colour stored into a three-channel image: the pixel holds its twelve bytes, and
      reading them back gives each component rounded to a float, so a colour of floats, as
      every `Vec3` of the renderer is, reads back unchanged. */
  lemma ColourRoundTrip(img: Image, x: int, y: int, v: Vec3)
    requires CodecLaw() && Valid(img) && img.channelAmount == 3
    ensures |EncodeColour(v)| == 12 == img.pixelSize
    ensures Load(Store(img, x, y, EncodeColour(v)), x, y) == EncodeColour(v)
    ensures DecodeColour(Load(Store(img, x, y, EncodeColour(v)), x, y)) == Vec3(Round(v.x), Round(v.y), Round(v.z))
    ensures Round(v.x) == v.x && Round(v.y) == v.y && Round(v.z) == v.z ==>
              DecodeColour(Load(Store(img, x, y, EncodeColour(v)), x, y)) == v
  {
    var e := EncodeColour(v);
    FormatSizes(img.desc.format);
    RoundLaws(v.x, v.x);
    RoundLaws(v.y, v.y);
    RoundLaws(v.z, v.z);
    LoadStore(img, x, y, e, x, y);
    assert e[0..4] == EncodeReal(v.x);
    assert e[4..8] == EncodeReal(v.y);
    assert e[8..12] == EncodeReal(v.z);
    assert e[..12] == e;
  }
}
