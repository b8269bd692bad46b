/** The PPM writer (src/File.hpp): the file name, the plain-text "P3" header whose maximum
    value is patched into a five-character placeholder after the pixels are written, and one
    "r g b" line per pixel from the top row down. The file system is a parameter: whether
    the named file can be opened. The text is the characters the stream would hold. */
module Files {
  import opened Scalar
  import opened Vectors
  import opened Wrappers
  import opened Images

  const Extension: string := ".ppm"

  /** The largest value the PPM format allows, five decimal digits. */
  const MaxPpmValue: int := 65535

  /** The placeholder written where the maximum value goes. */
  const Placeholder: string := "     "

  datatype PpmFile = PpmFile(name: string, text: string)

  // ---------------------------------------------------------------- file name

  predicate EndsWithExtension(s: string) {
    |s| > |Extension| && s[|s| - |Extension|..] == Extension
  }

  /** The base name, with ".ppm" appended unless it is longer than the extension and already
      ends with it. */
  function FileName(base: string): string {
    if |base| <= |Extension| || base[|base| - |Extension|..] != Extension then base + Extension else base
  }

  /** The name is kept exactly when it already ends with the extension after at least one
      other character; otherwise the extension is appended (so ".ppm" becomes ".ppm.ppm"). The
      result always ends with the extension. */
  lemma FileNameRule(base: string)
    ensures FileName(base) == base <==> EndsWithExtension(base)
    ensures !EndsWithExtension(base) ==> FileName(base) == base + Extension
    ensures FileName(base)[|FileName(base)| - |Extension|..] == Extension
  {
    if !EndsWithExtension(base) {
      assert |FileName(base)| == |base| + |Extension|;
      assert FileName(base)[|base|..] == Extension;
    }
  }

  // ---------------------------------------------------------------- decimal text

  function DigitChar(d: nat): char
    requires d < 10
  {
    "0123456789"[d]
  }

  function DigitValue(c: char): nat {
    if '0' <= c <= '9' then c as int - '0' as int else 0
  }

  /** `operator<<` of an unsigned value: its decimal digits, most significant first. */
  function NatToString(n: nat): string
    decreases n
  {
    if n < 10 then [DigitChar(n)] else NatToString(n / 10) + [DigitChar(n % 10)]
  }

  /** `operator<<` of an int: a minus sign before the digits of a negative value. */
  function IntToString(i: int): string {
    if i < 0 then "-" + NatToString(-i) else NatToString(i)
  }

  /** The value of a string of decimal digits. */
  function ParseNat(s: string): nat
    decreases |s|
  {
    if |s| == 0 then 0 else ParseNat(s[..|s| - 1]) * 10 + DigitValue(s[|s| - 1])
  }

  function ParseInt(s: string): int {
    if 0 < |s| && s[0] == '-' then -(ParseNat(s[1..]) as int) else ParseNat(s)
  }

  /** Reading the digits back gives the number. */
  lemma {:induction false} NatToStringRoundTrip(n: nat)
    ensures ParseNat(NatToString(n)) == n
    ensures 0 < |NatToString(n)| && NatToString(n)[0] != '-'
    decreases n
  {
    if n >= 10 {
      NatToStringRoundTrip(n / 10);
      var s := NatToString(n);
      assert s[..|s| - 1] == NatToString(n / 10);
    }
  }

  lemma IntToStringRoundTrip(i: int)
    ensures ParseInt(IntToString(i)) == i
  {
    if i < 0 {
      var n: nat := -i;
      assert IntToString(i) == "-" + NatToString(n);
      SignedRoundTrip(n);
    } else {
      UnsignedRoundTrip(i);
    }
  }

  lemma SignedRoundTrip(n: nat)
    ensures ParseInt("-" + NatToString(n)) == -(n as int)
  {
    NatToStringRoundTrip(n);
    var s := "-" + NatToString(n);
    assert s[1..] == NatToString(n);
  }

  lemma UnsignedRoundTrip(n: nat)
    ensures ParseInt(NatToString(n)) == n
  {
    NatToStringRoundTrip(n);
  }

  function Pow10(k: nat): nat {
    if k == 0 then 1 else 10 * Pow10(k - 1)
  }

  /** A number below 10^k has at most k digits. */
  lemma {:induction false} DigitCount(n: nat, k: nat)
    requires 0 < k && n < Pow10(k)
    ensures |NatToString(n)| <= k
    decreases k
  {
    if n >= 10 {
      DigitCount(n / 10, k - 1);
    }
  }

  // ---------------------------------------------------------------- pixels

  /** The colour `load` reads at (col, row): the pixel's first three floats. */
  function PixelColour(img: Image, col: int, row: int): Vec3
    requires Valid(img) && img.channelAmount == 3
  {
    FormatSizes(img.desc.format);
    DecodeColour(Load(img, col, row))
  }

  /** The colours in the order they are written: rows from `height - 1` down to 0, each row
      from column 0 to `width - 1`. */
  function Colours(img: Image): (cs: seq<Vec3>)
    requires Valid(img) && img.channelAmount == 3
    ensures |cs| == img.desc.width * img.desc.height
  {
    var w, h := img.desc.width, img.desc.height;
    seq(w * h, k requires 0 <= k < w * h => PixelColour(img, k % w, h - 1 - k / w))
  }

  /** `int(colour.r) << " " << int(colour.g) << " " << int(colour.b) << "\n"`. */
  function PixelLine(c: Vec3): string {
    IntToString(Trunc(c.x)) + " " + IntToString(Trunc(c.y)) + " " + IntToString(Trunc(c.z)) + "\n"
  }

  function Lines(img: Image): (ls: seq<string>)
    requires Valid(img) && img.channelAmount == 3
    ensures |ls| == |Colours(img)|
  {
    seq(|Colours(img)|, k requires 0 <= k < |Colours(img)| => PixelLine(Colours(img)[k]))
  }

  /** `int(max(colour))` for each pixel, in the order written. */
  function PixelMaxima(img: Image): (ms: seq<int>)
    requires Valid(img) && img.channelAmount == 3
    ensures |ms| == |Colours(img)|
  {
    seq(|Colours(img)|, k requires 0 <= k < |Colours(img)| => Trunc(MaxComponent(Colours(img)[k])))
  }

  function Join(ls: seq<string>): string
    decreases |ls|
  {
    if |ls| == 0 then "" else Join(ls[..|ls| - 1]) + ls[|ls| - 1]
  }

  // ---------------------------------------------------------------- maximum value

  /** `m = max(x, m)` over the sequence, starting from `start`. */
  function RunningMax(start: int, s: seq<int>): int
    decreases |s|
  {
    if |s| == 0 then start else MaxInt(s[|s| - 1], RunningMax(start, s[..|s| - 1]))
  }

  /** The running maximum is the largest of the start and the elements. */
  lemma {:induction false} RunningMaxIsMaximum(start: int, s: seq<int>)
    ensures start <= RunningMax(start, s)
    ensures forall i :: 0 <= i < |s| ==> s[i] <= RunningMax(start, s)
    ensures RunningMax(start, s) == start || RunningMax(start, s) in s
    decreases |s|
  {
    if |s| > 0 {
      RunningMaxIsMaximum(start, s[..|s| - 1]);
      assert forall i :: 0 <= i < |s| - 1 ==> s[i] == s[..|s| - 1][i];
    }
  }

  /** `maxValue`: `max(1, range)`, raised to each pixel's truncated maximum only when
      `range <= 0`, then capped at 65535. */
  function MaxValue(img: Image, range: int): int
    requires Valid(img) && img.channelAmount == 3
  {
    var m := if range <= 0 then RunningMax(MaxInt(1, range), PixelMaxima(img)) else MaxInt(1, range);
    MinInt(m, MaxPpmValue)
  }

  /** The maximum value lies in [1, 65535]. A positive range is kept (up to the cap); otherwise
      the value is the largest truncated pixel maximum, at least 1, up to the cap. */
  lemma MaxValueBounds(img: Image, range: int)
    requires Valid(img) && img.channelAmount == 3
    ensures 1 <= MaxValue(img, range) <= MaxPpmValue
    ensures 0 < range ==> MaxValue(img, range) == MinInt(range, MaxPpmValue)
    ensures range <= 0 ==>
              (forall k :: 0 <= k < |PixelMaxima(img)| ==> MinInt(PixelMaxima(img)[k], MaxPpmValue) <= MaxValue(img, range))
    ensures range <= 0 ==>
              (MaxValue(img, range) == 1 ||
               exists k :: 0 <= k < |PixelMaxima(img)| && MaxValue(img, range) == MinInt(PixelMaxima(img)[k], MaxPpmValue))
  {
    RunningMaxIsMaximum(1, PixelMaxima(img));
  }

  // ---------------------------------------------------------------- the file

  /** `"P3\n" << width << " " << height << "\n"`. */
  function Prefix(img: Image): string {
    "P3\n" + IntToString(img.desc.width) + " " + IntToString(img.desc.height) + "\n"
  }

  /** `seekp(pos)` followed by a write: the characters from pos are replaced. */
  function Overwrite(text: string, pos: nat, s: string): string
    requires pos + |s| <= |text|
  {
    text[..pos] + s + text[pos + |s|..]
  }

  /** The maximum value's digits fit the placeholder. */
  lemma MaxValueFits(img: Image, range: int)
    requires Valid(img) && img.channelAmount == 3
    ensures 0 < |IntToString(MaxValue(img, range))| <= |Placeholder|
  {
    MaxValueBounds(img, range);
    DigitCount(MaxValue(img, range), 5);
    NatToStringRoundTrip(MaxValue(img, range));
  }

  /** The stream's text: the header with the placeholder, the pixel lines, and the maximum
      value written over the placeholder. */
  function PpmText(img: Image, range: int): string
    requires Valid(img) && img.channelAmount == 3
  {
    MaxValueFits(img, range);
    Overwrite(Prefix(img) + Placeholder + "\n" + Join(Lines(img)), |Prefix(img)|, IntToString(MaxValue(img, range)))
  }

  /** `writePpm(baseFileName, image, range)`: no file when it cannot be opened; otherwise the
      file name and the text written. */
  method WritePpm(base: string, img: Image, range: int, canOpen: string -> bool) returns (written: Option<PpmFile>)
    requires Valid(img) && img.channelAmount == 3
    ensures written.None? <==> !canOpen(FileName(base))
    ensures written.Some? ==> written.value == PpmFile(FileName(base), PpmText(img, range))
  {
    var fileName := base;
    if |base| <= |Extension| || base[|base| - |Extension|..] != Extension {
      fileName := fileName + Extension;
    }
    if !canOpen(fileName) {
      return None;
    }
    var lines, maxValue := WriteLines(img, range);
    maxValue := MinInt(maxValue, MaxPpmValue);
    var header := "P3\n" + IntToString(img.desc.width) + " " + IntToString(img.desc.height) + "\n";
    MaxValueFits(img, range);
    var text := Overwrite(header + Placeholder + "\n" + Join(lines), |header|, IntToString(maxValue));
    return Some(PpmFile(fileName, text));
  }

  /** The row loop of `writePpm`: every pixel's line, top row first, and the maximum value
      before the cap. */
  method WriteLines(img: Image, range: int) returns (lines: seq<string>, maxValue: int)
    requires Valid(img) && img.channelAmount == 3
    ensures lines == Lines(img)
    ensures MinInt(maxValue, MaxPpmValue) == MaxValue(img, range)
  {
    maxValue := MaxInt(1, range);
    lines := [];
    var row: int := img.desc.height - 1;
    FirstSlot(img);
    while row >= 0
      invariant -1 <= row <= img.desc.height - 1
      invariant 0 <= Slot(img, 0, row) <= |Lines(img)|
      invariant lines == Lines(img)[..Slot(img, 0, row)]
      invariant maxValue == Scan(img, range, Slot(img, 0, row))
      decreases row
    {
      lines, maxValue := WriteRow(img, range, row, lines, maxValue);
      NextRow(img, row);
      row := row - 1;
    }
    LastSlot(img);
    FullScan(img, range);
  }

  /** The maximum value before the cap, after the first k pixels. */
  function Scan(img: Image, range: int, k: nat): int
    requires Valid(img) && img.channelAmount == 3 && k <= |Colours(img)|
  {
    if range <= 0 then RunningMax(MaxInt(1, range), PixelMaxima(img)[..k]) else MaxInt(1, range)
  }

  /** The column loop of `writePpm` for one row. */
  method WriteRow(img: Image, range: int, row: int, lines: seq<string>, maxValue: int)
    returns (lines': seq<string>, maxValue': int)
    requires Valid(img) && img.channelAmount == 3 && 0 <= row < img.desc.height
    requires 0 <= Slot(img, 0, row) <= |Lines(img)|
    requires lines == Lines(img)[..Slot(img, 0, row)]
    requires maxValue == Scan(img, range, Slot(img, 0, row))
    ensures 0 <= Slot(img, img.desc.width, row) <= |Lines(img)|
    ensures lines' == Lines(img)[..Slot(img, img.desc.width, row)]
    ensures maxValue' == Scan(img, range, Slot(img, img.desc.width, row))
  {
    lines', maxValue' := lines, maxValue;
    var col := 0;
    WrittenAt(img, 0, row);
    while col < img.desc.width
      invariant 0 <= col <= img.desc.width
      invariant 0 <= Slot(img, col, row) <= |Lines(img)|
      invariant lines' == Lines(img)[..Slot(img, col, row)]
      invariant maxValue' == Scan(img, range, Slot(img, col, row))
    {
      var colour := DecodeColour(Load(img, col, row));
      WrittenAt(img, col, row);
      ScanStep(img, range, Slot(img, col, row));
      if range <= 0 {
        maxValue' := MaxInt(Trunc(MaxComponent(colour)), maxValue');
      }
      PrefixStep(Lines(img), Slot(img, col, row));
      lines' := lines' + [PixelLine(colour)];
      col := col + 1;
    }
  }

  lemma ScanStep(img: Image, range: int, k: nat)
    requires Valid(img) && img.channelAmount == 3 && k < |Colours(img)|
    ensures Scan(img, range, k + 1) ==
            if range <= 0 then MaxInt(PixelMaxima(img)[k], Scan(img, range, k)) else Scan(img, range, k)
  {
    var s := PixelMaxima(img);
    assert s[..k + 1][..k] == s[..k];
  }

  /** The line on which pixel (col, row) is written: rows from the top, columns from the left. */
  function Slot(img: Image, col: int, row: int): int {
    (img.desc.height - 1 - row) * img.desc.width + col
  }

  /** The end of a row is the start of the row below it. */
  lemma NextRow(img: Image, row: int)
    requires row < img.desc.height
    ensures Slot(img, img.desc.width, row) == Slot(img, 0, row - 1)
    ensures 0 <= Slot(img, 0, row - 1)
  {
    MulMonotone(0, img.desc.height - row, img.desc.width);
  }

  lemma FirstSlot(img: Image)
    ensures Slot(img, 0, img.desc.height - 1) == 0
  {
  }

  /** Below the bottom row every line has been written. */
  lemma LastSlot(img: Image)
    requires Valid(img) && img.channelAmount == 3
    ensures Slot(img, 0, -1) == |Lines(img)|
    ensures Lines(img)[..Slot(img, 0, -1)] == Lines(img)
  {
  }

  /** After every pixel, the capped scan is the maximum value. */
  lemma FullScan(img: Image, range: int)
    requires Valid(img) && img.channelAmount == 3
    ensures MinInt(Scan(img, range, |Colours(img)|), MaxPpmValue) == MaxValue(img, range)
  {
    assert PixelMaxima(img)[..|Colours(img)|] == PixelMaxima(img);
  }

  lemma PrefixStep<T>(s: seq<T>, k: nat)
    requires k < |s|
    ensures s[..k + 1] == s[..k] + [s[k]]
  {
  }

  /** Pixel (col, row) is the colour, the line and the maximum at its slot. */
  lemma WrittenAt(img: Image, col: int, row: int)
    requires Valid(img) && img.channelAmount == 3
    requires 0 <= col < img.desc.width && 0 <= row < img.desc.height
    ensures 0 <= Slot(img, col, row) < |Colours(img)|
    ensures Colours(img)[Slot(img, col, row)] == PixelColour(img, col, row)
    ensures Lines(img)[Slot(img, col, row)] == PixelLine(PixelColour(img, col, row))
    ensures PixelMaxima(img)[Slot(img, col, row)] == Trunc(MaxComponent(PixelColour(img, col, row)))
  {
    var w, h := img.desc.width, img.desc.height;
    SlotOrder(w, h, row, col);
  }

  /** The slot `(h - 1 - row) * w + col` of the write order is pixel (col, row). */
  lemma SlotOrder(w: nat, h: nat, row: int, col: int)
    requires 0 <= row < h && 0 <= col < w
    ensures 0 <= (h - 1 - row) * w + col < w * h
    ensures ((h - 1 - row) * w + col) % w == col && ((h - 1 - row) * w + col) / w == h - 1 - row
  {
    DivModUnique(w, h - 1 - row, col);
    RowMajorBound((h - 1 - row) * w + col, w, h);
  }

  // ---------------------------------------------------------------- properties

  /** The header reads "P3", the dimensions, then the maximum value padded with spaces to the
      placeholder's five characters; the pixel lines follow untouched. */
  lemma HeaderLayout(img: Image, range: int)
    requires Valid(img) && img.channelAmount == 3
    ensures var digits := IntToString(MaxValue(img, range));
            |digits| <= |Placeholder| &&
            PpmText(img, range) ==
            Prefix(img) + digits + Placeholder[|digits|..] + "\n" + Join(Lines(img))
  {
    MaxValueFits(img, range);
    OverwriteLayout(Prefix(img), Placeholder, "\n", Join(Lines(img)), IntToString(MaxValue(img, range)));
  }

  /** Overwriting the start of a placeholder keeps what precedes it, the rest of the
      placeholder and what follows it. */
  lemma OverwriteLayout(pre: string, placeholder: string, sep: string, body: string, s: string)
    requires |s| <= |placeholder|
    ensures Overwrite(pre + placeholder + sep + body, |pre|, s) == pre + s + placeholder[|s|..] + sep + body
  {
    var text := pre + placeholder + sep + body;
    assert text[..|pre|] == pre;
    assert text[|pre| + |s|..] == placeholder[|s|..] + sep + body;
  }

  /** Pixel (col, row) is written on line `(height - 1 - row) * width + col`: the top row
      first, each row left to right, one line per pixel and one line for every pixel. */
  lemma LineOrder(img: Image, col: int, row: int)
    requires Valid(img) && img.channelAmount == 3
    requires 0 <= col < img.desc.width && 0 <= row < img.desc.height
    ensures |Lines(img)| == img.desc.width * img.desc.height
    ensures 0 <= (img.desc.height - 1 - row) * img.desc.width + col < |Lines(img)|
    ensures Lines(img)[(img.desc.height - 1 - row) * img.desc.width + col] == PixelLine(PixelColour(img, col, row))
  {
    WrittenAt(img, col, row);
  }
}
