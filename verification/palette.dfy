/**
  The palette logic of the main window: the colour wheel's own RGB to HSL variant, the
  count and share of each dominant colour in the quantized image, the sort by count, the
  colour picker's hexadecimal text and nearest colour name, the colour-name table loader,
  and the split of a chosen file name into base folder and base file.
 */
module Palette {
  import opened Numeric
  import opened Grids
  import opened ColorSpaces
  import opened Hsl
  import opened Hsv
  import ImageTools

  // ---------------------------------------------------------------------------
  // Smallest and largest channel

  /** `RGBMin`: the smallest of the three values (its comment in the source calls it the max). */
  function RGBMin(r: real, g: real, b: real): (m: real)
    ensures m <= r && m <= g && m <= b
    ensures m == r || m == g || m == b
  {
    var m1 := if g < r then g else r;
    if b < m1 then b else m1
  }

  /** `RGBMax`: the largest of the three values (its comment in the source calls it the min). */
  function RGBMax(r: real, g: real, b: real): (m: real)
    ensures m >= r && m >= g && m >= b
    ensures m == r || m == g || m == b
  {
    var m1 := if g > r then g else r;
    if b > m1 then b else m1
  }

  /** Despite their swapped comments both agree with the shared minimum and maximum. */
  lemma MinMaxAgree(r: real, g: real, b: real)
    ensures RGBMin(r, g, b) == Min3(r, g, b) && RGBMax(r, g, b) == Max3(r, g, b)
    ensures RGBMin(r, g, b) <= RGBMax(r, g, b)
  {
  }

  // ---------------------------------------------------------------------------
  // The wheel's RGB to HSL variant

  /** Position of a colour on the wheel: `h` is the angle as a fraction of a turn (shifted a
      quarter turn), `s` the distance from the centre and `l` the shade. */
  datatype WheelHsl = WheelHsl(h: real, s: real, l: real)

  /** C `%` on `int`: the remainder takes the sign of the dividend. */
  function CRem(a: int, n: int): (r: int)
    requires n > 0
    ensures a >= 0 ==> r == a % n
    ensures a < 0 ==> -n < r <= 0
  {
    if a >= 0 then a % n else -((-a) % n)
  }

  /** The wheel hue in whole degrees: `int(60 * ratio + offset) % 360`, with the sector chosen
      by the first of red, green, blue equal to the maximum. */
  function WheelDegrees(r: real, g: real, b: real): (d: int)
    ensures 0 <= d < 360
  {
    var cmax, cmin := RGBMax(r, g, b), RGBMin(r, g, b);
    var diff := cmax - cmin;
    if cmax == cmin then 0
    else if cmax == r then
      RatioBounds(g - b, diff);
      CRem(Trunc(60.0 * ((g - b) / diff) + 360.0), 360)
    else if cmax == g then
      RatioBounds(b - r, diff);
      CRem(Trunc(60.0 * ((b - r) / diff) + 120.0), 360)
    else
      // `cmax == b` is the only case left
      RatioBounds(r - g, diff);
      CRem(Trunc(60.0 * ((r - g) / diff) + 240.0), 360)
  }

  function Max3Int(a: int, b: int, c: int): int { IntMax(IntMax(a, b), c) }

  /** `RGBToHSL` of the wheel, from 8-bit channels. Unlike the HSL model it puts the mean of
      the channels in `S` and the largest channel in `L`; grays go to the centre (`L = 0`)
      with their level in `S`, and black gets `S = 0`. */
  function RGBToHSL(R: int, G: int, B: int): (x: WheelHsl)
    ensures 0.25 <= x.h < 1.25
    ensures (x.h * 360.0).Floor as real == x.h * 360.0
    ensures Max3Int(R, G, B) == 0 ==> x.s == 0.0 && x.l == 0.0
    ensures Max3Int(R, G, B) != 0 && R == G == B ==> x.s == R as real / 255.0 && x.l == 0.0
    ensures Max3Int(R, G, B) != 0 && !(R == G == B) ==>
              x.s == (R + G + B) as real / 765.0 && x.l == Max3Int(R, G, B) as real / 255.0
  {
    var r, g, b := R as real / 255.0, G as real / 255.0, B as real / 255.0;
    ScaledChannels(R, G, B);
    var h := WheelDegrees(r, g, b) as real;
    WholeDegree(WheelDegrees(r, g, b));
    var cmax := RGBMax(r, g, b);
    var v := cmax * 100.0;
    var sv :=
      if cmax == 0.0 then (cmax, v)
      else if r == g && g == b then (r, 0.0)
      else ((r + g + b) / 3.0, v);
    WheelHsl((h + 90.0) / 360.0, sv.0, sv.1 / 100.0)
  }

  /** Dividing the channels by 255 keeps their order, so the largest scaled channel is the
      largest channel scaled, and equal scaled channels are equal channels. */
  lemma ScaledChannels(R: int, G: int, B: int)
    ensures RGBMax(R as real / 255.0, G as real / 255.0, B as real / 255.0) == Max3Int(R, G, B) as real / 255.0
    ensures (R as real / 255.0 == G as real / 255.0) == (R == G)
    ensures (G as real / 255.0 == B as real / 255.0) == (G == B)
    ensures (R as real / 255.0 + G as real / 255.0 + B as real / 255.0) / 3.0 == (R + G + B) as real / 765.0
  {
  }

  /** The shifted hue of a whole degree is a whole number of degrees in `[90, 450)`. */
  lemma WholeDegree(d: int)
    requires 0 <= d < 360
    ensures 0.25 <= (d as real + 90.0) / 360.0 < 1.25
    ensures ((d as real + 90.0) / 360.0 * 360.0).Floor as real == (d as real + 90.0) / 360.0 * 360.0
  {
    assert (d as real + 90.0) / 360.0 * 360.0 == (d + 90) as real;
  }

  /** For a colour that is not gray the wheel hue is the HSV hue cut down to whole degrees:
      both pick the sector the same way, and the wheel only truncates. */
  lemma WheelHueFloorsHsvHue(c: RGB)
    requires MaxRGB(c) != MinRGB(c)
    ensures WheelDegrees(c.r, c.g, c.b) == (RGBtoHSV(c).hsv.h * 360.0).Floor
  {
    var diff := MaxRGB(c) - MinRGB(c);
    assert RGBtoHSV(c).hsv.h * 360.0 == WrapDegrees(HsvHueDegrees(c, diff));
    SectorsAgree(c);
  }

  /** Sector by sector, the wheel degree is the floor of the wrapped HSV hue. */
  lemma SectorsAgree(c: RGB)
    requires MaxRGB(c) != MinRGB(c)
    ensures WheelDegrees(c.r, c.g, c.b) == WrapDegrees(HsvHueDegrees(c, MaxRGB(c) - MinRGB(c))).Floor
  {
    MinMaxAgree(c.r, c.g, c.b);
    if MaxRGB(c) == c.r {
      RedAgrees(c);
    } else if MaxRGB(c) == c.g {
      GreenAgrees(c);
    } else {
      BlueAgrees(c);
    }
  }

  lemma RedAgrees(c: RGB)
    requires MaxRGB(c) != MinRGB(c) && MaxRGB(c) == c.r
    requires RGBMax(c.r, c.g, c.b) == MaxRGB(c) && RGBMin(c.r, c.g, c.b) == MinRGB(c)
    ensures WheelDegrees(c.r, c.g, c.b) == WrapDegrees(HsvHueDegrees(c, MaxRGB(c) - MinRGB(c))).Floor
  {
    var diff := MaxRGB(c) - MinRGB(c);
    RatioBounds(c.g - c.b, diff);
    var q := (c.g - c.b) / diff;
    FmodSmall(q, 6.0);
    assert HsvHueDegrees(c, diff) == 60.0 * q;
    assert WheelDegrees(c.r, c.g, c.b) == CRem(Trunc(60.0 * q + 360.0), 360);
    RedSector(q);
  }

  lemma GreenAgrees(c: RGB)
    requires MaxRGB(c) != MinRGB(c) && MaxRGB(c) == c.g && MaxRGB(c) != c.r
    requires RGBMax(c.r, c.g, c.b) == MaxRGB(c) && RGBMin(c.r, c.g, c.b) == MinRGB(c)
    ensures WheelDegrees(c.r, c.g, c.b) == WrapDegrees(HsvHueDegrees(c, MaxRGB(c) - MinRGB(c))).Floor
  {
    var diff := MaxRGB(c) - MinRGB(c);
    RatioBounds(c.b - c.r, diff);
    var q := (c.b - c.r) / diff;
    assert HsvHueDegrees(c, diff) == 60.0 * (q + 120.0 / 60.0);
    assert WheelDegrees(c.r, c.g, c.b) == CRem(Trunc(60.0 * q + 120.0), 360);
    OtherSector(q, 120.0);
  }

  lemma BlueAgrees(c: RGB)
    requires MaxRGB(c) != MinRGB(c) && MaxRGB(c) != c.g && MaxRGB(c) != c.r
    requires RGBMax(c.r, c.g, c.b) == MaxRGB(c) && RGBMin(c.r, c.g, c.b) == MinRGB(c)
    ensures WheelDegrees(c.r, c.g, c.b) == WrapDegrees(HsvHueDegrees(c, MaxRGB(c) - MinRGB(c))).Floor
  {
    var diff := MaxRGB(c) - MinRGB(c);
    RatioBounds(c.r - c.g, diff);
    var q := (c.r - c.g) / diff;
    assert HsvHueDegrees(c, diff) == 60.0 * (q + 240.0 / 60.0);
    assert WheelDegrees(c.r, c.g, c.b) == CRem(Trunc(60.0 * q + 240.0), 360);
    OtherSector(q, 240.0);
  }

  /** Red sector: the wheel adds a full turn before truncating and reducing modulo 360,
      HSV wraps a negative hue once; both land on the same whole degree. */
  lemma RedSector(q: real)
    requires -1.0 <= q <= 1.0
    ensures CRem(Trunc(60.0 * q + 360.0), 360) == WrapDegrees(60.0 * q).Floor
  {
    var k := (60.0 * q + 360.0).Floor;
    assert Trunc(60.0 * q + 360.0) == k;
    if 60.0 * q < 0.0 {
      assert WrapDegrees(60.0 * q) == 60.0 * q + 360.0;
      assert 300 <= k < 360;
    } else {
      FloorOf(60.0 * q + 360.0, (60.0 * q).Floor + 360);
      assert 360 <= k <= 420;
    }
  }

  /** Green and blue sectors: the hue needs no wrapping, and truncation is the floor. */
  lemma OtherSector(q: real, offset: real)
    requires -1.0 <= q <= 1.0 && (offset == 120.0 || offset == 240.0)
    ensures CRem(Trunc(60.0 * q + offset), 360) == WrapDegrees(60.0 * (q + offset / 60.0)).Floor
  {
    assert 60.0 * (q + offset / 60.0) == 60.0 * q + offset;
  }

  // ---------------------------------------------------------------------------
  // Count and share of each dominant colour

  /** One entry of the palette: its channels, how many pixels of the quantized image have
      exactly that colour, and which share of the image that is. */
  datatype Swatch = Swatch(r: byte, g: byte, b: byte, count: int, percentage: Extended)

  /** `countNonZero(inRange(quantized, c, c))`: the number of pixels equal to `p`. */
  method CountColour(pixels: seq<Pixel>, p: Pixel) returns (n: int)
    ensures n == multiset(pixels)[p]
    ensures 0 <= n <= |pixels|
  {
    n := 0;
    var i := 0;
    while i < |pixels|
      invariant 0 <= i <= |pixels|
      invariant n == multiset(pixels[..i])[p]
      invariant 0 <= n <= i
    {
      assert pixels[..i + 1] == pixels[..i] + [pixels[i]];
      if pixels[i] == p {
        n := n + 1;
      }
      i := i + 1;
    }
    assert pixels[..i] == pixels;
  }

  /** `float(count) / float(total)`: a share of the image, or NaN for an empty image. */
  function Percentage(count: int, total: int): (r: Extended)
    ensures total > 0 && 0 <= count <= total ==> r.Finite? && 0.0 <= r.v <= 1.0
    ensures total == 0 && count == 0 ==> r.NaN?
  {
    var q := Divide(count as real, total as real);
    if total > 0 && 0 <= count <= total then
      RatioBounds(count as real, total as real);
      q
    else q
  }

  /** What the palette records for a colour given in OpenCV's blue, green, red order. */
  function Measured(pixels: seq<Pixel>, p: Pixel): Swatch
  {
    Swatch(p.c2, p.c1, p.c0, multiset(pixels)[p], Percentage(multiset(pixels)[p], |pixels|))
  }

  function AllMeasured(pixels: seq<Pixel>, colours: seq<Pixel>): (s: seq<Swatch>)
    ensures |s| == |colours|
  {
    seq(|colours|, n requires 0 <= n < |colours| => Measured(pixels, colours[n]))
  }

  /** The counting loop of `Compute`: for each palette colour, its count in the quantized
      image (given in raster order) and its share of the `rows * cols` pixels. */
  method MeasurePalette(pixels: seq<Pixel>, colours: seq<Pixel>) returns (s: seq<Swatch>)
    ensures s == AllMeasured(pixels, colours)
    ensures forall n :: 0 <= n < |s| ==> 0 <= s[n].count <= |pixels|
    ensures |pixels| > 0 ==> forall n :: 0 <= n < |s| ==>
              s[n].percentage.Finite? && 0.0 <= s[n].percentage.v <= 1.0
  {
    s := [];
    var n := 0;
    while n < |colours|
      invariant 0 <= n <= |colours|
      invariant s == AllMeasured(pixels, colours)[..n]
    {
      var p := colours[n];
      var count := CountColour(pixels, p);
      s := s + [Swatch(p.c2, p.c1, p.c0, count, Percentage(count, |pixels|))];
      n := n + 1;
    }
  }

  // ---------------------------------------------------------------------------
  // Sort by count, largest first

  /** The order `compOnR` asks for: counts never increase along the palette. */
  predicate ByCount(s: seq<Swatch>)
  {
    forall i, j :: 0 <= i < j < |s| ==> s[i].count >= s[j].count
  }

  /** Insertion of one swatch into a palette already ordered by count, after every swatch
      with a count at least as large. */
  function Insert(x: Swatch, s: seq<Swatch>): (r: seq<Swatch>)
    requires ByCount(s)
    ensures ByCount(r)
    ensures multiset(r) == multiset(s) + multiset{x}
    decreases |s|
  {
    if |s| == 0 || x.count > s[0].count then [x] + s
    else
      var rest := Insert(x, s[1..]);
      InsertBehind(x, s, rest);
      [s[0]] + rest
  }

  /** The head of the palette stays in front of the rest with `x` inserted into it. */
  lemma InsertBehind(x: Swatch, s: seq<Swatch>, rest: seq<Swatch>)
    requires |s| > 0 && ByCount(s) && ByCount(rest) && x.count <= s[0].count
    requires multiset(rest) == multiset(s[1..]) + multiset{x}
    ensures ByCount([s[0]] + rest)
    ensures multiset([s[0]] + rest) == multiset(s) + multiset{x}
  {
    assert s == [s[0]] + s[1..];
    forall k | 0 <= k < |rest|
      ensures rest[k].count <= s[0].count
    {
      assert rest[k] in multiset(rest);
      if rest[k] != x {
        assert rest[k] in s[1..];
      }
    }
  }

  /** `std::sort(palettes, palettes + nb_palettes, compOnR)`, by insertion. The source's sort
      promises nothing about the order of equal counts; this one keeps them in input order. */
  method SortByCount(p: seq<Swatch>) returns (q: seq<Swatch>)
    ensures ByCount(q)
    ensures multiset(q) == multiset(p)
  {
    q := [];
    var i := 0;
    while i < |p|
      invariant 0 <= i <= |p|
      invariant ByCount(q)
      invariant multiset(q) == multiset(p[..i])
    {
      assert p[..i + 1] == p[..i] + [p[i]];
      q := Insert(p[i], q);
      i := i + 1;
    }
    assert p[..i] == p;
  }

  /** The palette of `Compute`: measure every dominant colour, then sort by count. */
  method ComputePalette(pixels: seq<Pixel>, colours: seq<Pixel>) returns (s: seq<Swatch>)
    ensures ByCount(s)
    ensures multiset(s) == multiset(AllMeasured(pixels, colours))
    ensures |s| == |colours|
  {
    var measured := MeasurePalette(pixels, colours);
    s := SortByCount(measured);
    assert |s| == |multiset(s)| == |multiset(measured)| == |measured|;
  }

  /** The first palette entry among the first `nb` with the picked channels, whose share the
      picker shows. */
  function FindInPalette(s: seq<Swatch>, nb: int, R: int, G: int, B: int): (r: Option<nat>)
    requires nb <= |s|
    ensures r.Some? ==> r.value < nb && s[r.value].r as int == R && s[r.value].g as int == G && s[r.value].b as int == B
    ensures r.Some? ==> forall k :: 0 <= k < r.value ==> !SameColour(s[k], R, G, B)
    ensures r.None? <==> forall k :: 0 <= k < nb ==> !SameColour(s[k], R, G, B)
    decreases if nb < 0 then 0 else nb
  {
    if nb <= 0 then None
    else
      match FindInPalette(s, nb - 1, R, G, B)
      case Some(k) => Some(k)
      case None => if SameColour(s[nb - 1], R, G, B) then Some(nb - 1) else None
  }

  predicate SameColour(w: Swatch, R: int, G: int, B: int)
  {
    w.r as int == R && w.g as int == G && w.b as int == B
  }

  // ---------------------------------------------------------------------------
  // Hexadecimal text of a picked colour

  /** `((R & 0xff) << 16) + ((G & 0xff) << 8) + (B & 0xff)`. On a two's complement `int`,
      `& 0xff` keeps the remainder modulo 256, and the shifts multiply by 65536 and 256. */
  function HexValue(R: int, G: int, B: int): (v: int)
    ensures 0 <= v < 0x100_0000
  {
    (R % 256) * 65536 + (G % 256) * 256 + B % 256
  }

  /** On 8-bit channels the value is the 24-bit key of the colour, so distinct colours get
      distinct values. */
  lemma HexValueInjective(R: byte, G: byte, B: byte, R': byte, G': byte, B': byte)
    ensures HexValue(R as int, G as int, B as int) == HexValue(R' as int, G' as int, B' as int)
            <==> R == R' && G == G' && B == B'
  {
    assert HexValue(R as int, G as int, B as int) == ImageTools.PackKey(Pixel(R, G, B));
    assert HexValue(R' as int, G' as int, B' as int) == ImageTools.PackKey(Pixel(R', G', B'));
    ImageTools.PackInjective(Pixel(R, G, B), Pixel(R', G', B'));
  }

  /** Lower-case digit of `QString::arg` in base 16. */
  function LowerDigit(d: int): (c: char)
    requires 0 <= d < 16
  {
    if d < 10 then (48 + d) as char else (97 + d - 10) as char
  }

  /** `QString::arg(v, 0, 16)`: the base-16 digits of `v` without leading zeros. */
  function Base16(v: nat): (s: string)
    ensures |s| >= 1
    decreases v
  {
    if v < 16 then [LowerDigit(v)] else Base16(v / 16) + [LowerDigit(v % 16)]
  }

  /** Field width with a fill character: pads on the left up to `w` characters. */
  function PadLeft(s: string, w: nat, fill: char): (r: string)
  {
    if |s| >= w then s else seq(w - |s|, _ => fill) + s
  }

  function UpperChar(c: char): char
  {
    if 'a' <= c <= 'z' then (c as int - 32) as char else c
  }

  /** `QString::toUpper` on ASCII text. */
  function ToUpper(s: string): (r: string)
    ensures |r| == |s|
    decreases |s|
  {
    if |s| == 0 then [] else ToUpper(s[..|s| - 1]) + [UpperChar(s[|s| - 1])]
  }

  /** The picker's label: `"#"` and six zero-padded upper-case hexadecimal digits. */
  function HexText(R: int, G: int, B: int): string
  {
    "#" + ToUpper(PadLeft(Base16(HexValue(R, G, B)), 6, '0'))
  }

  predicate IsUpperHexDigit(c: char) { '0' <= c <= '9' || 'A' <= c <= 'F' }

  function HexDigitValue(c: char): int
  {
    if '0' <= c <= '9' then c as int - 48
    else if 'A' <= c <= 'F' then c as int - 65 + 10
    else 0
  }

  /** Reading a string of hexadecimal digits, most significant first. */
  function ParseHex(s: string): int
    decreases |s|
  {
    if |s| == 0 then 0 else ParseHex(s[..|s| - 1]) * 16 + HexDigitValue(s[|s| - 1])
  }

  /** The text is `#` followed by exactly six upper-case hexadecimal digits, which read back
      give the value: the label names the colour without loss. */
  lemma HexTextShape(R: int, G: int, B: int)
    ensures |HexText(R, G, B)| == 7 && HexText(R, G, B)[0] == '#'
    ensures forall k :: 1 <= k < 7 ==> IsUpperHexDigit(HexText(R, G, B)[k])
    ensures ParseHex(HexText(R, G, B)[1..]) == HexValue(R, G, B)
  {
    var v := HexValue(R, G, B);
    var digits := Base16(v);
    Base16Length(v, 6);
    var padded := PadLeft(digits, 6, '0');
    var zeros := seq(6 - |digits|, _ => '0');
    assert padded == zeros + digits;
    Base16Lower(v);
    forall k | 0 <= k < |padded| ensures IsHexLower(padded[k]) {
      if k < |zeros| {
        assert padded[k] == '0';
      } else {
        assert padded[k] == digits[k - |zeros|];
      }
    }
    UpperDigits(padded);
    ParseUpperZeros(zeros, digits);
    Base16Parse(v);
    assert HexText(R, G, B)[1..] == ToUpper(padded);
  }

  /** The text read back gives the colour back: different 8-bit colours get different labels. */
  lemma HexTextInjective(R: byte, G: byte, B: byte, R': byte, G': byte, B': byte)
    ensures HexText(R as int, G as int, B as int) == HexText(R' as int, G' as int, B' as int)
            <==> R == R' && G == G' && B == B'
  {
    HexTextShape(R as int, G as int, B as int);
    HexTextShape(R' as int, G' as int, B' as int);
    HexValueInjective(R, G, B, R', G', B');
  }

  predicate IsHexLower(c: char) { '0' <= c <= '9' || 'a' <= c <= 'f' }

  function Pow16(k: nat): nat { if k == 0 then 1 else 16 * Pow16(k - 1) }

  /** A value below `16^k` has at most `k` digits. */
  lemma {:induction false} Base16Length(v: nat, k: nat)
    requires 1 <= k && v < Pow16(k)
    ensures |Base16(v)| <= k
    decreases v
  {
    if v >= 16 {
      assert v / 16 < Pow16(k - 1);
      Base16Length(v / 16, k - 1);
    }
  }

  lemma {:induction false} Base16Lower(v: nat)
    ensures forall k :: 0 <= k < |Base16(v)| ==> IsHexLower(Base16(v)[k])
    decreases v
  {
    if v >= 16 {
      Base16Lower(v / 16);
    }
  }

  lemma {:induction false} UpperDigits(s: string)
    requires forall k :: 0 <= k < |s| ==> IsHexLower(s[k])
    ensures forall k :: 0 <= k < |s| ==> IsUpperHexDigit(ToUpper(s)[k])
    ensures forall k :: 0 <= k < |s| ==> HexDigitValue(ToUpper(s)[k]) == LowerValue(s[k])
    decreases |s|
  {
    if |s| > 0 {
      UpperDigits(s[..|s| - 1]);
    }
  }

  function LowerValue(c: char): int
  {
    if '0' <= c <= '9' then c as int - 48 else if 'a' <= c <= 'f' then c as int - 97 + 10 else 0
  }

  /** Reading lower-case digits after upper-casing them, and ignoring leading zeros. */
  lemma ParseUpperZeros(zeros: string, digits: string)
    requires forall k :: 0 <= k < |zeros| ==> zeros[k] == '0'
    requires forall k :: 0 <= k < |digits| ==> IsHexLower(digits[k])
    ensures ParseHex(ToUpper(zeros + digits)) == ParseLower(digits)
  {
    var s := zeros + digits;
    forall k | 0 <= k < |s| ensures IsHexLower(s[k]) {
      if k >= |zeros| {
        assert s[k] == digits[k - |zeros|];
      }
    }
    UpperDigits(s);
    ParseUpperIsLower(s);
    ParseLowerZeros(zeros, digits);
  }

  /** Reading lower-case digits, most significant first. */
  function ParseLower(s: string): int
    decreases |s|
  {
    if |s| == 0 then 0 else ParseLower(s[..|s| - 1]) * 16 + LowerValue(s[|s| - 1])
  }

  lemma {:induction false} ParseUpperIsLower(s: string)
    requires forall k :: 0 <= k < |s| ==> HexDigitValue(ToUpper(s)[k]) == LowerValue(s[k])
    ensures ParseHex(ToUpper(s)) == ParseLower(s)
    decreases |s|
  {
    if |s| > 0 {
      var u := ToUpper(s);
      assert u[..|s| - 1] == ToUpper(s[..|s| - 1]);
      ParseUpperIsLower(s[..|s| - 1]);
    }
  }

  lemma {:induction false} ParseLowerZeros(zeros: string, digits: string)
    requires forall k :: 0 <= k < |zeros| ==> zeros[k] == '0'
    ensures ParseLower(zeros + digits) == ParseLower(digits)
    decreases |digits|
  {
    if |digits| == 0 {
      assert zeros + digits == zeros;
      ParseLowerAllZero(zeros);
    } else {
      var s := zeros + digits;
      assert s[..|s| - 1] == zeros + digits[..|digits| - 1];
      ParseLowerZeros(zeros, digits[..|digits| - 1]);
    }
  }

  lemma {:induction false} ParseLowerAllZero(zeros: string)
    requires forall k :: 0 <= k < |zeros| ==> zeros[k] == '0'
    ensures ParseLower(zeros) == 0
    decreases |zeros|
  {
    if |zeros| > 0 {
      ParseLowerAllZero(zeros[..|zeros| - 1]);
    }
  }

  /** Reading the digits of `v` gives `v`. */
  lemma {:induction false} Base16Parse(v: nat)
    ensures ParseLower(Base16(v)) == v
    decreases v
  {
    if v >= 16 {
      var s := Base16(v);
      assert s[..|s| - 1] == Base16(v / 16);
      Base16Parse(v / 16);
    }
  }

  // ---------------------------------------------------------------------------
  // Colour names

  /** One line of the colour-name file: channels and name. */
  datatype ColourName = ColourName(r: int, g: int, b: int, name: string)

  /** The squared RGB distance of `pow(R - r, 2) + pow(G - g, 2) + pow(B - b, 2)`. */
  function Distance2(n: ColourName, R: int, G: int, B: int): (d: int)
    ensures d >= 0
    ensures d == 0 <==> n.r == R && n.g == G && n.b == B
  {
    SquareSum(R - n.r, G - n.g, B - n.b);
    (R - n.r) * (R - n.r) + (G - n.g) * (G - n.g) + (B - n.b) * (B - n.b)
  }

  lemma SquareSum(a: int, b: int, c: int)
    ensures a * a >= 0 && b * b >= 0 && c * c >= 0
    ensures a * a + b * b + c * c == 0 <==> a == 0 && b == 0 && c == 0
  {
    if a != 0 { assert a * a > 0 by { if a > 0 { MulPos(a, a); } else { MulPos(-a, -a); } } }
    if b != 0 { assert b * b > 0 by { if b > 0 { MulPos(b, b); } else { MulPos(-b, -b); } } }
    if c != 0 { assert c * c > 0 by { if c > 0 { MulPos(c, c); } else { MulPos(-c, -c); } } }
    if a == 0 { assert a * a == 0; } else if a < 0 { MulPos(-a, -a); }
    if b == 0 { assert b * b == 0; } else if b < 0 { MulPos(-b, -b); }
    if c == 0 { assert c * c == 0; } else if c < 0 { MulPos(-c, -c); }
  }

  lemma MulPos(a: int, b: int)
    requires a > 0 && b > 0
    ensures a * b > 0
  {
  }

  /** Start value of the running minimum; no distance is expected to reach it. */
  const FarAway := 1000000

  /** What the picker shows: the name of an exact match, the nearest name, or nothing when
      no searched entry came closer than `FarAway` (the source then reads an unset index). */
  datatype NameMatch = Exact(index: nat) | Nearest(index: nat) | NoMatch

  /** The answer the search promises for the first `nb` entries of `names`: the first exact
      match if there is one, else the first entry of least distance below `FarAway`. */
  ghost predicate IsAnswer(names: seq<ColourName>, nb: int, R: int, G: int, B: int, m: NameMatch)
    requires nb <= |names|
  {
    match m
    case Exact(i) =>
      i < nb && Distance2(names[i], R, G, B) == 0
      && forall k :: 0 <= k < i ==> Distance2(names[k], R, G, B) != 0
    case Nearest(i) =>
      i < nb && Distance2(names[i], R, G, B) < FarAway
      && (forall k :: 0 <= k < nb ==> Distance2(names[k], R, G, B) != 0)
      && (forall k :: 0 <= k < nb ==> Distance2(names[i], R, G, B) <= Distance2(names[k], R, G, B))
      && (forall k :: 0 <= k < i ==> Distance2(names[k], R, G, B) > Distance2(names[i], R, G, B))
    case NoMatch =>
      forall k :: 0 <= k < nb ==> Distance2(names[k], R, G, B) >= FarAway
  }

  /** The name search of the picker over indices `0 .. nb - 1`: stop at the first exact match,
      otherwise keep the first strictly smaller distance. */
  method NearestName(names: seq<ColourName>, nb: int, R: int, G: int, B: int) returns (m: NameMatch)
    requires nb <= |names|
    ensures IsAnswer(names, nb, R, G, B, m)
    ensures m.Exact? <==> exists k :: 0 <= k < nb && names[k].r == R && names[k].g == G && names[k].b == B
  {
    var distance := FarAway;
    var index := -1;
    var n := 0;
    var hi := if nb < 0 then 0 else nb;
    while n < hi
      invariant 0 <= n <= hi
      invariant forall k :: 0 <= k < n ==> Distance2(names[k], R, G, B) != 0
      invariant index == -1 ==> forall k :: 0 <= k < n ==> Distance2(names[k], R, G, B) >= FarAway
      invariant index == -1 ==> distance == FarAway
      invariant index != -1 ==> 0 <= index < n && distance == Distance2(names[index], R, G, B) < FarAway
      invariant index != -1 ==> forall k :: 0 <= k < n ==> distance <= Distance2(names[k], R, G, B)
      invariant index != -1 ==> forall k :: 0 <= k < index ==> Distance2(names[k], R, G, B) > distance
    {
      var d := Distance2(names[n], R, G, B);
      if d == 0 {
        return Exact(n);
      }
      if d < distance {
        distance := d;
        index := n;
      }
      n := n + 1;
    }
    if index == -1 {
      m := NoMatch;
    } else {
      m := Nearest(index);
    }
  }

  /** The names in memory and the count the search runs up to. */
  datatype NameTable = NameTable(names: seq<ColourName>, count: int)

  /** The loader as written: the count starts at -1 and is raised before each line is stored
      at that index, so it ends one below the number of lines. */
  function LoadNamesAsWritten(lines: seq<ColourName>): (t: NameTable)
    ensures t.names == lines
    ensures t.count == |lines| - 1
    decreases |lines|
  {
    if |lines| == 0 then NameTable([], -1)
    else
      var t := LoadNamesAsWritten(lines[..|lines| - 1]);
      var count := t.count + 1;
      assert lines == lines[..|lines| - 1] + [lines[|lines| - 1]];
      NameTable(t.names + [lines[|lines| - 1]], count)
  }

  /** The loader as intended: each line stored at the current count, which then goes up, so
      the count is the number of lines and every one of them is searched. */
  function LoadNames(lines: seq<ColourName>): (t: NameTable)
    ensures t.names == lines
    ensures t.count == |lines|
    decreases |lines|
  {
    if |lines| == 0 then NameTable([], 0)
    else
      var t := LoadNames(lines[..|lines| - 1]);
      assert lines == lines[..|lines| - 1] + [lines[|lines| - 1]];
      NameTable(t.names + [lines[|lines| - 1]], t.count + 1)
  }

  /** Counterexample: a file of one line `1 2 3 name`. Picking that very colour, the loaded
      count is 0, so the search looks at no entry and finds no name at all. */
  lemma LastNameNeverSearched()
    ensures var lines := [ColourName(1, 2, 3, "name")];
            var t := LoadNamesAsWritten(lines);
            t.count == 0
            && forall m :: IsAnswer(t.names, t.count, 1, 2, 3, m) ==> m == NoMatch
  {
  }

  /** With the intended loader, picking the colour of any line of the file finds an exact
      match, the first line with that colour. */
  lemma EveryLoadedNameSearched(lines: seq<ColourName>, j: nat, m: NameMatch)
    requires j < |lines|
    requires IsAnswer(LoadNames(lines).names, LoadNames(lines).count, lines[j].r, lines[j].g, lines[j].b, m)
    ensures m.Exact? && m.index <= j
    ensures lines[m.index].r == lines[j].r && lines[m.index].g == lines[j].g && lines[m.index].b == lines[j].b
  {
    var R, G, B := lines[j].r, lines[j].g, lines[j].b;
    assert Distance2(lines[j], R, G, B) == 0;
  }

  /** The picker's name lookup on a table loaded the intended way. */
  method PickName(lines: seq<ColourName>, R: int, G: int, B: int) returns (m: NameMatch)
    ensures IsAnswer(lines, |lines|, R, G, B, m)
    ensures m.Exact? <==> exists k :: 0 <= k < |lines| && lines[k].r == R && lines[k].g == G && lines[k].b == B
  {
    var t := LoadNames(lines);
    m := NearestName(t.names, t.count, R, G, B);
  }

  // ---------------------------------------------------------------------------
  // Base folder and base file

  /** `rfind` / `find_last_of`: the last index holding one of `cs`. */
  function LastIndexIn(s: string, cs: set<char>): (r: Option<nat>)
    ensures r.Some? ==> r.value < |s| && s[r.value] in cs
    ensures r.Some? ==> forall j :: r.value < j < |s| ==> s[j] !in cs
    ensures r.None? <==> forall j :: 0 <= j < |s| ==> s[j] !in cs
    decreases |s|
  {
    if |s| == 0 then None
    else if s[|s| - 1] in cs then Some(|s| - 1)
    else LastIndexIn(s[..|s| - 1], cs)
  }

  const Separators: set<char> := {'\\', '/'}

  /** `basefile.erase(rfind('.'))`: everything from the last period on is dropped. */
  function StripExtension(path: string): (r: string)
    ensures '.' !in path ==> r == path
    ensures '.' in path ==> |r| < |path| && r == path[..|r|] && path[|r|] == '.'
    ensures '.' in path ==> forall j :: |r| < j < |path| ==> path[j] != '.'
  {
    match LastIndexIn(path, {'.'})
    case None => path
    case Some(i) => path[..i]
  }

  /** Folder, with its trailing separator, and file name without extension. */
  datatype BasePath = BasePath(dir: string, file: string)

  /** `ChangeBaseDir`: strip the extension, then cut after the last separator. A name with no
      separator makes `substr(npos, 1)` throw, which `None` stands for. */
  function ChangeBaseDir(filename: string): (r: Option<BasePath>)
    ensures r.None? <==> forall j :: 0 <= j < |StripExtension(filename)| ==> StripExtension(filename)[j] !in Separators
    ensures r.Some? ==> r.value.dir + r.value.file == StripExtension(filename)
    ensures r.Some? ==> |r.value.dir| > 0 && r.value.dir[|r.value.dir| - 1] in Separators
    ensures r.Some? ==> forall j :: 0 <= j < |r.value.file| ==> r.value.file[j] !in Separators
  {
    var base := StripExtension(filename);
    match LastIndexIn(base, Separators)
    case None => None
    case Some(found) =>
      var separator := base[found..found + 1];
      var dir := base[..found] + separator;
      var file := base[found + 1..];
      assert dir == base[..found + 1];
      assert base[..found + 1] + base[found + 1..] == base;
      Some(BasePath(dir, file))
  }
}
