/**
  What the HSV and HWB conversions promise: the ranges of `HSVtoRGB`, the exact round trip
  `RGB -> HSV -> RGB` on the unit cube, and the HWB round trip, which as written loses black.
 */
module HsvProperties {
  import opened Numeric
  import opened ColorSpaces
  import opened Hsl
  import opened Hsv

  /** An HSV triple of the documented ranges gives a colour whose largest channel is `V` and
      whose smallest is `V - V S`: the inverse of what `RGBtoHSV` reads off a colour. */
  lemma HsvToRgbRange(x: HSV)
    requires 0.0 <= x.h < 1.0 && InUnit(x.s) && InUnit(x.v)
    ensures MaxRGB(HSVtoRGB(x)) == x.v
    ensures MinRGB(HSVtoRGB(x)) == x.v - Chroma(x)
    ensures UnitRGB(HSVtoRGB(x))
  {
    ChromaRange(x);
    SectorOfRange(Sextant(x), Chroma(x), x.v - Chroma(x));
    UnitBetween(HSVtoRGB(x));
  }

  /** With `S` and `V` in `[0, 1]` the chroma lies between 0 and `V`. */
  lemma ChromaRange(x: HSV)
    requires InUnit(x.s) && InUnit(x.v)
    ensures 0.0 <= Chroma(x) <= x.v
  {
    UnitProduct(x.s, x.v);
    assert x.v * x.s <= x.v;
    assert Chroma(x) == x.v * x.s;
  }

  lemma UnitBetween(c: RGB)
    requires 0.0 <= MinRGB(c) && MaxRGB(c) <= 1.0
    ensures UnitRGB(c)
  {
  }

  /** The HSV triple of a non-gray colour of the unit cube, field by field. */
  lemma NonGrayHsv(c: RGB) returns (x: HSV)
    requires UnitRGB(c) && MaxRGB(c) != MinRGB(c)
    ensures RGBtoHSV(c).hsv == x
    ensures x.v == MaxRGB(c) && MaxRGB(c) > 0.0
    ensures x.s == (MaxRGB(c) - MinRGB(c)) / MaxRGB(c)
    ensures x.h == WrapDegrees(HsvHueDegrees(c, MaxRGB(c) - MinRGB(c))) / 360.0
  {
    x := RGBtoHSV(c).hsv;
  }

  /** Chroma and offset of that triple are `max - min` and `min`. */
  lemma ChromaOffset(v: real, s: real, mn: real)
    requires v > 0.0 && s == (v - mn) / v
    ensures v * s == v - mn && v - v * s == mn
  {
  }

  /** The chroma of that triple is `max - min` and its offset `min`. */
  lemma NonGrayChroma(x: HSV, mx: real, mn: real)
    requires x.v == mx && mx > 0.0 && x.s == (mx - mn) / mx
    ensures Chroma(x) == mx - mn && x.v - Chroma(x) == mn
  {
    ChromaOffset(x.v, x.s, mn);
  }

  /** Round trip: for every colour of the unit cube, `HSVtoRGB(RGBtoHSV(c))` is `c` exactly. */
  lemma HsvRoundTrip(c: RGB)
    requires UnitRGB(c)
    ensures HSVtoRGB(RGBtoHSV(c).hsv) == c
  {
    var mx, mn := MaxRGB(c), MinRGB(c);
    if mx != mn {
      var x := NonGrayHsv(c);
      NonGrayChroma(x, mx, mn);
      SectorsBackOf(c, x, mx, mn);
    } else {
      GrayBack(0.0, mx);
      assert c == RGB(mx, mx, mx);
    }
  }

  /** A triple with no saturation is the gray of its value, whatever its hue. */
  lemma GrayBack(h: real, v: real)
    ensures HSVtoRGB(HSV(h, 0.0, v)) == RGB(v, v, v)
  {
    assert v * 0.0 == 0.0;
  }

  /** `HSVtoRGB` of a triple whose chroma and offset are those of the colour and whose hue is
      the wrapped `RGBtoHSV` hue gives the colour. */
  lemma SectorsBackOf(c: RGB, x: HSV, mx: real, mn: real)
    requires mx == MaxRGB(c) && mn == MinRGB(c) && UnitRGB(c) && mx != mn
    requires x.h == WrapDegrees(HsvHueDegrees(c, mx - mn)) / 360.0
    requires Chroma(x) == mx - mn && x.v - Chroma(x) == mn
    ensures HSVtoRGB(x) == c
  {
    SectorsBack(c, Sextant(x), mx, mn);
  }

  /** A hue whose sector coordinate lies outside `[0, 6)` takes the last branch: the three
      channels are set to 0 and the offset `V - C` is still added, so the result is the gray
      `V - C`, black only when `C = V`. */
  lemma HsvOutsideSectors(x: HSV)
    requires !(0.0 <= Sextant(x) < 6.0)
    ensures HSVtoRGB(x) == RGB(x.v - Chroma(x), x.v - Chroma(x), x.v - Chroma(x))
    ensures HSVtoRGB(x) == RGB(0.0, 0.0, 0.0) <==> x.v == Chroma(x)
  {
  }

  /** For every triple with `S` and `V` in `[0, 1]`, whiteness and blackness both lie in
      `[0, 1]` and add up to at most 1. */
  lemma HwbInUnit(x: HSV)
    requires InUnit(x.s) && InUnit(x.v)
    ensures InUnit(HSVtoHWB(x).w) && InUnit(HSVtoHWB(x).b)
    ensures HSVtoHWB(x).w + HSVtoHWB(x).b <= 1.0
  {
    ChromaRange(x);
  }

  /** Whiteness is the smallest channel and blackness one minus the largest, so for a colour
      of the unit cube both lie in `[0, 1]` and add up to at most 1. */
  lemma HwbOfRgb(c: RGB)
    requires UnitRGB(c)
    ensures RGBtoHWB(c).h == RGBtoHSV(c).hsv.h
    ensures RGBtoHWB(c).w == MinRGB(c) && RGBtoHWB(c).b == 1.0 - MaxRGB(c)
    ensures InUnit(RGBtoHWB(c).w) && InUnit(RGBtoHWB(c).b)
    ensures RGBtoHWB(c).w + RGBtoHWB(c).b <= 1.0
  {
    var x := RGBtoHSV(c).hsv;
    if MaxRGB(c) > 0.0 {
      HsvSaturationInRange(c);
      WhitenessIsMin(x, MinRGB(c));
    } else {
      assert x == HSV(0.0, 0.0, 0.0);
    }
  }

  /** The whiteness of a triple read off a colour with positive maximum is its minimum. */
  lemma WhitenessIsMin(x: HSV, mn: real)
    requires x.v > 0.0 && x.s == (x.v - mn) / x.v
    ensures Whiteness(x) == mn
  {
    ChromaOffset(x.v, x.s, mn);
  }

  /** `HWBtoHSV` undoes `HSVtoHWB` whenever `V != 0`. */
  lemma HwbHsvInverse(x: HSV)
    requires x.v != 0.0
    ensures HWBtoHSV(HSVtoHWB(x)) == Some(x)
  {
    var y := HSVtoHWB(x);
    DivUnique(y.w, 1.0 - y.b, 1.0 - x.s);
  }

  /** Round trip through HWB with the corrected conversion: exact for every colour of the cube.
      With the conversion as written it fails on black only. */
  lemma HwbRoundTrip(c: RGB)
    requires UnitRGB(c)
    ensures HWBtoRGBCorrected(RGBtoHWB(c)) == c
    ensures MaxRGB(c) > 0.0 ==> HWBtoRGB(RGBtoHWB(c)) == Some(c)
    ensures MaxRGB(c) == 0.0 ==> HWBtoRGB(RGBtoHWB(c)).None?
  {
    if MaxRGB(c) > 0.0 {
      HwbRoundTripNonBlack(c);
    } else {
      assert c == RGB(0.0, 0.0, 0.0);
      BlackToHwb();
      CorrectedBlack();
    }
  }

  lemma HwbRoundTripNonBlack(c: RGB)
    requires UnitRGB(c) && MaxRGB(c) > 0.0
    ensures HWBtoRGB(RGBtoHWB(c)) == Some(c)
    ensures HWBtoRGBCorrected(RGBtoHWB(c)) == c
  {
    HsvRoundTrip(c);
    HwbHsvInverse(RGBtoHSV(c).hsv);
  }

  /** The corrected conversion takes blackness 1 back to black. */
  lemma CorrectedBlack()
    ensures HWBtoRGBCorrected(HWB(0.0, 0.0, 1.0)) == RGB(0.0, 0.0, 0.0)
  {
    GrayBack(0.0, 0.0);
  }

  /** Black has whiteness 0 and blackness 1. */
  lemma BlackToHwb()
    ensures RGBtoHWB(RGB(0.0, 0.0, 0.0)) == HWB(0.0, 0.0, 1.0)
  {
  }

  /** Counterexample: black goes to `HWB(0, 0, 1)`, which `HWBtoRGB` cannot bring back. */
  lemma HwbBlackLost()
    ensures RGBtoHWB(RGB(0.0, 0.0, 0.0)) == HWB(0.0, 0.0, 1.0)
    ensures HWBtoRGB(RGBtoHWB(RGB(0.0, 0.0, 0.0))) == None
  {
    BlackToHwb();
  }
}
