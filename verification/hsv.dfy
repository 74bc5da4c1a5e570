/**
  HSV and HWB, with every component in `[0, 1]`: the conversion from RGB (which also
  reports the chroma), the sector-by-sector conversion back, and HWB, which is a direct
  rewriting of HSV.
 */
module Hsv {
  import opened Numeric
  import opened ColorSpaces
  import opened Hsl

  datatype HSV = HSV(h: real, s: real, v: real)

  /** What `RGBtoHSV` writes to its four out-parameters: the HSV triple and the chroma `C`. */
  datatype HsvOut = HsvOut(hsv: HSV, chroma: real)

  /** The hue in degrees before it is wrapped. Unlike the HSL version the tests are chained,
      so on a tie for the maximum red wins over green, and green over blue. */
  function HsvHueDegrees(c: RGB, diff: real): real
    requires diff > 0.0
  {
    var mx := MaxRGB(c);
    if mx == c.r then 60.0 * Fmod((c.g - c.b) / diff, 6.0)
    else if mx == c.g then 60.0 * ((c.b - c.r) / diff + 2.0)
    else 60.0 * ((c.r - c.g) / diff + 4.0)
  }

  /** Each channel difference is at most `diff`, so the unwrapped hue lies in `[-60, 300]`. */
  lemma HsvHueBounds(c: RGB, diff: real)
    requires diff == MaxRGB(c) - MinRGB(c) && diff > 0.0
    ensures -60.0 <= HsvHueDegrees(c, diff) <= 300.0
  {
    var mx := MaxRGB(c);
    if mx == c.r {
      RatioBounds(c.g - c.b, diff);
      FmodSmall((c.g - c.b) / diff, 6.0);
    } else if mx == c.g {
      RatioBounds(c.b - c.r, diff);
    } else {
      RatioBounds(c.r - c.g, diff);
    }
  }

  /** `RGBtoHSV`. The saturation divides by the maximum only when it is positive, and the
      hue only when `diff > 0`, so no input leads to a division by zero. */
  function RGBtoHSV(c: RGB): (r: HsvOut)
    ensures 0.0 <= r.hsv.h < 1.0
    ensures r.hsv.v == MaxRGB(c)
    ensures r.chroma == MaxRGB(c) - MinRGB(c)
    ensures MaxRGB(c) == MinRGB(c) ==> r.hsv == HSV(0.0, 0.0, MaxRGB(c))
  {
    var mx, mn := MaxRGB(c), MinRGB(c);
    var diff := mx - mn;
    if diff > 0.0 then
      var s := if mx > 0.0 then diff / mx else 0.0;
      HsvHueBounds(c, diff);
      HsvOut(HSV(WrapDegrees(HsvHueDegrees(c, diff)) / 360.0, s, mx), diff)
    else
      HsvOut(HSV(WrapDegrees(0.0) / 360.0, 0.0, mx), diff)
  }

  /** For a colour of the unit cube the saturation is `(max - min) / max`, in `[0, 1]`. */
  lemma HsvSaturationInRange(c: RGB)
    requires UnitRGB(c)
    ensures 0.0 <= RGBtoHSV(c).hsv.s <= 1.0
    ensures MaxRGB(c) > 0.0 ==> RGBtoHSV(c).hsv.s == (MaxRGB(c) - MinRGB(c)) / MaxRGB(c)
  {
    var mx, mn := MaxRGB(c), MinRGB(c);
    if mx > mn {
      RatioBounds(mx - mn, mx);
    }
  }

  /** `1 - |fmod(h', 2) - 1|`: the triangle wave that rises from 0 to 1 and falls back over
      every two sixths of a turn. */
  function Zigzag(hp: real): real
  {
    1.0 - Abs(Fmod(hp, 2.0) - 1.0)
  }

  /** The six branches on the sector of `h' = 6 h`, before `m` is added: the largest channel
      gets the chroma `ch`, the next one `x`, the last one 0. Outside `[0, 6)` all three are 0. */
  function SectorBase(hp: real, ch: real, x: real): RGB
  {
    if 0.0 <= hp < 1.0 then RGB(ch, x, 0.0)
    else if 1.0 <= hp < 2.0 then RGB(x, ch, 0.0)
    else if 2.0 <= hp < 3.0 then RGB(0.0, ch, x)
    else if 3.0 <= hp < 4.0 then RGB(0.0, x, ch)
    else if 4.0 <= hp < 5.0 then RGB(x, 0.0, ch)
    else if 5.0 <= hp < 6.0 then RGB(ch, 0.0, x)
    else RGB(0.0, 0.0, 0.0)
  }

  /** The sector colour for chroma `ch` and intermediate `x`, with `m` added to every channel. */
  function SectorRGB(hp: real, ch: real, x: real, m: real): RGB
  {
    var base := SectorBase(hp, ch, x);
    RGB(base.r + m, base.g + m, base.b + m)
  }

  /** The intermediate `X`: `ch` times the triangle wave. */
  function Intermediate(hp: real, ch: real): real
  {
    ch * Zigzag(hp)
  }

  /** The colour of sector `hp` for chroma `ch` and offset `m`. */
  function SectorOf(hp: real, ch: real, m: real): RGB
  {
    SectorRGB(hp, ch, Intermediate(hp, ch), m)
  }

  /** The sector coordinate `H' = H * 360 / 60`. */
  function Sextant(x: HSV): real
  {
    x.h * 360.0 / 60.0
  }

  /** The chroma `C = V S`. */
  function Chroma(x: HSV): real
  {
    x.v * x.s
  }

  /** `HSVtoRGB`: intermediate `X = C (1 - |fmod(H', 2) - 1|)` and offset `M = V - C`. */
  function HSVtoRGB(x: HSV): RGB
  {
    SectorOf(Sextant(x), Chroma(x), x.v - Chroma(x))
  }

  /** On one sector `[k, k + 1)` of `[0, 6)` the triangle wave is a straight line. */
  lemma ZigzagOnSector(hp: real, k: nat)
    requires k < 6 && k as real <= hp < k as real + 1.0
    ensures k % 2 == 0 ==> Zigzag(hp) == hp - k as real
    ensures k % 2 == 1 ==> Zigzag(hp) == k as real + 1.0 - hp
  {
    var j := k / 2;
    assert (j as real) * 2.0 <= hp < (j as real + 1.0) * 2.0;
    FmodShift(hp, 2.0, j);
  }

  /** On the rising half of a pair of sectors, `d` times the wave is `d t`. */
  lemma ZigzagRising(hp: real, k: nat, t: real, d: real)
    requires k < 6 && k % 2 == 0 && 0.0 <= t < 1.0 && hp == k as real + t
    ensures Intermediate(hp, d) == t * d
  {
    ZigzagOnSector(hp, k);
  }

  /** On the falling half, with `t` in `[-1, 0)`, `d` times the wave is `-d t`. */
  lemma ZigzagFalling(hp: real, k: nat, t: real, d: real)
    requires k < 6 && k % 2 == 1 && -1.0 <= t < 0.0 && hp == k as real + 1.0 + t
    ensures Intermediate(hp, d) == -(t * d)
  {
    ZigzagOnSector(hp, k);
  }

  /** At the odd sector boundaries the wave is at its peak. */
  lemma ZigzagPeak(hp: real, k: nat, d: real)
    requires k < 6 && k % 2 == 1 && hp == k as real
    ensures Intermediate(hp, d) == d
  {
    ZigzagOnSector(hp, k);
  }

  /** On `[0, 6)`, with `0 <= x <= ch`, the sector colour has largest channel `m + ch` and
      smallest `m`. */
  lemma SectorRange(hp: real, ch: real, x: real, m: real)
    requires 0.0 <= hp < 6.0 && 0.0 <= x <= ch
    ensures MaxRGB(SectorRGB(hp, ch, x, m)) == m + ch
    ensures MinRGB(SectorRGB(hp, ch, x, m)) == m
  {
  }

  /** The same with the intermediate of `HSVtoRGB`, which lies between 0 and the chroma. */
  lemma SectorOfRange(hp: real, ch: real, m: real)
    requires 0.0 <= hp < 6.0 && ch >= 0.0
    ensures MaxRGB(SectorOf(hp, ch, m)) == m + ch
    ensures MinRGB(SectorOf(hp, ch, m)) == m
  {
    ScaledZigzag(hp, ch);
    SectorRange(hp, ch, Intermediate(hp, ch), m);
  }

  /** On `[0, 6)` the triangle wave lies in `[0, 1]`, so `ch` times it lies in `[0, ch]`. */
  lemma ScaledZigzag(hp: real, ch: real)
    requires 0.0 <= hp < 6.0 && ch >= 0.0
    ensures 0.0 <= Intermediate(hp, ch) <= ch
  {
    ZigzagOnSector(hp, hp.Floor);
    assert 0.0 <= Zigzag(hp) <= 1.0;
    UnitProduct(Zigzag(hp), ch);
    assert 0.0 <= ch * Zigzag(hp) <= ch;
    assert Intermediate(hp, ch) == ch * Zigzag(hp);
  }

  /** Red is the largest: `t = (G - B) / diff` and `h' = t`, or `6 + t` once wrapped. The
      intermediate `x` is what the sector adds to `mn` for its middle channel. */
  lemma RedSector(mn: real, mx: real, t: real, g: real, b: real, hp: real, x: real)
    requires mn < mx && mn <= g <= mx && mn <= b <= mx && (mn == g || mn == b)
    requires t * (mx - mn) == g - b && -1.0 <= t <= 1.0
    requires hp == if t < 0.0 then 6.0 + t else t
    requires t < 0.0 ==> x == -(t * (mx - mn))
    requires 0.0 <= t < 1.0 ==> x == t * (mx - mn)
    requires t == 1.0 ==> x == mx - mn
    ensures SectorRGB(hp, mx - mn, x, mn) == RGB(mx, g, b)
  {
    ProductSign(t, mx - mn, g, b);
  }

  /** Green is the largest and red is not: `t = (B - R) / diff` and `h' = 2 + t`. */
  lemma GreenSector(mn: real, mx: real, t: real, r: real, b: real, hp: real, x: real)
    requires mn < mx && mn <= r < mx && mn <= b <= mx && (mn == r || mn == b)
    requires t * (mx - mn) == b - r && -1.0 <= t <= 1.0
    requires hp == 2.0 + t
    requires t < 0.0 ==> x == -(t * (mx - mn))
    requires 0.0 <= t < 1.0 ==> x == t * (mx - mn)
    requires t == 1.0 ==> x == mx - mn
    ensures SectorRGB(hp, mx - mn, x, mn) == RGB(r, mx, b)
  {
    ProductSign(t, mx - mn, b, r);
  }

  /** Blue alone is the largest: `t = (R - G) / diff` and `h' = 4 + t`. */
  lemma BlueSector(mn: real, mx: real, t: real, r: real, g: real, hp: real, x: real)
    requires mn < mx && mn <= r < mx && mn <= g < mx && (mn == r || mn == g)
    requires t * (mx - mn) == r - g && -1.0 <= t <= 1.0
    requires hp == 4.0 + t
    requires t < 0.0 ==> x == -(t * (mx - mn))
    requires 0.0 <= t ==> x == t * (mx - mn)
    ensures SectorRGB(hp, mx - mn, x, mn) == RGB(r, g, mx)
  {
    ProductSign(t, mx - mn, r, g);
  }

  /** The intermediate of `HSVtoRGB` on the hue `t` or `6 + t` of a red-dominant colour. */
  lemma RedBack(mn: real, mx: real, t: real, g: real, b: real, hp: real)
    requires mn < mx && mn <= g <= mx && mn <= b <= mx && (mn == g || mn == b)
    requires t * (mx - mn) == g - b && -1.0 <= t <= 1.0
    requires hp == if t < 0.0 then 6.0 + t else t
    ensures SectorOf(hp, mx - mn, mn) == RGB(mx, g, b)
  {
    if t < 0.0 {
      RedBackWrapped(mn, mx, t, g, b, hp);
    } else {
      RedBackDirect(mn, mx, t, g, b, hp);
    }
  }

  /** Red largest with `G < B`: the hue wraps round to `6 + t`. */
  lemma RedBackWrapped(mn: real, mx: real, t: real, g: real, b: real, hp: real)
    requires mn < mx && mn <= g <= mx && mn <= b <= mx && (mn == g || mn == b)
    requires t * (mx - mn) == g - b && -1.0 <= t < 0.0 && hp == 6.0 + t
    ensures SectorOf(hp, mx - mn, mn) == RGB(mx, g, b)
  {
    ZigzagFalling(hp, 5, t, mx - mn);
    RedSector(mn, mx, t, g, b, hp, Intermediate(hp, mx - mn));
  }

  /** Red largest with `G >= B`: the hue is `t` itself. */
  lemma RedBackDirect(mn: real, mx: real, t: real, g: real, b: real, hp: real)
    requires mn < mx && mn <= g <= mx && mn <= b <= mx && (mn == g || mn == b)
    requires t * (mx - mn) == g - b && 0.0 <= t <= 1.0 && hp == t
    ensures SectorOf(hp, mx - mn, mn) == RGB(mx, g, b)
  {
    if t < 1.0 {
      ZigzagRising(hp, 0, t, mx - mn);
      RedSector(mn, mx, t, g, b, hp, Intermediate(hp, mx - mn));
    } else {
      RedBackPeak(mn, mx, t, g, b, hp);
    }
  }

  /** Red largest and `G - B` the whole chroma: the boundary between the first two sectors. */
  lemma RedBackPeak(mn: real, mx: real, t: real, g: real, b: real, hp: real)
    requires mn < mx && mn <= g <= mx && mn <= b <= mx && (mn == g || mn == b)
    requires t * (mx - mn) == g - b && t == 1.0 && hp == t
    ensures SectorOf(hp, mx - mn, mn) == RGB(mx, g, b)
  {
    ZigzagPeak(hp, 1, mx - mn);
    RedSector(mn, mx, t, g, b, hp, Intermediate(hp, mx - mn));
  }

  /** Green largest, red not: the hue is `2 + t`. */
  lemma GreenBack(mn: real, mx: real, t: real, r: real, b: real, hp: real)
    requires mn < mx && mn <= r < mx && mn <= b <= mx && (mn == r || mn == b)
    requires t * (mx - mn) == b - r && -1.0 <= t <= 1.0
    requires hp == 2.0 + t
    ensures SectorOf(hp, mx - mn, mn) == RGB(r, mx, b)
  {
    if t < 0.0 {
      ZigzagFalling(hp, 1, t, mx - mn);
      GreenSector(mn, mx, t, r, b, hp, Intermediate(hp, mx - mn));
    } else {
      GreenBackRising(mn, mx, t, r, b, hp);
    }
  }

  /** Green largest with `B >= R`. */
  lemma GreenBackRising(mn: real, mx: real, t: real, r: real, b: real, hp: real)
    requires mn < mx && mn <= r < mx && mn <= b <= mx && (mn == r || mn == b)
    requires t * (mx - mn) == b - r && 0.0 <= t <= 1.0
    requires hp == 2.0 + t
    ensures SectorOf(hp, mx - mn, mn) == RGB(r, mx, b)
  {
    if t < 1.0 {
      ZigzagRising(hp, 2, t, mx - mn);
      GreenSector(mn, mx, t, r, b, hp, Intermediate(hp, mx - mn));
    } else {
      GreenBackPeak(mn, mx, t, r, b, hp);
    }
  }

  /** Green largest and `B - R` the whole chroma: the boundary between the third and fourth sectors. */
  lemma GreenBackPeak(mn: real, mx: real, t: real, r: real, b: real, hp: real)
    requires mn < mx && mn <= r < mx && mn <= b <= mx && (mn == r || mn == b)
    requires t * (mx - mn) == b - r && t == 1.0 && hp == 2.0 + t
    ensures SectorOf(hp, mx - mn, mn) == RGB(r, mx, b)
  {
    ZigzagPeak(hp, 3, mx - mn);
    GreenSector(mn, mx, t, r, b, hp, Intermediate(hp, mx - mn));
  }

  /** Blue alone largest: the hue is `4 + t`. */
  lemma BlueBack(mn: real, mx: real, t: real, r: real, g: real, hp: real)
    requires mn < mx && mn <= r < mx && mn <= g < mx && (mn == r || mn == g)
    requires t * (mx - mn) == r - g && -1.0 <= t <= 1.0
    requires hp == 4.0 + t
    ensures SectorOf(hp, mx - mn, mn) == RGB(r, g, mx)
  {
    if t < 0.0 {
      ZigzagFalling(hp, 3, t, mx - mn);
      BlueSector(mn, mx, t, r, g, hp, Intermediate(hp, mx - mn));
    } else {
      ProductSign(t, mx - mn, r, g);
      ZigzagRising(hp, 4, t, mx - mn);
      BlueSector(mn, mx, t, r, g, hp, Intermediate(hp, mx - mn));
    }
  }

  /** Red largest: the hue of `RGBtoHSV` in sixths of a turn is `t` or `6 + t`. */
  lemma RedHue(c: RGB, mx: real, mn: real) returns (t: real)
    requires mx == MaxRGB(c) && mn == MinRGB(c) && mx != mn && mx == c.r
    ensures t * (mx - mn) == c.g - c.b && -1.0 <= t <= 1.0
    ensures WrapDegrees(HsvHueDegrees(c, mx - mn)) / 360.0 * 360.0 / 60.0 == if t < 0.0 then 6.0 + t else t
  {
    t := QuotientOf(c.g - c.b, mx - mn);
    FmodSmall(t, 6.0);
  }

  /** Green largest, red not: the hue is `2 + t`. */
  lemma GreenHue(c: RGB, mx: real, mn: real) returns (t: real)
    requires mx == MaxRGB(c) && mn == MinRGB(c) && mx != mn && mx != c.r && mx == c.g
    ensures t * (mx - mn) == c.b - c.r && -1.0 <= t <= 1.0
    ensures WrapDegrees(HsvHueDegrees(c, mx - mn)) / 360.0 * 360.0 / 60.0 == 2.0 + t
  {
    t := QuotientOf(c.b - c.r, mx - mn);
  }

  /** Blue alone largest: the hue is `4 + t`. */
  lemma BlueHue(c: RGB, mx: real, mn: real) returns (t: real)
    requires mx == MaxRGB(c) && mn == MinRGB(c) && mx != mn && mx != c.r && mx != c.g
    ensures t * (mx - mn) == c.r - c.g && -1.0 <= t <= 1.0
    ensures WrapDegrees(HsvHueDegrees(c, mx - mn)) / 360.0 * 360.0 / 60.0 == 4.0 + t
  {
    t := QuotientOf(c.r - c.g, mx - mn);
  }

  /** The sector of the wrapped `RGBtoHSV` hue gives the colour back, whichever channel is largest. */
  lemma SectorsBack(c: RGB, hp: real, mx: real, mn: real)
    requires mx == MaxRGB(c) && mn == MinRGB(c) && UnitRGB(c) && mx != mn
    requires hp == WrapDegrees(HsvHueDegrees(c, mx - mn)) / 360.0 * 360.0 / 60.0
    ensures SectorOf(hp, mx - mn, mn) == c
  {
    if mx == c.r {
      var t := RedHue(c, mx, mn);
      RedBack(mn, mx, t, c.g, c.b, hp);
    } else if mx == c.g {
      var t := GreenHue(c, mx, mn);
      GreenBack(mn, mx, t, c.r, c.b, hp);
    } else {
      var t := BlueHue(c, mx, mn);
      BlueBack(mn, mx, t, c.r, c.g, hp);
    }
  }

  /** HWB: hue, whiteness, blackness. */
  datatype HWB = HWB(h: real, w: real, b: real)

  /** The whiteness `W = (1 - S) V`. */
  function Whiteness(x: HSV): real
  {
    (1.0 - x.s) * x.v
  }

  /** `HSVtoHWB`: the hue is kept, the whiteness is the offset `V - C` (the smallest channel
      of the colour) and the blackness is `1 - V` (one minus the largest), so whiteness and
      blackness leave exactly the chroma between them. */
  function HSVtoHWB(x: HSV): (r: HWB)
    ensures r.h == x.h
    ensures r.w == x.v - Chroma(x) && r.b == 1.0 - x.v
    ensures r.w + r.b + Chroma(x) == 1.0
  {
    HWB(x.h, Whiteness(x), 1.0 - x.v)
  }

  /** `RGBtoHWB`, through HSV. */
  function RGBtoHWB(c: RGB): HWB
  {
    HSVtoHWB(RGBtoHSV(c).hsv)
  }

  /** `HWBtoHSV` as written: `S = 1 - W / (1 - B)`. With `B = 1` the division is by zero and
      the saturation is infinite or NaN; `None` stands for that value. */
  function HWBtoHSV(x: HWB): (r: Option<HSV>)
    ensures r.None? <==> x.b == 1.0
    ensures r.Some? ==> r.value.h == x.h && r.value.v == 1.0 - x.b
  {
    match Divide(x.w, 1.0 - x.b)
    case Finite(q) => Some(HSV(x.h, 1.0 - q, 1.0 - x.b))
    case _ => None
  }

  /** `HWBtoRGB` as written: through `HWBtoHSV`. With a NaN or infinite saturation and
      `V = 0`, the chroma `V S` is NaN and so is every channel: no colour comes out. */
  function HWBtoRGB(x: HWB): (r: Option<RGB>)
    ensures r.None? <==> x.b == 1.0
  {
    match HWBtoHSV(x)
    case Some(hsv) => Some(HSVtoRGB(hsv))
    case None => None
  }

  /** `HWBtoHSV` with blackness 1 given its evident meaning: black, of any hue. */
  function HWBtoHSVCorrected(x: HWB): (r: HSV)
    ensures x.b != 1.0 ==> HWBtoHSV(x) == Some(r)
    ensures x.b == 1.0 ==> r.s == 0.0 && r.v == 0.0
  {
    if x.b == 1.0 then HSV(x.h, 0.0, 0.0) else HWBtoHSV(x).value
  }

  function HWBtoRGBCorrected(x: HWB): RGB
  {
    HSVtoRGB(HWBtoHSVCorrected(x))
  }

}
