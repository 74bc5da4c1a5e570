/**
  HSL, with every component in `[0, 1]`: the conversion from RGB (which also reports
  the chroma), the `HueToRGB` helper and the conversion back to RGB.
 */
module Hsl {
  import opened Numeric
  import opened ColorSpaces

  datatype HSL = HSL(h: real, s: real, l: real)

  /** What `RGBtoHSL` writes to its four out-parameters: the HSL triple and the chroma `C`. */
  datatype HslOut = HslOut(hsl: HSL, chroma: real)

  /** The hue in sixths of a turn before scaling, from the dominant channel `max`. The three
      `if`s are not chained, so when channels tie for the maximum the last test wins:
      blue over green over red. `diff` is `max - min`. */
  function HueSixths(c: RGB, diff: real): real
    requires diff != 0.0
  {
    var mx := MaxRGB(c);
    if mx == c.b then 4.0 + (c.r - c.g) / diff
    else if mx == c.g then 2.0 + (c.b - c.r) / diff
    else (c.g - c.b) / diff
  }

  /** Bringing an angle in degrees into `[0, 360)` with one add and one subtract. */
  function WrapDegrees(h: real): real
  {
    var a := if h < 0.0 then h + 360.0 else h;
    if a >= 360.0 then a - 360.0 else a
  }

  /** `RGBtoHSL`. The saturation divides by `max + min` (dark colours) or `2 - max - min`
      (light ones); `None` stands for the infinity or NaN that a zero divisor gives, which
      only inputs outside the unit cube reach. */
  function RGBtoHSL(c: RGB): (r: Option<HslOut>)
    ensures r.Some? ==> 0.0 <= r.value.hsl.h < 1.0
    ensures r.Some? ==> r.value.hsl.l == (MaxRGB(c) + MinRGB(c)) / 2.0
    ensures r.Some? ==> r.value.chroma == MaxRGB(c) - MinRGB(c)
    ensures MaxRGB(c) == MinRGB(c) ==> r == Some(HslOut(HSL(0.0, 0.0, MaxRGB(c)), 0.0))
  {
    var mx, mn := MaxRGB(c), MinRGB(c);
    var diff := mx - mn;
    var l := (mx + mn) / 2.0;
    if mx == mn then Some(HslOut(HSL(0.0, 0.0, l), diff))
    else
      var divisor := if l < 0.5 then mx + mn else 2.0 - mx - mn;
      if divisor == 0.0 then None
      else
        var sixths := HueSixths(c, diff);
        HueBounds(c, diff);
        Some(HslOut(HSL(WrapDegrees(sixths * 60.0) / 360.0, diff / divisor, l), diff))
  }

  /** Whatever the channels, the raw hue lies in `[-1, 5]`: each difference is at most `diff`. */
  lemma HueBounds(c: RGB, diff: real)
    requires diff == MaxRGB(c) - MinRGB(c) && diff > 0.0
    ensures -1.0 <= HueSixths(c, diff) <= 5.0
  {
    var mx, mn := MaxRGB(c), MinRGB(c);
    assert -diff <= c.r - c.g <= diff && -diff <= c.b - c.r <= diff && -diff <= c.g - c.b <= diff;
    RatioBounds(c.r - c.g, diff);
    RatioBounds(c.b - c.r, diff);
    RatioBounds(c.g - c.b, diff);
  }

  /** For a colour of the unit cube the saturation is in `[0, 1]`. */
  lemma SaturationInRange(c: RGB)
    requires UnitRGB(c)
    ensures RGBtoHSL(c).Some?
    ensures 0.0 <= RGBtoHSL(c).value.hsl.s <= 1.0
  {
    var mx, mn := MaxRGB(c), MinRGB(c);
    var l := (mx + mn) / 2.0;
    if mx != mn {
      var divisor := if l < 0.5 then mx + mn else 2.0 - mx - mn;
      assert 0.0 < mx - mn <= divisor;
      RatioBounds(mx - mn, divisor);
    }
  }

  /** The two `if`s that bring the hue argument of `HueToRGB` back into `[0, 1]`. */
  function HueWrap(h: real): (r: real)
    ensures -1.0 <= h <= 2.0 ==> 0.0 <= r <= 1.0
  {
    var a := if h < 0.0 then h + 1.0 else h;
    if a > 1.0 then a - 1.0 else a
  }

  /** `HueToRGB`: one channel from the two HSL intermediates and a hue shifted by a third. */
  function HueToRGB(v1: real, v2: real, h: real): real
  {
    var vh := HueWrap(h);
    if 6.0 * vh < 1.0 then v1 + (v2 - v1) * 6.0 * vh
    else if 2.0 * vh < 1.0 then v2
    else if 3.0 * vh < 2.0 then v1 + (v2 - v1) * ((2.0 / 3.0) - vh) * 6.0
    else v1
  }

  /** The trapezoid a channel follows around the hue circle, `u` in sixths of a turn:
      rising on `[0, 1)`, full on `[1, 3)`, falling on `[3, 4)`, empty from 4 on. */
  function Ramp(u: real): real
  {
    if u < 1.0 then u else if u < 3.0 then 1.0 else if u < 4.0 then 4.0 - u else 0.0
  }

  /** The point a fraction `w` of the way from `lo` to `hi`. */
  function Blend(lo: real, hi: real, w: real): real
  {
    lo + (hi - lo) * w
  }

  /** `HueToRGB` blends from `v1` to `v2` by the trapezoid of the wrapped hue. */
  lemma HueToRGBIsRamp(v1: real, v2: real, h: real)
    ensures HueToRGB(v1, v2, h) == Blend(v1, v2, Ramp(6.0 * HueWrap(h)))
  {
    var vh := HueWrap(h);
    var d := v2 - v1;
    assert d * 6.0 * vh == d * (6.0 * vh);
    assert d * ((2.0 / 3.0) - vh) * 6.0 == d * (4.0 - 6.0 * vh);
  }

  /** `HSLtoRGB`. */
  function HSLtoRGB(x: HSL): (r: RGB)
    ensures x.s == 0.0 ==> r == RGB(x.l, x.l, x.l)
  {
    if x.s == 0.0 then RGB(x.l, x.l, x.l)
    else
      HueChannelsOf(Var1(x), Var2(x), x.h)
  }

  /** `var_1 = 2 L - var_2`. */
  function Var1(x: HSL): real
  {
    2.0 * x.l - Var2(x)
  }

  /** `var_2` of `HSLtoRGB`, which depends on whether the colour is dark or light. */
  function Var2(x: HSL): real
  {
    if x.l < 0.5 then x.l * (1.0 + x.s) else (x.l + x.s) - (x.s * x.l)
  }

  /** The three `HueToRGB` calls of `HSLtoRGB`, with hues a third of a turn apart. */
  function HueChannelsOf(v1: real, v2: real, h: real): RGB
  {
    RGB(HueToRGB(v1, v2, h + 1.0 / 3.0), HueToRGB(v1, v2, h), HueToRGB(v1, v2, h - 1.0 / 3.0))
  }

  /** The two intermediates of `HSLtoRGB` are the maximum and the minimum channel of a colour
      whose `S` and `L` came from `RGBtoHSL`. */
  lemma Intermediates(x: HSL, mx: real, mn: real)
    requires 0.0 <= mn < mx <= 1.0
    requires x.l == (mx + mn) / 2.0
    requires x.s == if x.l < 0.5 then (mx - mn) / (mx + mn) else (mx - mn) / (2.0 - mx - mn)
    ensures x.s != 0.0
    ensures Var2(x) == mx && Var1(x) == mn
  {
    var l, s := x.l, x.s;
    if l < 0.5 {
      assert s * (mx + mn) == mx - mn;
      assert s * (2.0 * l) == mx - mn;
      assert l * (1.0 + s) == l + (s * (2.0 * l)) / 2.0;
    } else {
      assert s * (2.0 - mx - mn) == mx - mn;
      assert s * (2.0 - 2.0 * l) == mx - mn;
      assert (l + s) - (s * l) == l + (s * (2.0 - 2.0 * l)) / 2.0;
    }
  }

  /** One channel comes back: the minimum plus the spread times the trapezoid value `w`,
      where `w` is the channel's distance from the minimum in units of the spread. */
  lemma ChannelBack(mn: real, mx: real, w: real, x: real, y: real, t: real, ch: real)
    requires t * (mx - mn) == x - y
    requires || (w == t && ch == mn + (x - y))
             || (w == -t && ch == mn - (x - y))
             || (w == 1.0 && ch == mx)
             || (w == 0.0 && ch == mn)
    ensures Blend(mn, mx, w) == ch
  {
    var d := mx - mn;
    if w == -t {
      assert d * w == -(t * d);
    }
  }

  /** Round trip: for every colour of the unit cube, `HSLtoRGB(RGBtoHSL(c))` is `c` exactly. */
  lemma HslRoundTrip(c: RGB)
    requires UnitRGB(c)
    ensures RGBtoHSL(c).Some?
    ensures HSLtoRGB(RGBtoHSL(c).value.hsl) == c
  {
    SaturationInRange(c);
    if MaxRGB(c) != MinRGB(c) {
      var x := NonGrayHsl(c);
      NonGrayRoundTrip(c, x, MaxRGB(c), MinRGB(c));
    }
  }

  /** The round trip of a non-gray colour, from the field formulas of its HSL triple. */
  lemma NonGrayRoundTrip(c: RGB, x: HSL, mx: real, mn: real)
    requires mx == MaxRGB(c) && mn == MinRGB(c)
    requires UnitRGB(c) && mx != mn
    requires x.h == WrapDegrees(HueSixths(c, mx - mn) * 60.0) / 360.0
    requires x.l == (mx + mn) / 2.0
    requires x.s == if x.l < 0.5 then (mx - mn) / (mx + mn) else (mx - mn) / (2.0 - mx - mn)
    ensures HSLtoRGB(x) == c
  {
    Intermediates(x, mx, mn);
    var back := NonGrayBack(x, mn, mx);
    HueChannels(c, x.h, mx, mn);
    SameBlend(back, c, mn, mx, Ramp(6.0 * HueWrap(x.h + 1.0 / 3.0)), Ramp(6.0 * HueWrap(x.h)), Ramp(6.0 * HueWrap(x.h - 1.0 / 3.0)));
  }

  lemma SameBlend(back: RGB, c: RGB, mn: real, mx: real, wr: real, wg: real, wb: real)
    requires back.r == Blend(mn, mx, wr) == c.r
    requires back.g == Blend(mn, mx, wg) == c.g
    requires back.b == Blend(mn, mx, wb) == c.b
    ensures back == c
  {
  }

  /** The HSL triple of a non-gray colour of the unit cube, component by component. */
  lemma NonGrayHsl(c: RGB) returns (x: HSL)
    requires UnitRGB(c) && MaxRGB(c) != MinRGB(c)
    ensures RGBtoHSL(c).Some? && RGBtoHSL(c).value.hsl == x
    ensures var mx, mn := MaxRGB(c), MinRGB(c);
            && x.h == WrapDegrees(HueSixths(c, mx - mn) * 60.0) / 360.0
            && x.l == (mx + mn) / 2.0
            && x.s == if x.l < 0.5 then (mx - mn) / (mx + mn) else (mx - mn) / (2.0 - mx - mn)
  {
    SaturationInRange(c);
    x := RGBtoHSL(c).value.hsl;
  }

  /** With `S != 0` and intermediates `mx` and `mn`, `HSLtoRGB` is the three trapezoid blends. */
  lemma NonGrayBack(x: HSL, mn: real, mx: real) returns (back: RGB)
    requires x.s != 0.0 && Var2(x) == mx && Var1(x) == mn
    ensures back == HSLtoRGB(x)
    ensures back.r == Blend(mn, mx, Ramp(6.0 * HueWrap(x.h + 1.0 / 3.0)))
    ensures back.g == Blend(mn, mx, Ramp(6.0 * HueWrap(x.h)))
    ensures back.b == Blend(mn, mx, Ramp(6.0 * HueWrap(x.h - 1.0 / 3.0)))
  {
    back := BlendChannels(mn, mx, x.h);
  }

  lemma BlendChannels(mn: real, mx: real, h: real) returns (back: RGB)
    ensures back == HueChannelsOf(mn, mx, h)
    ensures back.r == Blend(mn, mx, Ramp(6.0 * HueWrap(h + 1.0 / 3.0)))
    ensures back.g == Blend(mn, mx, Ramp(6.0 * HueWrap(h)))
    ensures back.b == Blend(mn, mx, Ramp(6.0 * HueWrap(h - 1.0 / 3.0)))
  {
    back := HueChannelsOf(mn, mx, h);
    HueToRGBIsRamp(mn, mx, h + 1.0 / 3.0);
    HueToRGBIsRamp(mn, mx, h);
    HueToRGBIsRamp(mn, mx, h - 1.0 / 3.0);
  }

  /** The trapezoid values of the three shifted hues, case by case on the dominant channel. */
  lemma HueChannels(c: RGB, h: real, mx: real, mn: real)
    requires mx == MaxRGB(c) && mn == MinRGB(c)
    requires UnitRGB(c) && MaxRGB(c) != MinRGB(c)
    requires h == WrapDegrees(HueSixths(c, MaxRGB(c) - MinRGB(c)) * 60.0) / 360.0
    ensures && Blend(mn, mx, Ramp(6.0 * HueWrap(h + 1.0 / 3.0))) == c.r
            && Blend(mn, mx, Ramp(6.0 * HueWrap(h))) == c.g
            && Blend(mn, mx, Ramp(6.0 * HueWrap(h - 1.0 / 3.0))) == c.b
  {
    if mx == c.b {
      var t := QuotientOf(c.r - c.g, mx - mn);
      assert h == (4.0 + t) / 6.0;
      BlueDominant(mn, mx, t, c.r, c.g, h);
    } else if mx == c.g {
      GreenCase(c, h, mx, mn);
    } else {
      RedCase(c, h, mx, mn);
    }
  }

  lemma GreenCase(c: RGB, h: real, mx: real, mn: real)
    requires mx == MaxRGB(c) && mn == MinRGB(c)
    requires UnitRGB(c) && MaxRGB(c) != MinRGB(c) && MaxRGB(c) == c.g != c.b
    requires h == WrapDegrees(HueSixths(c, MaxRGB(c) - MinRGB(c)) * 60.0) / 360.0
    ensures && Blend(mn, mx, Ramp(6.0 * HueWrap(h + 1.0 / 3.0))) == c.r
            && Blend(mn, mx, Ramp(6.0 * HueWrap(h))) == c.g
            && Blend(mn, mx, Ramp(6.0 * HueWrap(h - 1.0 / 3.0))) == c.b
  {
    assert HueSixths(c, mx - mn) == 2.0 + (c.b - c.r) / (mx - mn);
    var t := QuotientOf(c.b - c.r, mx - mn);
    assert h == (2.0 + t) / 6.0;
    GreenDominant(mn, mx, t, c.r, c.b, h);
  }

  lemma RedCase(c: RGB, h: real, mx: real, mn: real)
    requires mx == MaxRGB(c) && mn == MinRGB(c)
    requires UnitRGB(c) && MaxRGB(c) != MinRGB(c) && MaxRGB(c) == c.r != c.g && c.r != c.b
    requires h == WrapDegrees(HueSixths(c, MaxRGB(c) - MinRGB(c)) * 60.0) / 360.0
    ensures && Blend(mn, mx, Ramp(6.0 * HueWrap(h + 1.0 / 3.0))) == c.r
            && Blend(mn, mx, Ramp(6.0 * HueWrap(h))) == c.g
            && Blend(mn, mx, Ramp(6.0 * HueWrap(h - 1.0 / 3.0))) == c.b
  {
    assert HueSixths(c, mx - mn) == (c.g - c.b) / (mx - mn);
    var t := QuotientOf(c.g - c.b, mx - mn);
    assert h == (if t < 0.0 then 6.0 + t else t) / 6.0;
    RedDominant(mn, mx, t, c.g, c.b, h);
  }

  /** Blue is (one of) the largest: `t = (R - G) / diff`, and the other two channels `r`, `g`. */
  lemma BlueDominant(mn: real, mx: real, t: real, r: real, g: real, h: real)
    requires mn <= r <= mx && mn <= g <= mx && (mn == r || mn == g) && mn < mx
    requires t * (mx - mn) == r - g && -1.0 <= t <= 1.0 && h == (4.0 + t) / 6.0
    ensures Blend(mn, mx, Ramp(6.0 * HueWrap(h + 1.0 / 3.0))) == r
    ensures Blend(mn, mx, Ramp(6.0 * HueWrap(h))) == g
    ensures Blend(mn, mx, Ramp(6.0 * HueWrap(h - 1.0 / 3.0))) == mx
  {
    ProductSign(t, mx - mn, r, g);
    if t > 0.0 {
      assert Ramp(6.0 * HueWrap(h + 1.0 / 3.0)) == t;
      ChannelBack(mn, mx, t, r, g, t, r);
    } else {
      assert Ramp(6.0 * HueWrap(h + 1.0 / 3.0)) == 0.0;
      ChannelBack(mn, mx, 0.0, r, g, t, r);
    }
    if t < 0.0 {
      assert Ramp(6.0 * HueWrap(h)) == -t;
      ChannelBack(mn, mx, -t, r, g, t, g);
    } else {
      assert Ramp(6.0 * HueWrap(h)) == 0.0;
      ChannelBack(mn, mx, 0.0, r, g, t, g);
    }
    assert Ramp(6.0 * HueWrap(h - 1.0 / 3.0)) == 1.0;
  }

  /** Green is the largest and blue is not: `t = (B - R) / diff`. */
  lemma GreenDominant(mn: real, mx: real, t: real, r: real, b: real, h: real)
    requires mn <= r <= mx && mn <= b < mx && (mn == r || mn == b) && mn < mx
    requires t * (mx - mn) == b - r && -1.0 <= t <= 1.0 && h == (2.0 + t) / 6.0
    ensures Blend(mn, mx, Ramp(6.0 * HueWrap(h + 1.0 / 3.0))) == r
    ensures Blend(mn, mx, Ramp(6.0 * HueWrap(h))) == mx
    ensures Blend(mn, mx, Ramp(6.0 * HueWrap(h - 1.0 / 3.0))) == b
  {
    ProductSign(t, mx - mn, b, r);
    if t < 0.0 {
      assert Ramp(6.0 * HueWrap(h + 1.0 / 3.0)) == -t;
      ChannelBack(mn, mx, -t, b, r, t, r);
    } else {
      assert Ramp(6.0 * HueWrap(h + 1.0 / 3.0)) == 0.0;
      ChannelBack(mn, mx, 0.0, b, r, t, r);
    }
    assert Ramp(6.0 * HueWrap(h)) == 1.0;
    if t >= 0.0 {
      assert Ramp(6.0 * HueWrap(h - 1.0 / 3.0)) == t;
      ChannelBack(mn, mx, t, b, r, t, b);
    } else {
      assert Ramp(6.0 * HueWrap(h - 1.0 / 3.0)) == 0.0;
      ChannelBack(mn, mx, 0.0, b, r, t, b);
    }
  }

  /** Red alone is the largest: `t = (G - B) / diff`. */
  lemma RedDominant(mn: real, mx: real, t: real, g: real, b: real, h: real)
    requires mn <= g < mx && mn <= b < mx && (mn == g || mn == b)
    requires t * (mx - mn) == g - b && -1.0 <= t <= 1.0
    requires h == (if t < 0.0 then 6.0 + t else t) / 6.0
    ensures Blend(mn, mx, Ramp(6.0 * HueWrap(h + 1.0 / 3.0))) == mx
    ensures Blend(mn, mx, Ramp(6.0 * HueWrap(h))) == g
    ensures Blend(mn, mx, Ramp(6.0 * HueWrap(h - 1.0 / 3.0))) == b
  {
    ProductSign(t, mx - mn, g, b);
    assert Ramp(6.0 * HueWrap(h + 1.0 / 3.0)) == 1.0;
    if t >= 0.0 {
      assert Ramp(6.0 * HueWrap(h)) == t;
      ChannelBack(mn, mx, t, g, b, t, g);
      assert Ramp(6.0 * HueWrap(h - 1.0 / 3.0)) == 0.0;
      ChannelBack(mn, mx, 0.0, g, b, t, b);
    } else {
      assert Ramp(6.0 * HueWrap(h)) == 0.0;
      ChannelBack(mn, mx, 0.0, g, b, t, g);
      assert Ramp(6.0 * HueWrap(h - 1.0 / 3.0)) == -t;
      ChannelBack(mn, mx, -t, g, b, t, b);
    }
  }
}
