/**
  Colour triples and the rational colour models of the conversion library:
  CMYK, CIE xyY, LMS, the spectral approximation, the wavelength table lookup,
  and the clamping tail of XYZ to sRGB. Every component is a real in the
  library's normalised ranges (`[0, 1]` unless stated).
 */
module ColorSpaces {
  import opened Numeric

  datatype RGB = RGB(r: real, g: real, b: real)
  datatype XYZ = XYZ(x: real, y: real, z: real)
  datatype CMYK = CMYK(c: real, m: real, y: real, k: real)
  datatype LMS = LMS(l: real, m: real, s: real)
  /** The `x, y` pair of CIE xyY; `Y` is the `Y` of XYZ. */
  datatype Chromaticity = Chromaticity(x: real, y: real)

  predicate InUnit(v: real) { 0.0 <= v <= 1.0 }

  predicate UnitRGB(c: RGB) { InUnit(c.r) && InUnit(c.g) && InUnit(c.b) }

  function MaxRGB(c: RGB): real { Max3(c.r, c.g, c.b) }
  function MinRGB(c: RGB): real { Min3(c.r, c.g, c.b) }

  // ---------------------------------------------------------------- CMYK

  /** `ClampCMYK`: a negative or NaN quotient becomes 0; anything else passes through. */
  function ClampCMYK(value: Extended): (r: Extended)
    ensures value.NaN? || value.NegInf? ==> r == Finite(0.0)
    ensures value.Finite? && value.v < 0.0 ==> r == Finite(0.0)
    ensures value.Finite? && value.v >= 0.0 ==> r == value
    ensures value.PosInf? ==> r == PosInf
  {
    match value
    case Finite(v) => if v < 0.0 then Finite(0.0) else value
    case NegInf => Finite(0.0)
    case NaN => Finite(0.0)
    case PosInf => PosInf
  }

  /** `RGBtoCMYK`; `None` stands for the `+inf` that survives the clamp when a channel is
      negative and the maximum is 0, the only way a component can come out non-finite. */
  function RGBtoCMYK(c: RGB): Option<CMYK>
  {
    var k := ClampCMYK(Finite(1.0 - MaxRGB(c))).v;
    var cc, mm, yy := CmyOf(c.r, k), CmyOf(c.g, k), CmyOf(c.b, k);
    if cc.Finite? && mm.Finite? && yy.Finite? then Some(CMYK(cc.v, mm.v, yy.v, k)) else None
  }

  /** One of the `C`, `M`, `Y` quotients of `RGBtoCMYK`, clamped. */
  function CmyOf(v: real, k: real): Extended
  {
    ClampCMYK(Divide(1.0 - v - k, 1.0 - k))
  }

  function CMYKtoRGB(x: CMYK): (r: RGB)
    ensures UnitRGB(r)
  {
    RGB(CmyToChannel(x.c, x.k), CmyToChannel(x.m, x.k), CmyToChannel(x.y, x.k))
  }

  /** One RGB channel from its CMY component and the key. */
  function CmyToChannel(q: real, k: real): (r: real)
    ensures InUnit(r)
  {
    Clamp01((1.0 - q) * (1.0 - k))
  }

  /** One CMY channel of an in-range colour: `(max - v) / max`, or 0 for black. */
  lemma CmyChannel(v: real, mx: real, k: real)
    requires 0.0 <= v <= mx <= 1.0 && k == 1.0 - mx
    ensures CmyOf(v, k).Finite?
    ensures InUnit(CmyOf(v, k).v) && CmyToChannel(CmyOf(v, k).v, k) == v
  {
    if mx == 0.0 {
      assert 1.0 - v - k == 0.0;
    } else {
      var q := (mx - v) / mx;
      assert 1.0 - v - k == mx - v && 1.0 - k == mx;
      assert q * mx == mx - v;
      assert 0.0 <= q <= 1.0;
      assert (1.0 - q) * mx == mx - q * mx;
    }
  }

  /** For every colour of the unit cube, CMYK conversion succeeds, stays in range and is undone exactly. */
  lemma CMYKRoundTrip(c: RGB)
    requires UnitRGB(c)
    ensures RGBtoCMYK(c).Some?
    ensures var x := RGBtoCMYK(c).value;
            InUnit(x.c) && InUnit(x.m) && InUnit(x.y) && InUnit(x.k) && CMYKtoRGB(x) == c
  {
    var mx := MaxRGB(c);
    var k := 1.0 - mx;
    assert ClampCMYK(Finite(1.0 - mx)).v == k;
    var cc, mm, yy := CmyOf(c.r, k), CmyOf(c.g, k), CmyOf(c.b, k);
    CmyChannel(c.r, mx, k);
    CmyChannel(c.g, mx, k);
    CmyChannel(c.b, mx, k);
    var x := RGBtoCMYK(c).value;
    assert x.c == cc.v && x.m == mm.v && x.y == yy.v && x.k == k;
    var back := CMYKtoRGB(x);
    assert back == RGB(CmyToChannel(cc.v, k), CmyToChannel(mm.v, k), CmyToChannel(yy.v, k));
  }

  /** Black takes the divide-by-zero guard: `K = 1`, `C = M = Y = 0`. */
  lemma CMYKBlack()
    ensures RGBtoCMYK(RGB(0.0, 0.0, 0.0)) == Some(CMYK(0.0, 0.0, 0.0, 1.0))
  {
  }

  // ---------------------------------------------------------------- CIE xyY

  /** `XYZtoxyY`. All-zero XYZ gives the D65 white point; `None` stands for the infinities of a
      zero sum with non-zero components. */
  function XYZtoxyY(c: XYZ): Option<Chromaticity>
  {
    if c.x == 0.0 && c.y == 0.0 && c.z == 0.0 then Some(Chromaticity(0.3127, 0.3290))
    else
      var sum := c.x + c.y + c.z;
      if sum == 0.0 then None else Some(Chromaticity(c.x / sum, c.y / sum))
  }

  /** `xyYtoXYZ`, returning the full triple (its `y` is the given `Y`); `None` stands for
      the division by `y == 0` when `Y` is non-zero. */
  function XyYtoXYZ(xy: Chromaticity, bigY: real): (r: Option<XYZ>)
    ensures bigY == 0.0 ==> r == Some(XYZ(0.0, 0.0, 0.0))
    ensures r.Some? ==> r.value.y == bigY
  {
    if bigY == 0.0 then Some(XYZ(0.0, bigY, 0.0))
    else if xy.y == 0.0 then None
    else Some(XYZ(xy.x * bigY / xy.y, bigY, (1.0 - xy.x - xy.y) * bigY / xy.y))
  }

  lemma XyYBlack()
    ensures XYZtoxyY(XYZ(0.0, 0.0, 0.0)) == Some(Chromaticity(0.3127, 0.3290))
  {
  }

  /** Non-negative tristimulus values always have a chromaticity. */
  lemma XyYDefined(c: XYZ)
    requires c.x >= 0.0 && c.y >= 0.0 && c.z >= 0.0
    ensures XYZtoxyY(c).Some?
    ensures var xy := XYZtoxyY(c).value; InUnit(xy.x) && InUnit(xy.y) && xy.x + xy.y <= 1.0
  {
    var s := c.x + c.y + c.z;
    if !(c.x == 0.0 && c.y == 0.0 && c.z == 0.0) {
      assert s > 0.0;
      assert (c.x + c.y) / s <= 1.0;
      assert c.x / s + c.y / s == (c.x + c.y) / s;
    }
  }

  /** xyY round trip: with a non-zero sum and `Y != 0`, the chromaticity and `Y` give back `X` and `Z`. */
  lemma XyYRoundTrip(c: XYZ)
    requires c.x + c.y + c.z != 0.0 && c.y != 0.0
    ensures XYZtoxyY(c).Some?
    ensures XyYtoXYZ(XYZtoxyY(c).value, c.y) == Some(c)
  {
    var s := c.x + c.y + c.z;
    var px, py := c.x / s, c.y / s;
    assert XYZtoxyY(c) == Some(Chromaticity(px, py));
    assert py * s == c.y && px * s == c.x;
    assert py != 0.0;
    assert c.y / py == s by {
      assert (c.y / py) * py == c.y;
      assert s * py == c.y;
    }
    assert px * c.y / py == c.x by {
      assert px * c.y / py == px * (c.y / py);
    }
    assert (1.0 - px - py) * c.y / py == c.z by {
      assert (1.0 - px - py) * c.y / py == (1.0 - px - py) * (c.y / py);
      assert (1.0 - px - py) * s == s - px * s - py * s;
    }
    var r := XyYtoXYZ(Chromaticity(px, py), c.y);
    assert r.Some?;
    assert r.value.x == px * c.y / py;
    assert r.value.z == (1.0 - px - py) * c.y / py;
    assert r.value == XYZ(r.value.x, r.value.y, r.value.z);
  }

  // ---------------------------------------------------------------- LMS

  /** `XYZtoLMS`: the CIECAM02 matrix. */
  function XYZtoLMS(c: XYZ): LMS
  {
    LMS(0.7328 * c.x + 0.4296 * c.y - 0.1624 * c.z,
        -0.7036 * c.x + 1.6975 * c.y + 0.0061 * c.z,
        0.0030 * c.x + 0.0136 * c.y + 0.9834 * c.z)
  }

  /** The LMS conversion is linear: it commutes with sums and scalings of tristimulus values. */
  lemma LMSLinear(a: XYZ, b: XYZ, t: real)
    ensures var s := XYZtoLMS(XYZ(a.x + t * b.x, a.y + t * b.y, a.z + t * b.z));
            var la, lb := XYZtoLMS(a), XYZtoLMS(b);
            s == LMS(la.l + t * lb.l, la.m + t * lb.m, la.s + t * lb.s)
  {
    assert 0.7328 * (t * b.x) == t * (0.7328 * b.x);
    assert 0.4296 * (t * b.y) == t * (0.4296 * b.y);
    assert 0.1624 * (t * b.z) == t * (0.1624 * b.z);
    assert 0.7036 * (t * b.x) == t * (0.7036 * b.x);
    assert 1.6975 * (t * b.y) == t * (1.6975 * b.y);
    assert 0.0061 * (t * b.z) == t * (0.0061 * b.z);
    assert 0.0030 * (t * b.x) == t * (0.0030 * b.x);
    assert 0.0136 * (t * b.y) == t * (0.0136 * b.y);
    assert 0.9834 * (t * b.z) == t * (0.9834 * b.z);
  }

  /** The three cone responses of the equal-energy stimulus `X = Y = Z = 1` are the matrix row sums. */
  lemma LMSRowSums()
    ensures XYZtoLMS(XYZ(1.0, 1.0, 1.0)) == LMS(1.0, 1.0, 1.0)
  {
  }

  // ---------------------------------------------------------------- Spectral colours

  function SpectralRed(w: real): real
  {
    if 400.0 <= w < 410.0 then var t := (w - 400.0) / (410.0 - 400.0); 0.33 * t - 0.20 * t * t
    else if 410.0 <= w < 475.0 then var t := (w - 410.0) / (475.0 - 410.0); 0.14 - 0.13 * t * t
    else if 545.0 <= w < 595.0 then var t := (w - 545.0) / (595.0 - 545.0); 1.98 * t - t * t
    else if 595.0 <= w < 650.0 then var t := (w - 595.0) / (650.0 - 595.0); 0.98 + 0.06 * t - 0.40 * t * t
    else if 650.0 <= w < 700.0 then var t := (w - 650.0) / (700.0 - 650.0); 0.65 - 0.84 * t + 0.20 * t * t
    else 0.0
  }

  function SpectralGreen(w: real): real
  {
    if 415.0 <= w < 475.0 then var t := (w - 415.0) / (475.0 - 415.0); 0.80 * t * t
    else if 475.0 <= w < 590.0 then var t := (w - 475.0) / (590.0 - 475.0); 0.8 + 0.76 * t - 0.80 * t * t
    else if 585.0 <= w < 639.0 then var t := (w - 585.0) / (639.0 - 585.0); 0.84 - 0.84 * t
    else 0.0
  }

  function SpectralBlue(w: real): real
  {
    if 400.0 <= w < 475.0 then var t := (w - 400.0) / (475.0 - 400.0); 2.20 * t - 1.50 * t * t
    else if 475.0 <= w < 560.0 then var t := (w - 475.0) / (560.0 - 475.0); 0.7 - t + 0.30 * t * t
    else 0.0
  }

  /** `SpectralColorToRGB`: the piecewise polynomials, each channel clamped to `[0, 1]`. */
  function SpectralColorToRGB(w: real): (r: RGB)
    ensures UnitRGB(r)
    ensures w < 400.0 || w >= 700.0 ==> r == RGB(0.0, 0.0, 0.0)
  {
    RGB(Clamp01(SpectralRed(w)), Clamp01(SpectralGreen(w)), Clamp01(SpectralBlue(w)))
  }

  /** For `t` in `[0, 1]`, `t^2` lies between `0` and `t`, and above every tangent line
      `2 a t - a^2`. */
  lemma SquareBounds(t: real, a: real)
    requires 0.0 <= t <= 1.0
    ensures 0.0 <= t * t <= t
    ensures t * t >= 2.0 * a * t - a * a
  {
    var d := t - a;
    if d >= 0.0 {
      MulMono(d, 0.0, d);
    } else {
      MulMono(-d, 0.0, -d);
      assert (-d) * (-d) == d * d;
    }
    MulMono(t, t, 1.0);
    assert t * t - (2.0 * a * t - a * a) == d * d;
  }

  /** The same bounds scaled by a non-negative coefficient, as the polynomials use them. */
  lemma ScaledSquare(t: real, a: real, c: real)
    requires 0.0 <= t <= 1.0 && c >= 0.0
    ensures 0.0 <= c * t * t <= c * t
    ensures c * t * t >= c * (2.0 * a * t - a * a)
  {
    SquareBounds(t, a);
    assert c * t * t == c * (t * t);
    MulMono(c, t * t, t);
    MulMono(c, 2.0 * a * t - a * a, t * t);
  }

  lemma MulMono(c: real, x: real, y: real)
    requires c >= 0.0 && x <= y
    ensures c * x <= c * y
  {
  }

  lemma SpectralRedInUnit(w: real)
    ensures InUnit(SpectralRed(w))
  {
    if 400.0 <= w < 410.0 {
      var t := (w - 400.0) / (410.0 - 400.0);
      ScaledSquare(t, 0.0, 0.20);
      assert SpectralRed(w) == 0.33 * t - 0.20 * t * t;
    } else if 410.0 <= w < 475.0 {
      var t := (w - 410.0) / (475.0 - 410.0);
      ScaledSquare(t, 0.0, 0.13);
      assert SpectralRed(w) == 0.14 - 0.13 * t * t;
    } else if 545.0 <= w < 595.0 {
      var t := (w - 545.0) / (595.0 - 545.0);
      ScaledSquare(t, 0.99, 1.0);
      assert SpectralRed(w) == 1.98 * t - t * t;
    } else if 595.0 <= w < 650.0 {
      var t := (w - 595.0) / (650.0 - 595.0);
      ScaledSquare(t, 0.075, 0.40);
      assert SpectralRed(w) == 0.98 + 0.06 * t - 0.40 * t * t;
    } else if 650.0 <= w < 700.0 {
      var t := (w - 650.0) / (700.0 - 650.0);
      ScaledSquare(t, 1.0, 0.20);
      assert SpectralRed(w) == 0.65 - 0.84 * t + 0.20 * t * t;
    }
  }

  lemma SpectralGreenInUnit(w: real)
    ensures InUnit(SpectralGreen(w))
  {
    if 415.0 <= w < 475.0 {
      var t := (w - 415.0) / (475.0 - 415.0);
      ScaledSquare(t, 0.0, 0.80);
      assert SpectralGreen(w) == 0.80 * t * t;
    } else if 475.0 <= w < 590.0 {
      var t := (w - 475.0) / (590.0 - 475.0);
      ScaledSquare(t, 0.475, 0.80);
      assert SpectralGreen(w) == 0.8 + 0.76 * t - 0.80 * t * t;
    }
  }

  lemma SpectralBlueInUnit(w: real)
    ensures InUnit(SpectralBlue(w))
  {
    if 400.0 <= w < 475.0 {
      var t := (w - 400.0) / (475.0 - 400.0);
      ScaledSquare(t, 0.75, 1.50);
      assert SpectralBlue(w) == 2.20 * t - 1.50 * t * t;
    } else if 475.0 <= w < 560.0 {
      var t := (w - 475.0) / (560.0 - 475.0);
      ScaledSquare(t, 1.0, 0.30);
      assert SpectralBlue(w) == 0.7 - t + 0.30 * t * t;
    }
  }

  /** At every wavelength each polynomial already lies in `[0, 1]`, so the clamps never change
      a value; and each channel is dark outside its bands: red on `[475, 545)` and outside
      `[400, 700)`, green outside `[415, 639)`, blue outside `[400, 560)`. */
  lemma SpectralUnclamped(w: real)
    ensures SpectralColorToRGB(w) == RGB(SpectralRed(w), SpectralGreen(w), SpectralBlue(w))
    ensures (475.0 <= w < 545.0 || w < 400.0 || w >= 700.0) ==> SpectralColorToRGB(w).r == 0.0
    ensures (w < 415.0 || w >= 639.0) ==> SpectralColorToRGB(w).g == 0.0
    ensures (w < 400.0 || w >= 560.0) ==> SpectralColorToRGB(w).b == 0.0
  {
    SpectralRedInUnit(w);
    SpectralGreenInUnit(w);
    SpectralBlueInUnit(w);
  }

  // ---------------------------------------------------------------- Wavelength table

  /** One row of the `wavelength_XYZ` table: an integer wavelength in nm and its XYZ. */
  datatype WavelengthRow = WavelengthRow(nm: int, xyz: XYZ)

  /** Index of the first row whose key is `key`, as the `for ... break` scan finds it. */
  function FirstRow(table: seq<WavelengthRow>, key: int): (r: Option<nat>)
    ensures r.None? <==> forall i :: 0 <= i < |table| ==> table[i].nm != key
    ensures r.Some? ==> r.value < |table| && table[r.value].nm == key
                        && forall i :: 0 <= i < r.value ==> table[i].nm != key
  {
    if |table| == 0 then None
    else if table[0].nm == key then Some(0)
    else match FirstRow(table[1..], key)
      case None => None
      case Some(i) => Some(i + 1)
  }

  /** `WavelengthToXYZ`: the first row keyed by `int(w)`, or black when there is none. */
  function WavelengthToXYZ(table: seq<WavelengthRow>, w: real): XYZ
  {
    match FirstRow(table, Trunc(w))
    case None => XYZ(0.0, 0.0, 0.0)
    case Some(n) => table[n].xyz
  }

  lemma WavelengthLookup(table: seq<WavelengthRow>, w: real)
    ensures (forall i :: 0 <= i < |table| ==> table[i].nm != Trunc(w)) ==> WavelengthToXYZ(table, w) == XYZ(0.0, 0.0, 0.0)
    ensures forall i :: 0 <= i < |table| && table[i].nm == Trunc(w) && (forall j :: 0 <= j < i ==> table[j].nm != Trunc(w))
              ==> WavelengthToXYZ(table, w) == table[i].xyz
  {
    var r := FirstRow(table, Trunc(w));
    forall i | 0 <= i < |table| && table[i].nm == Trunc(w) && (forall j :: 0 <= j < i ==> table[j].nm != Trunc(w))
      ensures WavelengthToXYZ(table, w) == table[i].xyz
    {
      assert r.Some?;
      assert r.value == i;
    }
  }

  // ---------------------------------------------------------------- XYZ to sRGB

  /** sRGB companding of one linear channel. `Root` stands for `powl(v, 1 / 2.4)`, which
      exact arithmetic cannot express; the linear segment is exact. */
  function Compand(v: real, Root: real -> real): real
  {
    if v > 0.0031308 then 1.055 * Root(v) - 0.055 else v * 12.92
  }

  /** `XYZtoRGB`: the D65 matrix, companding, then the clamp of every channel. */
  function XYZtoRGB(c: XYZ, Root: real -> real): (r: RGB)
    ensures UnitRGB(r)
  {
    var lr := c.x * 3.2404542 + c.y * -1.5371385 + c.z * -0.4985314;
    var lg := c.x * -0.9692660 + c.y * 1.8760108 + c.z * 0.0415560;
    var lb := c.x * 0.0556434 + c.y * -0.2040259 + c.z * 1.0572252;
    RGB(Clamp01(Compand(lr, Root)), Clamp01(Compand(lg, Root)), Clamp01(Compand(lb, Root)))
  }

  /** Whatever the power curve computes, black maps to black and out-of-gamut light is clipped. */
  lemma XYZtoRGBBlack(Root: real -> real)
    ensures XYZtoRGB(XYZ(0.0, 0.0, 0.0), Root) == RGB(0.0, 0.0, 0.0)
    ensures XYZtoRGB(XYZ(0.0, 0.0, -1.0), Root).b == 0.0
  {
  }
}
