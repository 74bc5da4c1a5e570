/**
  Numeric vocabulary shared by the colour, image and palette models.

  The original works in `long double`, `float` and `int`. Here every quantity is an
  exact Dafny `real` or `int`; what the C++ arithmetic does that exact arithmetic does
  not (truncating casts, `round`, `fmod`, division by zero) is spelled out below.
 */
module Numeric {

  datatype Option<+T> = None | Some(value: T)

  /** 8-bit channel value, the `uchar` of `cv::Vec3b`. */
  newtype byte = x: int | 0 <= x < 256

  /** Result of an IEEE division `a / b`: a finite value, or what a zero divisor gives.
      The divisors met in the model are always `+0.0` when they vanish. */
  datatype Extended = Finite(v: real) | PosInf | NegInf | NaN

  function Divide(a: real, b: real): (r: Extended)
    ensures b != 0.0 ==> r == Finite(a / b)
    ensures b == 0.0 ==> (r.NaN? <==> a == 0.0) && (r.PosInf? <==> a > 0.0) && (r.NegInf? <==> a < 0.0)
  {
    if b != 0.0 then Finite(a / b)
    else if a == 0.0 then NaN
    else if a > 0.0 then PosInf
    else NegInf
  }

  function Max(a: real, b: real): real { if a < b then b else a }
  function Min(a: real, b: real): real { if b < a then b else a }

  /** `std::max(std::max(R, G), B)` */
  function Max3(a: real, b: real, c: real): (r: real)
    ensures r >= a && r >= b && r >= c
    ensures r == a || r == b || r == c
  {
    Max(Max(a, b), c)
  }

  /** `std::min(std::min(R, G), B)` */
  function Min3(a: real, b: real, c: real): (r: real)
    ensures r <= a && r <= b && r <= c
    ensures r == a || r == b || r == c
  {
    Min(Min(a, b), c)
  }

  function Abs(x: real): real { if x < 0.0 then -x else x }

  function IntMax(a: int, b: int): int { if a < b then b else a }
  function IntMin(a: int, b: int): int { if b < a then b else a }

  /** C++ conversion of a floating value to `int`: truncation toward zero. */
  function Trunc(x: real): (r: int)
    ensures Abs(r as real) <= Abs(x) < Abs(r as real) + 1.0
    ensures x >= 0.0 ==> r >= 0
    ensures x <= 0.0 ==> r <= 0
  {
    if x >= 0.0 then x.Floor else -((-x).Floor)
  }

  /** C `round`: nearest integer, halves rounded away from zero. */
  function Round(x: real): (r: int)
    ensures x >= 0.0 ==> r as real - 0.5 <= x < r as real + 0.5
    ensures x < 0.0 ==> r as real - 0.5 < x <= r as real + 0.5
  {
    if x >= 0.0 then (x + 0.5).Floor else -((-x + 0.5).Floor)
  }

  /** C `fmod(x, y)`: the remainder of the quotient truncated toward zero, that is
      `x - y * trunc(x / y)`, written as `y` times the part of `x / y` that truncation
      drops. Every call in the model divides by a positive constant. */
  function Fmod(x: real, y: real): real
    requires y > 0.0
  {
    TruncatedPart(x / y) * y
  }

  /** What truncation toward zero drops: `q - trunc(q)`. */
  function TruncatedPart(q: real): (f: real)
    ensures q >= 0.0 ==> 0.0 <= f < 1.0
    ensures q <= 0.0 ==> -1.0 < f <= 0.0
  {
    q - Trunc(q) as real
  }

  /** `Fmod` is the C definition `x - y * trunc(x / y)`. */
  lemma FmodDefinition(x: real, y: real)
    requires y > 0.0
    ensures Fmod(x, y) == x - y * (Trunc(x / y) as real)
  {
    var q := x / y;
    assert q * y == x;
  }

  /** For `x >= 0` the remainder lies in `[0, y)`. */
  lemma FmodNonNeg(x: real, y: real)
    requires y > 0.0 && x >= 0.0
    ensures 0.0 <= Fmod(x, y) < y
  {
    var q := x / y;
    assert q >= 0.0;
    var f := TruncatedPart(q);
    MulLe(0.0, f, y);
    MulLt(f, 1.0, y);
    assert 0.0 <= f * y < y;
    assert Fmod(x, y) == f * y;
  }

  /** For `x <= 0` the remainder lies in `(-y, 0]`: it keeps the sign of `x`. */
  lemma FmodNonPos(x: real, y: real)
    requires y > 0.0 && x <= 0.0
    ensures -y < Fmod(x, y) <= 0.0
  {
    var q := x / y;
    assert q <= 0.0;
    var f := TruncatedPart(q);
    MulLe(f, 0.0, y);
    MulLt(-1.0, f, y);
    assert -y < f * y <= 0.0;
    assert Fmod(x, y) == f * y;
  }

  lemma MulLe(a: real, b: real, c: real)
    requires c > 0.0 && a <= b
    ensures a * c <= b * c
  {
  }

  lemma MulLt(a: real, b: real, c: real)
    requires c > 0.0 && a < b
    ensures a * c < b * c
  {
  }

  lemma MulCancelLt(a: real, b: real, c: real)
    requires c > 0.0 && a * c < b * c
    ensures a < b
  {
    if a >= b {
      MulLe(b, a, c);
    }
  }

  lemma MulCancelLe(a: real, b: real, c: real)
    requires c > 0.0 && a * c <= b * c
    ensures a <= b
  {
    if a > b {
      MulLt(b, a, c);
    }
  }

  /** A fraction of a non-negative quantity lies between zero and that quantity. */
  lemma UnitProduct(f: real, q: real)
    requires 0.0 <= f <= 1.0 && q >= 0.0
    ensures 0.0 <= q * f <= q && 0.0 <= f * q <= q
  {
    if q > 0.0 {
      MulLe(f, 1.0, q);
      MulLe(0.0, f, q);
    }
  }

  /** The sign of a quotient `t = (x - y) / d` with `d > 0`, given as `t * d == x - y`. */
  lemma ProductSign(t: real, d: real, x: real, y: real)
    requires d > 0.0 && t * d == x - y
    ensures t >= 0.0 <==> y <= x
    ensures t > 0.0 <==> y < x
  {
    if t >= 0.0 { MulLe(0.0, t, d); } else { MulLt(t, 0.0, d); }
    if t > 0.0 { MulLt(0.0, t, d); } else { MulLe(t, 0.0, d); }
  }

  /** A quotient whose numerator is no larger in magnitude than its positive denominator. */
  lemma RatioBounds(x: real, d: real)
    requires d > 0.0 && -d <= x <= d
    ensures -1.0 <= x / d <= 1.0
    ensures x >= 0.0 ==> x / d >= 0.0
  {
    var q := x / d;
    assert q * d == x;
    MulCancelLe(q, 1.0, d);
    MulCancelLe(-1.0, q, d);
    ProductSign(q, d, x, 0.0);
  }

  /** The quotient `x / d` as a value whose product with `d` is known. */
  lemma QuotientOf(x: real, d: real) returns (t: real)
    requires d > 0.0 && -d <= x <= d
    ensures t == x / d && t * d == x && -1.0 <= t <= 1.0
  {
    t := x / d;
    RatioBounds(x, d);
  }

  lemma FloorOf(x: real, k: int)
    requires k as real <= x < k as real + 1.0
    ensures x.Floor == k
  {
  }

  /** Within one period, `fmod` is the identity. */
  lemma FmodSmall(x: real, y: real)
    requires y > 0.0 && -y < x < y
    ensures Fmod(x, y) == x
  {
    var q := x / y;
    assert q * y == x;
    MulCancelLt(q, 1.0, y);
    MulCancelLt(-1.0, q, y);
    assert -1.0 < q < 1.0;
    FloorOf(if q >= 0.0 then q else -q, 0);
    assert Trunc(q) == 0;
    assert TruncatedPart(q) == q;
    assert Fmod(x, y) == q * y;
  }

  /** When `x / y` lies in `[k, k + 1)` for some `k >= 0`, the remainder is `x - k * y`. */
  lemma FmodShift(x: real, y: real, k: nat)
    requires y > 0.0 && (k as real) * y <= x < (k as real + 1.0) * y
    ensures Fmod(x, y) == x - (k as real) * y
  {
    var kr := k as real;
    var q := QuotientBetween(x, y, kr, kr + 1.0);
    FloorOf(q, k);
    assert Trunc(q) == k;
    assert TruncatedPart(q) == q - kr;
    assert q * y == x;
    assert Fmod(x, y) == (q - kr) * y;
  }

  /** Bounds on `x` as multiples of `y > 0` are bounds on the quotient `x / y`. */
  lemma QuotientBetween(x: real, y: real, lo: real, hi: real) returns (q: real)
    requires y > 0.0 && lo * y <= x < hi * y
    ensures q == x / y && lo <= q < hi
  {
    q := x / y;
    assert q * y == x;
    MulCancelLe(lo, q, y);
    MulCancelLt(q, hi, y);
  }

  /** The quotient `p / v` is the `q` with `q * v == p`. */
  lemma DivUnique(p: real, v: real, q: real)
    requires v != 0.0 && q * v == p
    ensures p / v == q
  {
    var k := p / v;
    assert k * v == p;
    assert (k - q) * v == 0.0;
  }

  /** Clamping of one channel into `[0, 1]`, written as the four `if`s of the source. */
  function Clamp01(x: real): (r: real)
    ensures 0.0 <= r <= 1.0
    ensures 0.0 <= x <= 1.0 ==> r == x
    ensures x > 1.0 ==> r == 1.0
    ensures x < 0.0 ==> r == 0.0
  {
    var a := if x > 1.0 then 1.0 else x;
    if a < 0.0 then 0.0 else a
  }

  /** Clamping of an `int` channel into `[0, 255]`. */
  function ClampByte(x: int): (r: byte)
    ensures 0 <= x <= 255 ==> r as int == x
    ensures x < 0 ==> r == 0
    ensures x > 255 ==> r == 255
  {
    var a := if x < 0 then 0 else x;
    if a > 255 then 255 else a as byte
  }
}
