/**
  The `Angle` helpers: conversions between degrees, radians and normalised turns,
  and the distance between two angles.
 */
module Angles {
  import opened Numeric

  /** The source's `Pi` literal, exact as a real. */
  const Pi: real := 3.14159265358979323846264338328

  function DegToRad(deg: real): real { deg * (Pi / 180.0) }

  function RadToDeg(rad: real): real { (180.0 / Pi) * rad }

  /** A fraction of a full turn, in radians. */
  function NormalizedToRad(rad: real): real { rad * 2.0 * Pi }

  /** A fraction of a full turn, in degrees. */
  function NormalizedToDeg(rad: real): real { rad * 360.0 }

  lemma DegRadRoundTrip(d: real, r: real)
    ensures RadToDeg(DegToRad(d)) == d
    ensures DegToRad(RadToDeg(r)) == r
  {
    assert (Pi / 180.0) * (180.0 / Pi) == 1.0;
  }

  /** A normalised angle converts to radians the same way directly or through degrees. */
  lemma NormalizedAgree(x: real)
    ensures NormalizedToDeg(x) == 360.0 * x
    ensures NormalizedToRad(x) == 2.0 * Pi * x
    ensures NormalizedToRad(x) == DegToRad(NormalizedToDeg(x))
  {
  }

  /** `abs(a1 - a2)` as the source binds it. Only `<cmath>` is included and the call is
      unqualified, so it resolves to C's `abs(int)`: the difference is truncated toward zero
      on the way in. The result is the whole part of the distance between the two angles. */
  function IntAbsDiff(a1: real, a2: real): (r: real)
    ensures r == Trunc(Abs(a1 - a2)) as real
    ensures 0.0 <= r <= Abs(a1 - a2) < r + 1.0
  {
    Abs(Trunc(a1 - a2) as real)
  }

  /** `Pi` lies strictly between 3 and 4, so a whole number exceeds it exactly when it is at
      least 4. */
  lemma WholeAbovePi(k: int)
    ensures k as real > Pi <==> k >= 4
  {
  }

  lemma WholeFloor(k: int)
    ensures (k as real).Floor == k
  {
  }

  /** Distance between two angles in radians, as written: the distance is truncated to a
      whole number first, and past `Pi` the result is `Pi` minus that, which is negative. */
  function DifferenceRad(a1: real, a2: real): (r: real)
    ensures Abs(a1 - a2) < 4.0 ==> r == Trunc(Abs(a1 - a2)) as real && 0.0 <= r <= 3.0
    ensures Abs(a1 - a2) < 4.0 ==> Abs(a1 - a2) - 1.0 < r <= Abs(a1 - a2)
    ensures Abs(a1 - a2) >= 4.0 ==> r < 0.0 && r == Pi - Trunc(Abs(a1 - a2)) as real
  {
    var angle := IntAbsDiff(a1, a2);
    WholeAbovePi(Trunc(Abs(a1 - a2)));
    if angle > Pi then Pi - angle else angle
  }

  /** Distance between two angles in degrees, as written: a whole number of degrees, the
      truncated distance up to 180 and 360 minus it beyond. */
  function DifferenceDeg(a1: real, a2: real): (r: real)
    ensures r == r.Floor as real
    ensures Abs(a1 - a2) < 181.0 ==> r == Trunc(Abs(a1 - a2)) as real
    ensures Abs(a1 - a2) < 181.0 ==> Abs(a1 - a2) - 1.0 < r <= Abs(a1 - a2)
    ensures Abs(a1 - a2) >= 181.0 ==> r == 360.0 - Trunc(Abs(a1 - a2)) as real
  {
    var angle := IntAbsDiff(a1, a2);
    var k := Trunc(Abs(a1 - a2));
    WholeFloor(k);
    WholeFloor(360 - k);
    if angle > 180.0 then 360.0 - angle else angle
  }

  /** The radian distance with the floating absolute value and `2 Pi - angle` past `Pi`, the
      way the degree version wraps with `360 - angle`. */
  function DifferenceRadCorrected(a1: real, a2: real): real
  {
    var angle := Abs(a1 - a2);
    if angle > Pi then 2.0 * Pi - angle else angle
  }

  /** The degree distance with the floating absolute value. */
  function DifferenceDegCorrected(a1: real, a2: real): real
  {
    var angle := Abs(a1 - a2);
    if angle > 180.0 then 360.0 - angle else angle
  }

  lemma DifferenceSymmetric(a1: real, a2: real)
    ensures DifferenceRad(a1, a2) == DifferenceRad(a2, a1)
    ensures DifferenceDeg(a1, a2) == DifferenceDeg(a2, a1)
    ensures DifferenceRadCorrected(a1, a2) == DifferenceRadCorrected(a2, a1)
    ensures DifferenceDegCorrected(a1, a2) == DifferenceDegCorrected(a2, a1)
  {
    assert Abs(a1 - a2) == Abs(a2 - a1);
  }

  /** For two angles of one turn, the degree distance as written is a whole number in
      `[0, 180]`, less than one degree short of the shorter way round, or at most one degree
      over it next to 180. */
  lemma DifferenceDegRange(a1: real, a2: real)
    requires 0.0 <= a1 < 360.0 && 0.0 <= a2 < 360.0
    ensures 0.0 <= DifferenceDeg(a1, a2) <= 180.0
    ensures DifferenceDeg(a1, a2) == DifferenceDeg(a1, a2).Floor as real
    ensures Abs(DifferenceDeg(a1, a2) - DifferenceDegCorrected(a1, a2)) < 1.0
  {
    var d, k := Abs(a1 - a2), Trunc(Abs(a1 - a2));
    assert k as real <= d < k as real + 1.0;
    assert d < 360.0;
  }

  /** For two angles of one turn, the corrected degree distance is the shorter way round. */
  lemma DifferenceDegCorrectedRange(a1: real, a2: real)
    requires 0.0 <= a1 < 360.0 && 0.0 <= a2 < 360.0
    ensures 0.0 <= DifferenceDegCorrected(a1, a2) <= 180.0
    ensures DifferenceDegCorrected(a1, a2) == Abs(a1 - a2) || DifferenceDegCorrected(a1, a2) == 360.0 - Abs(a1 - a2)
    ensures DifferenceDegCorrected(a1, a2) <= Abs(a1 - a2) && DifferenceDegCorrected(a1, a2) <= 360.0 - Abs(a1 - a2)
  {
  }

  /** Counterexample: angles half a degree apart are at distance 0 as written, since the
      truncating `abs` drops the fraction. */
  lemma DifferenceDegTruncates()
    ensures DifferenceDeg(0.5, 0.0) == 0.0
    ensures DifferenceDegCorrected(0.5, 0.0) == 0.5
    ensures DifferenceRad(0.5, 0.0) == 0.0
  {
  }

  /** The corrected radian distance is the corrected degree distance measured in radians, and
      lies in `[0, Pi]`. */
  lemma DifferenceRadCorrectedAgrees(a1: real, a2: real)
    requires 0.0 <= a1 < 2.0 * Pi && 0.0 <= a2 < 2.0 * Pi
    ensures 0.0 <= DifferenceRadCorrected(a1, a2) <= Pi
    ensures DifferenceRadCorrected(a1, a2) == DegToRad(DifferenceDegCorrected(RadToDeg(a1), RadToDeg(a2)))
  {
    var d1, d2 := RadToDeg(a1), RadToDeg(a2);
    DegRadRoundTrip(0.0, a1);
    DegRadRoundTrip(0.0, a2);
    assert d1 - d2 == (180.0 / Pi) * (a1 - a2);
    assert Abs(d1 - d2) == (180.0 / Pi) * Abs(a1 - a2);
    assert Abs(d1 - d2) > 180.0 <==> Abs(a1 - a2) > Pi;
    DegRadRoundTrip(0.0, Abs(a1 - a2));
  }

  /** Counterexample: two angles `3 Pi / 2` apart are a quarter turn apart, yet the radian
      distance as written is `Pi - 4`, negative, whereas the corrected versions give a quarter
      turn. */
  lemma DifferenceRadNegative()
    ensures DifferenceRad(0.0, 1.5 * Pi) == Pi - 4.0 && DifferenceRad(0.0, 1.5 * Pi) < 0.0
    ensures DifferenceRadCorrected(0.0, 1.5 * Pi) == 0.5 * Pi
    ensures DifferenceDegCorrected(0.0, 270.0) == 90.0
    ensures DifferenceDeg(0.0, 270.0) == 90.0
  {
    assert Trunc(Abs(0.0 - 1.5 * Pi)) == 4;
  }
}
