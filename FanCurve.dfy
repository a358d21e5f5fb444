/**
 * The clamped quadratic fan curve of coolgpus and its hysteresis rule.
 *
 * For a GPU temperature t (whole degrees Celsius) the curve gives a lower
 * bound MinSpeed(t) and an upper bound MaxSpeed(t) on the fan speed (percent).
 * The lower bound rises quadratically from S_MIN at T_MIN, the upper bound
 * falls quadratically from S_MAX at T_MAX, both are clamped to
 * [S_MIN, S_MAX] and truncated to an integer. TargetSpeed keeps the current
 * speed wherever it already lies in the band and otherwise moves it to the
 * nearest end.
 *
 * The source computes with floating point; here SCALE is the exact rational
 * (S_MAX - S_MIN) / (T_MAX - T_MIN)^2 = 69/900, and truncation `int(...)` is
 * `.Floor`, which agrees with truncation because every value truncated is at
 * least S_MIN > 0.
 */
module FanCurve {

  const TMin: int := 50
  const TMax: int := 80
  const SMin: int := 30
  const SMax: int := 99

  /** (S_MAX - S_MIN) / (T_MAX - T_MIN)^2, exactly. */
  const Scale: real := (SMax - SMin) as real / ((TMax - TMin) * (TMax - TMin)) as real

  function Square(x: int): (r: nat)
  {
    x * x
  }

  function MinReal(x: real, y: real): real
  {
    if x <= y then x else y
  }

  function MaxReal(x: real, y: real): real
  {
    if x >= y then x else y
  }

  function Min(x: int, y: int): int
  {
    if x <= y then x else y
  }

  function Max(x: int, y: int): int
  {
    if x >= y then x else y
  }

  /** The rising curve S_MIN + SCALE (t - T_MIN)^2 before clamping. */
  function LowerCurve(t: int): real
  {
    Scale * Square(t - TMin) as real + SMin as real
  }

  /** The falling curve S_MAX - SCALE (t - T_MAX)^2 before clamping. */
  function UpperCurve(t: int): real
  {
    SMax as real - Scale * Square(t - TMax) as real
  }

  /** The least fan speed allowed at temperature t. */
  function MinSpeed(t: int): (r: int)
    ensures SMin <= r <= SMax
    ensures t <= TMin ==> r == SMin
    ensures t >= TMax ==> r == SMax
  {
    if t < TMin then SMin
    else
      assert t >= TMax ==> Square(t - TMin) >= Square(TMax - TMin) by {
        if t >= TMax { SquareMonotone(TMax - TMin, t - TMin); }
      }
      MinReal(LowerCurve(t), SMax as real).Floor
  }

  /** The greatest fan speed allowed at temperature t. */
  function MaxSpeed(t: int): (r: int)
    ensures SMin <= r <= SMax
    ensures t >= TMax ==> r == SMax
    ensures t <= TMin ==> r == SMin
  {
    if t > TMax then SMax
    else
      assert t <= TMin ==> Square(t - TMax) >= Square(TMax - TMin) by {
        if t <= TMin { SquareMonotone(TMax - TMin, TMax - t); }
      }
      MaxReal(UpperCurve(t), SMin as real).Floor
  }

  /** What target_speed returns: the new speed and the band it was clamped to. */
  datatype Target = Target(speed: int, low: int, high: int)

  /** The current speed s clamped into the band [MinSpeed(t), MaxSpeed(t)]. */
  function TargetSpeed(s: int, t: int): (r: Target)
    ensures r.low == MinSpeed(t) && r.high == MaxSpeed(t)
    ensures r.low <= r.speed <= r.high
    ensures r.low <= s <= r.high ==> r.speed == s
    ensures s < r.low ==> r.speed == r.low
    ensures s > r.high ==> r.speed == r.high
  {
    var l, u := MinSpeed(t), MaxSpeed(t);
    BandNonEmpty(t);
    Target(Min(Max(s, l), u), l, u)
  }

  /** Squaring is monotone on the non-negative integers. */
  lemma SquareMonotone(a: int, b: int)
    requires 0 <= a <= b
    ensures Square(a) <= Square(b)
  {
    assert a * a <= a * b by {
      assert a * (b - a) >= 0;
    }
    assert a * b <= b * b by {
      assert (b - a) * b >= 0;
    }
  }

  /** Two non-negative parts of 30 have squares summing to at most 30^2. */
  lemma SquaresOfParts(a: int, b: int)
    requires 0 <= a && 0 <= b && a + b == TMax - TMin
    ensures Square(a) + Square(b) <= Square(TMax - TMin)
  {
    assert (a + b) * (a + b) == a * a + 2 * (a * b) + b * b;
    assert a * b >= 0;
  }

  /** The band is never empty: the lower bound never exceeds the upper bound. */
  lemma BandNonEmpty(t: int)
    ensures MinSpeed(t) <= MaxSpeed(t)
  {
    if TMin <= t <= TMax {
      CurvesOrdered(t);
      FloorOfClampsOrdered(LowerCurve(t), UpperCurve(t));
    }
  }

  /** Between T_MIN and T_MAX the rising curve stays below the falling one. */
  lemma CurvesOrdered(t: int)
    requires TMin <= t <= TMax
    ensures LowerCurve(t) <= UpperCurve(t)
  {
    var a, b := t - TMin, TMax - t;
    SquaresOfParts(a, b);
    assert Square(t - TMax) == Square(b);
    assert Scale * Square(a) as real + Scale * Square(b) as real
        == Scale * (Square(a) + Square(b)) as real;
  }

  /** Clamping lo from above and hi from below keeps them ordered, and so do their floors. */
  lemma FloorOfClampsOrdered(lo: real, hi: real)
    requires lo <= hi
    ensures MinReal(lo, SMax as real).Floor <= MaxReal(hi, SMin as real).Floor
  {
    assert MinReal(lo, SMax as real) <= MaxReal(hi, SMin as real);
  }

  /** The lower bound is non-decreasing in the temperature. */
  lemma MinSpeedMonotone(t1: int, t2: int)
    requires t1 <= t2
    ensures MinSpeed(t1) <= MinSpeed(t2)
  {
    if TMin <= t1 {
      SquareMonotone(t1 - TMin, t2 - TMin);
      assert MinReal(LowerCurve(t1), SMax as real) <= MinReal(LowerCurve(t2), SMax as real);
    }
  }

  /** The upper bound is non-decreasing in the temperature. */
  lemma MaxSpeedMonotone(t1: int, t2: int)
    requires t1 <= t2
    ensures MaxSpeed(t1) <= MaxSpeed(t2)
  {
    if t2 <= TMax {
      SquareMonotone(TMax - t2, TMax - t1);
      assert Square(t1 - TMax) == Square(TMax - t1);
      assert Square(t2 - TMax) == Square(TMax - t2);
      assert MaxReal(UpperCurve(t1), SMin as real) <= MaxReal(UpperCurve(t2), SMin as real);
    }
  }

  /** Dividing a natural number by 900 as a real and flooring is integer division. */
  lemma FloorOfNinehundredth(x: nat)
    ensures (x as real / 900.0).Floor == x / 900
  {
    var q, m := x / 900, x % 900;
    assert x == 900 * q + m;
    assert x as real / 900.0 == q as real + m as real / 900.0;
  }

  /**
   * Inside [T_MIN, T_MAX] the lower bound is the integer formula
   * 30 + floor(69 (t - 50)^2 / 900): no clamp applies there.
   */
  lemma MinSpeedInRange(t: int)
    requires TMin <= t <= TMax
    ensures MinSpeed(t) == SMin + (SMax - SMin) * Square(t - TMin) / Square(TMax - TMin)
  {
    SquareMonotone(t - TMin, TMax - TMin);
    var n := 69 * Square(t - TMin);
    assert Scale * Square(t - TMin) as real == n as real / 900.0;
    FloorOfNinehundredth(n);
    assert n <= 69 * 900;
  }

  /**
   * Inside [T_MIN, T_MAX] the upper bound is the integer formula
   * 99 - ceil(69 (80 - t)^2 / 900): no clamp applies there.
   */
  lemma MaxSpeedInRange(t: int)
    requires TMin <= t <= TMax
    ensures MaxSpeed(t) == SMax - ((SMax - SMin) * Square(t - TMax) + 899) / Square(TMax - TMin)
  {
    SquareMonotone(TMax - t, TMax - TMin);
    assert Square(t - TMax) == Square(TMax - t);
    var n := 69 * Square(t - TMax);
    var k := (n + 899) / 900;
    assert n <= 69 * 900;
    // 99 - n/900 lies in (98 - k, 99 - k]: its floor is 99 - k
    assert 900 * k <= n + 899 < 900 * k + 900;
    assert Scale * Square(t - TMax) as real == n as real / 900.0;
    var v := SMax as real - n as real / 900.0;
    assert (SMax - k) as real <= v < (SMax - k + 1) as real;
  }

  /** Clamping is idempotent: a second application at the same temperature changes nothing. */
  lemma TargetSpeedIdempotent(s: int, t: int)
    ensures TargetSpeed(TargetSpeed(s, t).speed, t) == TargetSpeed(s, t)
  {
  }

  /** The clamped speed is the point of the band nearest to the current speed. */
  lemma TargetSpeedNearest(s: int, t: int, x: int)
    requires MinSpeed(t) <= x <= MaxSpeed(t)
    ensures Dist(TargetSpeed(s, t).speed, s) <= Dist(x, s)
  {
  }

  function Dist(x: int, y: int): nat
  {
    if x >= y then x - y else y - x
  }
}
