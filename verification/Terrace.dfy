/**
 The terrace transform of a noise value: snap to steps of height 1/multiplier, with a ramp
 around each step boundary whose width is set by the smoothness.
 */
module Terrace {
  import opened Geometry

  /** Rounding to the nearest integer, ties away from zero. */
  function Round(a: real): int {
    if a >= 0.0 then (a + 0.5).Floor else -((-a + 0.5).Floor)
  }

  /** The terrace of a value already scaled to steps of height one. */
  function UnitTerrace(scaled: real, smoothness: real): real
    requires 0.0 < smoothness
  {
    var rounded := Round(scaled) as real;
    var diff := rounded - scaled;
    var wide := (0.5 - AbsReal(diff)) / smoothness;
    var band := if wide > 0.5 then 0.5 else wide;
    rounded + if diff < 0.0 then 0.5 - band else band - 0.5
  }

  function ApplyTerrace(v: real, multiplier: real, smoothness: real, enabled: bool): real {
    if !enabled || multiplier == 0.0 then v
    else
      var s := Clamp01(smoothness);
      var scaled := v * multiplier;
      if s == 0.0 then Round(scaled) as real / multiplier
      else UnitTerrace(scaled, s) / multiplier
  }

  lemma RoundIsNearest(a: real)
    ensures -0.5 <= a - Round(a) as real <= 0.5
  {
  }

  lemma RoundIsMonotone(a: real, b: real)
    requires a <= b
    ensures Round(a) <= Round(b)
  {
  }

  /** Off the nearest step by `e`, the terrace has left the step by the same ramp on either side. */
  function Ramp(e: real, smoothness: real): real
    requires smoothness > 0.0
  {
    var left := 0.5 - (0.5 - e) / smoothness;
    if left > 0.0 then left else 0.0
  }

  lemma UnitTerraceIsRamp(scaled: real, smoothness: real)
    requires 0.0 < smoothness <= 1.0
    ensures var r := Round(scaled) as real;
            UnitTerrace(scaled, smoothness)
            == if scaled >= r then r + Ramp(scaled - r, smoothness) else r - Ramp(r - scaled, smoothness)
  {
    if scaled == Round(scaled) as real {
      assert 0.5 / smoothness >= 0.5;
    }
  }

  lemma {:induction false} RampBounds(e: real, s: real)
    requires 0.0 < s <= 1.0 && 0.0 <= e <= 0.5
    ensures 0.0 <= Ramp(e, s) <= 0.5
    ensures e - 0.5 * (1.0 - s) <= Ramp(e, s) <= e
    ensures e == 0.5 ==> Ramp(e, s) == 0.5
    ensures s == 1.0 ==> Ramp(e, s) == e
  {
    var q := (0.5 - e) / s;
    assert q * s == 0.5 - e;
    Unscale(0.0, q, s);
    RampSlope(q, s);
  }

  /** On the ramp, the value lags by q - q * s, at most half of 1 - s. */
  lemma RampSlope(q: real, s: real)
    requires 0.0 < s <= 1.0 && 0.0 <= q
    ensures q * s <= q
    ensures if q <= 0.5 then q - q * s <= 0.5 - 0.5 * s else 0.5 * s <= q * s
    ensures s == 1.0 ==> q * s == q
  {
    Scale(s, 1.0, q);
    if q <= 0.5 {
      RampLag(q, s);
    } else {
      Scale(0.5, q, s);
    }
  }

  lemma RampLag(q: real, s: real)
    requires s <= 1.0 && q <= 0.5
    ensures q - q * s <= 0.5 - 0.5 * s
  {
    assert (0.5 - q) * (1.0 - s) >= 0.0;
    assert (0.5 - q) * (1.0 - s) == 0.5 - q - 0.5 * s + q * s;
  }

  lemma {:induction false} RampIsMonotone(e: real, f: real, s: real)
    requires 0.0 < s && e <= f
    ensures Ramp(e, s) <= Ramp(f, s)
  {
    var q, p := (0.5 - e) / s, (0.5 - f) / s;
    assert (q - p) * s == f - e;
  }

  /** The terrace stays on the value's side of the nearest step, at most half a step away. */
  lemma {:induction false} UnitTerraceStaysAtStep(a: real, s: real)
    requires 0.0 < s <= 1.0
    ensures var r, t := Round(a) as real, UnitTerrace(a, s);
            if a >= r then r <= t <= r + 0.5 else r - 0.5 <= t <= r
  {
    UnitTerraceIsRamp(a, s);
    RoundIsNearest(a);
    RampBounds(AbsReal(a - Round(a) as real), s);
  }

  lemma {:induction false} UnitTerraceIsMonotoneAtStep(a: real, b: real, s: real)
    requires 0.0 < s <= 1.0 && a <= b && Round(a) == Round(b)
    requires a >= Round(a) as real || b < Round(b) as real
    ensures UnitTerrace(a, s) <= UnitTerrace(b, s)
  {
    var r := Round(a) as real;
    UnitTerraceIsRamp(a, s);
    UnitTerraceIsRamp(b, s);
    if a >= r {
      RampIsMonotone(a - r, b - r, s);
    } else {
      RampIsMonotone(r - b, r - a, s);
    }
  }

  lemma {:induction false} UnitTerraceIsMonotone(a: real, b: real, s: real)
    requires 0.0 < s <= 1.0 && a <= b
    ensures UnitTerrace(a, s) <= UnitTerrace(b, s)
  {
    RoundIsMonotone(a, b);
    if Round(a) == Round(b) && (a >= Round(a) as real || b < Round(b) as real) {
      UnitTerraceIsMonotoneAtStep(a, b, s);
    } else {
      UnitTerraceStaysAtStep(a, s);
      UnitTerraceStaysAtStep(b, s);
    }
  }

  lemma {:induction false} UnitTerraceIsNear(a: real, s: real)
    requires 0.0 < s <= 1.0
    ensures AbsReal(UnitTerrace(a, s) - a) <= 0.5 * (1.0 - s)
    ensures s == 1.0 ==> UnitTerrace(a, s) == a
  {
    UnitTerraceIsRamp(a, s);
    RoundIsNearest(a);
    RampBounds(AbsReal(a - Round(a) as real), s);
  }

  lemma QuotientsOrder(a: real, b: real, m: real)
    requires m != 0.0 && (if m > 0.0 then a <= b else b <= a)
    ensures a / m <= b / m
  {
    var p, q := a / m, b / m;
    assert p * m == a && q * m == b;
    assert (q - p) * m == b - a;
  }

  /** The terrace never decreases as the value grows, for either sign of the multiplier. */
  lemma {:induction false} TerraceIsMonotone(v: real, w: real, multiplier: real, smoothness: real, enabled: bool)
    requires v <= w
    ensures ApplyTerrace(v, multiplier, smoothness, enabled) <= ApplyTerrace(w, multiplier, smoothness, enabled)
  {
    if enabled && multiplier != 0.0 {
      var s := Clamp01(smoothness);
      var a, b := v * multiplier, w * multiplier;
      assert b - a == (w - v) * multiplier;
      var low, high := if multiplier > 0.0 then a else b, if multiplier > 0.0 then b else a;
      assert low <= high;
      if s == 0.0 {
        RoundIsMonotone(low, high);
        QuotientsOrder(Round(a) as real, Round(b) as real, multiplier);
      } else {
        UnitTerraceIsMonotone(low, high, s);
        QuotientsOrder(UnitTerrace(a, s), UnitTerrace(b, s), multiplier);
      }
    }
  }

  /** A disabled terrace, or one with multiplier zero, changes nothing. */
  lemma TerraceOffIsIdentity(v: real, multiplier: real, smoothness: real, enabled: bool)
    requires !enabled || multiplier == 0.0
    ensures ApplyTerrace(v, multiplier, smoothness, enabled) == v
  {
  }

  /**
   At `off` from an integer step, the terrace has left the step by `risen`: it is flat within (1 - s) / 2 of the step,
   and from there on it has slope 1/s.
   */
  predicate HasRisen(off: real, risen: real, s: real) {
    if off > 0.5 * (1.0 - s) then risen * s == off - 0.5 * (1.0 - s)
    else if off < -0.5 * (1.0 - s) then risen * s == off + 0.5 * (1.0 - s)
    else risen == 0.0
  }

  /** In steps of height one, the smooth terrace has this shape around the nearest integer `n`, up to both ties. */
  lemma {:induction false} TerraceIsExact(v: real, multiplier: real, smoothness: real, n: int)
    requires multiplier != 0.0 && smoothness > 0.0 && -0.5 <= v * multiplier - n as real <= 0.5
    ensures HasRisen(v * multiplier - n as real,
                     ApplyTerrace(v, multiplier, smoothness, true) * multiplier - n as real,
                     if smoothness > 1.0 then 1.0 else smoothness)
  {
    var s := if smoothness > 1.0 then 1.0 else smoothness;
    UnitTerraceIsExact(v * multiplier, s, n);
    TerraceIsUnit(v, multiplier, smoothness, s);
    hide UnitTerrace, ApplyTerrace, HasRisen;
  }

  lemma {:induction false} TerraceIsUnit(v: real, multiplier: real, smoothness: real, s: real)
    requires multiplier != 0.0 && smoothness > 0.0 && s == if smoothness > 1.0 then 1.0 else smoothness
    ensures ApplyTerrace(v, multiplier, smoothness, true) * multiplier == UnitTerrace(v * multiplier, s)
  {
    hide UnitTerrace;
    var t := UnitTerrace(v * multiplier, s);
    assert ApplyTerrace(v, multiplier, smoothness, true) == t / multiplier;
    assert (t / multiplier) * multiplier == t;
  }

  lemma {:induction false} UnitTerraceIsExact(a: real, s: real, n: int)
    requires 0.0 < s <= 1.0 && -0.5 <= a - n as real <= 0.5
    ensures HasRisen(a - n as real, UnitTerrace(a, s) - n as real, s)
  {
    UnitTerraceIsRamp(a, s);
    var r, off := Round(a), a - n as real;
    NearestOrTie(a, n);
    hide UnitTerrace, Round;
    RampIsExact(AbsReal(a - r as real), s);
    RampIsExact(0.5, s);
    hide Ramp;
  }

  lemma NearestOrTie(a: real, n: int)
    requires -0.5 <= a - n as real <= 0.5
    ensures Round(a) == n || (Round(a) == n + 1 && a - n as real == 0.5) || (Round(a) == n - 1 && a - n as real == -0.5)
  {
  }

  lemma {:induction false} RampIsExact(e: real, s: real)
    requires 0.0 < s <= 1.0 && 0.0 <= e <= 0.5
    ensures if e > 0.5 * (1.0 - s) then Ramp(e, s) * s == e - 0.5 * (1.0 - s) else Ramp(e, s) == 0.0
    ensures e == 0.5 ==> Ramp(e, s) == 0.5
  {
    RampBounds(e, s);
    var q := (0.5 - e) / s;
    assert q * s == 0.5 - e;
    RampIs(q, s, e);
  }

  lemma RampIs(q: real, s: real, e: real)
    requires 0.0 < s && q * s == 0.5 - e
    ensures (0.5 - q) * s == e - 0.5 * (1.0 - s)
    ensures 0.5 - q > 0.0 <==> e > 0.5 * (1.0 - s)
  {
    assert (0.5 - q) * s == 0.5 * s - q * s;
    SignOfProduct(q - 0.5, s);
  }

  /** Without smoothness the terrace is the nearest integer step; at a tie, the one away from zero. */
  lemma {:induction false} HardTerraceIsExact(v: real, multiplier: real, smoothness: real, n: int)
    requires multiplier != 0.0 && smoothness <= 0.0
    ensures var a := v * multiplier;
            ApplyTerrace(v, multiplier, smoothness, true) * multiplier == n as real <==>
              (if a >= 0.0 then -0.5 <= a - n as real < 0.5 else -0.5 < a - n as real <= 0.5)
  {
    var a := v * multiplier;
    RoundIs(a, n);
    hide Round;
    assert ApplyTerrace(v, multiplier, smoothness, true) == Round(a) as real / multiplier;
    assert (Round(a) as real / multiplier) * multiplier == Round(a) as real;
  }

  lemma RoundIs(a: real, n: int)
    ensures Round(a) == n <==> if a >= 0.0 then -0.5 <= a - n as real < 0.5 else -0.5 < a - n as real <= 0.5
  {
  }

  /** Within `bound` steps of height 1/|m|. */
  predicate IsNear(r: real, v: real, bound: real, m: real)
    requires m != 0.0
  {
    AbsReal(r - v) <= bound / AbsReal(m)
  }

  lemma {:induction false} ScaledError(u: real, v: real, m: real, bound: real)
    requires m != 0.0 && AbsReal(u - v * m) <= bound
    ensures IsNear(u / m, v, bound, m)
  {
    var e := u / m - v;
    assert (u / m) * m == u;
    assert e * m == u - v * m;
    var k := AbsReal(m);
    var q := bound / k;
    assert q * k == bound;
    assert AbsReal(e) * k <= q * k;
    Unscale(AbsReal(e), q, k);
  }

  function Step(k: int, multiplier: real): real
    requires multiplier != 0.0
  {
    k as real / multiplier
  }

  ghost predicate IsStep(r: real, multiplier: real)
    requires multiplier != 0.0
  {
    exists k: int :: r == Step(k, multiplier)
  }

  /**
   The terrace moves a value by at most (1 - s) / (2 |m|) for the clamped smoothness s, is the
   identity at s = 1, and at s = 0 is a multiple of 1/m that no other multiple is nearer than.
   */
  lemma {:induction false} TerraceIsNear(v: real, multiplier: real, smoothness: real)
    requires multiplier != 0.0
    ensures var s, r := Clamp01(smoothness), ApplyTerrace(v, multiplier, smoothness, true);
            && IsNear(r, v, 0.5 * (1.0 - s), multiplier)
            && (s == 1.0 ==> r == v)
            && (s == 0.0 ==> IsStep(r, multiplier))
  {
    hide IsNear, UnitTerrace;
    var s, scaled := Clamp01(smoothness), v * multiplier;
    if s == 0.0 {
      RoundIsNearest(scaled);
      hide Round;
      ScaledError(Round(scaled) as real, v, multiplier, 0.5);
      assert ApplyTerrace(v, multiplier, smoothness, true) == Step(Round(scaled), multiplier);
    } else {
      UnitTerraceIsNear(scaled, s);
      ScaledError(UnitTerrace(scaled, s), v, multiplier, 0.5 * (1.0 - s));
    }
  }

  /** With hard steps, no multiple of 1/m is nearer to the value than the terrace is. */
  lemma {:induction false} HardTerraceIsNearestStep(v: real, multiplier: real, smoothness: real, k: int)
    requires multiplier != 0.0 && smoothness <= 0.0
    ensures AbsReal(ApplyTerrace(v, multiplier, smoothness, true) - v) <= AbsReal(Step(k, multiplier) - v)
  {
    var scaled := v * multiplier;
    var r := Round(scaled);
    assert ApplyTerrace(v, multiplier, smoothness, true) == Step(r, multiplier);
    RoundBeats(scaled, k);
    hide Round, AbsReal, Step;
    NearerStep(r, k, v, multiplier, scaled);
  }

  lemma {:induction false} NearerStep(j: int, k: int, v: real, m: real, scaled: real)
    requires m != 0.0 && scaled == v * m && AbsReal(j as real - scaled) <= AbsReal(k as real - scaled)
    ensures AbsReal(Step(j, m) - v) <= AbsReal(Step(k, m) - v)
  {
    hide AbsReal, Step;
    StepDistance(j, v, m, scaled);
    StepDistance(k, v, m, scaled);
    SizeIsPositive(m);
    Unscale(AbsReal(Step(j, m) - v), AbsReal(Step(k, m) - v), AbsReal(m));
  }

  lemma SizeIsPositive(m: real)
    requires m != 0.0
    ensures AbsReal(m) > 0.0
  {
  }

  lemma RoundBeats(a: real, k: int)
    ensures AbsReal(Round(a) as real - a) <= AbsReal(k as real - a)
  {
    RoundIsNearest(a);
    var r := Round(a);
    assert k == r || k <= r - 1 || k >= r + 1;
    if k <= r - 1 {
      assert k as real <= r as real - 1.0;
    } else if k >= r + 1 {
      assert k as real >= r as real + 1.0;
    }
  }

  lemma {:induction false} StepDistance(k: int, v: real, m: real, scaled: real)
    requires m != 0.0 && scaled == v * m
    ensures AbsReal(Step(k, m) - v) * AbsReal(m) == AbsReal(k as real - scaled)
  {
    var e := Step(k, m) - v;
    assert Step(k, m) * m == k as real;
    assert e * m == k as real - scaled;
    assert AbsReal(e * m) == AbsReal(e) * AbsReal(m);
  }
}
