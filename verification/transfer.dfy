/**
 The transfer functions of the logSlider directive: pointer geometry to a
 percent, and percent to value and back under the linear and the logarithmic
 scale. The linear value-to-percent formula divides by the ceiling rather than
 by the width of the range; it is modelled as written.
 */
module Transfer {
  import opened Numerics

  /** `Math.max(Math.min(x, right), left) - left` for a track whose right edge is `left + width`. */
  function ClampOffset(x: real, left: real, width: real): (r: real)
    ensures width >= 0.0 ==> 0.0 <= r <= width
    ensures left <= x <= left + width ==> r == x - left
    ensures x <= left ==> r == 0.0
    ensures width >= 0.0 && x >= left + width ==> r == width
  {
    Max(Min(x, left + width), left) - left
  }

  /** `percentOffset`: an offset along the track as a percent of the track's width. */
  function PercentOffset(offset: real, offsetRange: real): (r: real)
    requires offsetRange != 0.0
    ensures offsetRange > 0.0 && 0.0 <= offset <= offsetRange ==> 0.0 <= r <= 100.0
    ensures r * offsetRange == offset * 100.0
    ensures offset == 0.0 ==> r == 0.0
    ensures offset == offsetRange ==> r == 100.0
  {
    offset / offsetRange * 100.0
  }

  /** `percentValue`: the linear value-to-percent map, exactly 100 at the ceiling. */
  function PercentValue(value: real, min: real, max: real): (r: Ext)
    requires value == max || value != min || max != 0.0
    ensures value == max ==> r == Fin(100.0)
    ensures r.Fin? <==> value == max || max != 0.0
    ensures value != max && value == min ==> r == Fin(0.0)
  {
    if value == max then Fin(100.0)
    else Scale(Div(value - min, max), 100.0)
  }

  /** The move handler's inline linear percent-to-value map, `minValue + valueRange * percent / 100`. */
  function LinearValue(percent: real, min: real, max: real): (r: real)
    ensures percent == 0.0 ==> r == min
    ensures percent == 100.0 ==> r == max
    ensures min <= max && 0.0 <= percent <= 100.0 ==> min <= r <= max
  {
    var share := (max - min) * percent / 100.0;
    ShareBounds(max - min, percent, share);
    min + share
  }

  /** `share` is `percent` percent of `range`: it is nothing at 0, all of it at 100, half at 50, and in between in between. */
  lemma ShareBounds(range: real, percent: real, share: real)
    requires share * 100.0 == range * percent
    ensures percent == 0.0 ==> share == 0.0
    ensures percent == 100.0 ==> share == range
    ensures percent == 50.0 ==> share + share == range
    ensures range >= 0.0 && 0.0 <= percent <= 100.0 ==> 0.0 <= share <= range
    ensures range > 0.0 && 0.0 < percent < 100.0 ==> 0.0 < share < range
  {
    if range >= 0.0 && 0.0 <= percent <= 100.0 {
      MulMonotone(range, percent, 100.0);
      MulMonotone(range, 0.0, percent);
    }
    if range > 0.0 && 0.0 < percent < 100.0 {
      MulStrict(range, percent, 100.0);
      MulStrict(range, 0.0, percent);
    }
  }

  lemma MulMonotone(a: real, b: real, c: real)
    requires a >= 0.0 && b <= c
    ensures a * b <= a * c
  {
  }

  lemma MulStrict(a: real, b: real, c: real)
    requires a > 0.0 && b < c
    ensures a * b < a * c
  {
  }

  /** `scale * percent` with `scale = range / 100` is `percent` percent of `range`. */
  lemma ScaledShare(range: real, percent: real)
    ensures (range / 100.0 * percent) * 100.0 == range * percent
  {
  }

  /** `x > 0 ? Math.log(x) : 0`, the guarded logarithm both log helpers use. */
  function LnOrZero(ln: real -> real, x: real): (y: real) {
    if x > 0.0 then ln(x) else 0.0
  }

  /**
   The logarithm `logPercentValue` exponentiates: `percent` of the way from
   `ln(floor)` (or 0) to `ln(ceiling)`, with `scale = (maxv - minv) / (maxp - minp)`
   for the percent range `minp = 0`, `maxp = 100`.
   */
  function LogExponent(percent: real, min: real, max: real, ln: real -> real): (y: real)
    ensures percent == 0.0 ==> y == LnOrZero(ln, min)
    ensures percent == 100.0 ==> y == ln(max)
    ensures LnOrZero(ln, min) <= ln(max) && 0.0 <= percent <= 100.0 ==> LnOrZero(ln, min) <= y <= ln(max)
    ensures percent == 50.0 ==> y + y == LnOrZero(ln, min) + ln(max)
  {
    var minv := LnOrZero(ln, min);
    var maxv := ln(max);
    var scale := (maxv - minv) / 100.0;
    ScaledShare(maxv - minv, percent);
    ShareBounds(maxv - minv, percent, scale * percent);
    minv + scale * percent
  }

  /** `logPercentValue`: a percent to a value on the logarithmic scale. */
  function LogPercentValue(percent: real, min: real, max: real, p: Prims): (r: real)
    ensures percent == 0.0 && min == 0.0 ==> r == 0.0
    ensures LnInvertsExp(p) && !(percent == 0.0 && min == 0.0) ==> r > 0.0
  {
    if percent == 0.0 && min == 0.0 then 0.0
    else p.exp(LogExponent(percent, min, max, p.ln))
  }

  /** Clamp a quotient into the percent range [0, 100], as `percentLogValue` does before returning. */
  function ClampPercent(e: Ext): (r: real)
    ensures 0.0 <= r <= 100.0
    ensures e.Fin? && 0.0 <= e.x <= 100.0 ==> r == e.x
    ensures e.NegInf? || (e.Fin? && e.x < 0.0) ==> r == 0.0
    ensures e.PosInf? || (e.Fin? && e.x > 100.0) ==> r == 100.0
  {
    match e
    case NegInf => 0.0
    case PosInf => 100.0
    case Fin(x) => if x < 0.0 then 0.0 else if x > 100.0 then 100.0 else x
  }

  /**
   `percentLogValue`: a value to a percent on the logarithmic scale,
   `(valuev - minv) / scale + minp` clamped to [0, 100]. The only NaN it can
   produce is `0 / 0`, when the value, the floor and the ceiling all have the
   same guarded logarithm; that case is excluded.
   */
  function PercentLogValue(value: real, min: real, max: real, ln: real -> real): (r: real)
    requires LnOrZero(ln, value) != LnOrZero(ln, min) || LnOrZero(ln, max) != LnOrZero(ln, min)
    ensures 0.0 <= r <= 100.0
    ensures value == min ==> r == 0.0
    ensures value == max && LnOrZero(ln, max) != LnOrZero(ln, min) ==> r == 100.0
  {
    var minv := LnOrZero(ln, min);
    var maxv := LnOrZero(ln, max);
    var valuev := LnOrZero(ln, value);
    var scale := (maxv - minv) / 100.0;
    var result := Div(valuev - minv, scale);
    WholeOverScale(maxv - minv);
    // `result` is `(valuev - minv) / scale + minp`, and `minp` is 0.
    ClampPercent(result)
  }

  /** The whole range divided by a hundredth of it is 100. */
  lemma WholeOverScale(range: real)
    ensures range != 0.0 ==> range / (range / 100.0) == 100.0
  {
  }

  /**
   The linear pair is a round trip from percent to value and back exactly when
   the floor is 0: `PercentValue` divides by the ceiling, not by the range.
   */
  lemma LinearRoundTripIffFloorZero(percent: real, min: real, max: real)
    requires 0.0 < percent < 100.0
    requires min < max && max != 0.0
    ensures PercentValue(LinearValue(percent, min, max), min, max) == Fin(percent) <==> min == 0.0
  {
    var share := (max - min) * percent / 100.0;
    ShareBounds(max - min, percent, share);
    var v := LinearValue(percent, min, max);
    assert v == min + share && v != max;
    var q := (v - min) / max * 100.0;
    assert PercentValue(v, min, max) == Fin(q);
    QuotientTimes(share, max, q);
    assert q * max == (max - min) * percent;
    if q == percent {
      FloorFromProducts(percent, min, max);
    }
    if min == 0.0 {
      CancelFactor(q, percent, max);
    }
  }

  /** `q = x / m * 100` satisfies `q * m = x * 100`. */
  lemma QuotientTimes(x: real, m: real, q: real)
    requires m != 0.0 && q == x / m * 100.0
    ensures q * m == x * 100.0
  {
  }

  /** `percent * max == (max - min) * percent` with a non-zero percent forces a zero floor. */
  lemma FloorFromProducts(percent: real, min: real, max: real)
    requires percent != 0.0 && percent * max == (max - min) * percent
    ensures min == 0.0
  {
    assert percent * min == 0.0;
  }

  /** A non-zero factor cancels. */
  lemma CancelFactor(a: real, b: real, m: real)
    requires m != 0.0 && a * m == b * m
    ensures a == b
  {
    assert (a - b) * m == 0.0;
  }

  /** With the floor at 0 and a positive ceiling, every value in range maps into [0, 100]. */
  lemma PercentValueInRangeFromZero(value: real, max: real)
    requires 0.0 < max && 0.0 <= value <= max
    ensures PercentValue(value, 0.0, max).Fin?
    ensures 0.0 <= PercentValue(value, 0.0, max).x <= 100.0
  {
    if value != max {
      assert value / max <= 1.0;
    }
  }

  /** A floor other than 0 shifts the value-to-percent map: the midpoint of [50, 100] shows at 25 percent, and with a negative floor a value short of the ceiling can show beyond 100 percent. */
  lemma PercentValueOffsetByFloor()
    ensures PercentValue(75.0, 50.0, 100.0) == Fin(25.0)
    ensures PercentValue(50.0, -100.0, 100.0) == Fin(150.0)
    ensures PercentValue(50.0, 50.0, 100.0) == Fin(0.0)
  {
  }

  /** On the log scale the percent endpoints give the floor and the ceiling back. */
  lemma LogPercentValueEndpoints(min: real, max: real, p: Prims)
    requires ExpInvertsLn(p)
    requires max > 0.0
    ensures min > 0.0 ==> LogPercentValue(0.0, min, max, p) == min
    ensures LogPercentValue(100.0, min, max, p) == max
  {
    assert LogExponent(100.0, min, max, p.ln) == p.ln(max);
    if min > 0.0 {
      assert LogExponent(0.0, min, max, p.ln) == p.ln(min);
    }
  }

  /** Positive floor: value to percent to value is the identity on [floor, ceiling]. */
  lemma {:induction false} LogRoundTripFromValue(value: real, min: real, max: real, p: Prims)
    requires ExpInvertsLn(p) && LnIncreasing(p)
    requires 0.0 < min < max && min <= value <= max
    ensures LogPercentValue(PercentLogValue(value, min, max, p.ln), min, max, p) == value
  {
    var minv, maxv, valuev := p.ln(min), p.ln(max), p.ln(value);
    assert minv < maxv;
    assert minv <= valuev <= maxv by {
      if value > min { assert minv < valuev; }
      if value < max { assert valuev < maxv; }
    }
    var scale := (maxv - minv) / 100.0;
    var q := (valuev - minv) / scale;
    InverseShare(maxv - minv, valuev - minv, q);
    assert PercentLogValue(value, min, max, p.ln) == q;
    assert LogExponent(q, min, max, p.ln) == valuev;
    assert p.exp(p.ln(value)) == value;
  }

  /** Dividing a part `x` of a positive range by a hundredth of the range gives a percent that scales back to `x`. */
  lemma InverseShare(range: real, x: real, q: real)
    requires range > 0.0 && 0.0 <= x <= range && q == x / (range / 100.0)
    ensures 0.0 <= q <= 100.0
    ensures range / 100.0 * q == x
  {
    var scale := range / 100.0;
    DivMul(x, scale);
    if q > 100.0 {
      MulStrict(scale, 100.0, q);
    }
  }

  /**
   Percent to value to percent is the identity on [0, 100] whenever the floor's
   guarded logarithm differs from the ceiling's, including floor 0, where
   percent 0 short-circuits, and non-positive floors.
   */
  lemma {:induction false} LogRoundTripFromPercent(percent: real, min: real, max: real, p: Prims)
    requires LnInvertsExp(p)
    requires max > 0.0 && LnOrZero(p.ln, min) != p.ln(max) && 0.0 <= percent <= 100.0
    ensures PercentLogValue(LogPercentValue(percent, min, max, p), min, max, p.ln) == percent
  {
    if percent == 0.0 && min == 0.0 {
      assert LogPercentValue(percent, min, max, p) == min;
    } else {
      var minv, maxv := LnOrZero(p.ln, min), p.ln(max);
      var scale := (maxv - minv) / 100.0;
      var y := LogExponent(percent, min, max, p.ln);
      assert y == minv + scale * percent;
      var v := LogPercentValue(percent, min, max, p);
      assert v == p.exp(y);
      assert v > 0.0 && p.ln(v) == y;
      assert LnOrZero(p.ln, v) == y && LnOrZero(p.ln, max) == maxv;
      MulDivCancel(scale, percent);
      assert (y - minv) / scale == percent;
    }
  }

  /** exp is 1 at 0 and ln is 0 at 1 when exp is positive, additive and inverted by ln. */
  lemma LnOfOne(p: Prims)
    requires LnInvertsExp(p) && ExpAdditive(p)
    ensures p.exp(0.0) == 1.0 && p.ln(1.0) == 0.0
  {
    var e := p.exp(0.0);
    assert p.exp(0.0 + 0.0) == e * e;
    assert e * e == e * 1.0;
    CancelFactor(e, 1.0, e);
    assert p.ln(p.exp(0.0)) == 0.0;
  }

  /**
   At floor 0 the log pair loses every value in (0, 1]: its logarithm is not
   positive, so its percent is clamped to 0, and percent 0 at floor 0 gives the
   value 0.
   */
  lemma LogRoundTripLosesSmallValuesAtFloorZero(value: real, max: real, p: Prims)
    requires LnInvertsExp(p) && ExpAdditive(p) && LnIncreasing(p)
    requires 0.0 < value <= 1.0 < max
    ensures PercentLogValue(value, 0.0, max, p.ln) == 0.0
    ensures LogPercentValue(PercentLogValue(value, 0.0, max, p.ln), 0.0, max, p) == 0.0 != value
  {
    LnOfOne(p);
    assert p.ln(1.0) < p.ln(max);
    assert p.ln(value) <= 0.0 by {
      if value < 1.0 { assert p.ln(value) < p.ln(1.0); }
    }
    var scale := (p.ln(max) - 0.0) / 100.0;
    assert scale > 0.0;
    NonPositiveQuotient(p.ln(value), scale);
  }

  lemma NonPositiveQuotient(x: real, s: real)
    requires x <= 0.0 && s > 0.0
    ensures x / s <= 0.0
  {
  }

  /** Positive floor: the log value of every percent in [0, 100] lies in [floor, ceiling]. */
  lemma {:induction false} LogValueWithinBounds(percent: real, min: real, max: real, p: Prims)
    requires ExpInvertsLn(p) && LnIncreasing(p) && ExpIncreasing(p)
    requires 0.0 < min <= max && 0.0 <= percent <= 100.0
    ensures min <= LogPercentValue(percent, min, max, p) <= max
  {
    var minv, maxv := p.ln(min), p.ln(max);
    assert minv <= maxv by {
      if min < max { assert minv < maxv; }
    }
    var y := LogExponent(percent, min, max, p.ln);
    assert minv <= y <= maxv;
    assert p.exp(minv) <= p.exp(y) <= p.exp(maxv);
  }

  /** Positive floor: at 50 percent the log scale gives the geometric mean of floor and ceiling. */
  lemma {:induction false} LogMidpointIsGeometricMean(min: real, max: real, p: Prims)
    requires ExpInvertsLn(p) && ExpAdditive(p)
    requires 0.0 < min && 0.0 < max
    ensures LogPercentValue(50.0, min, max, p) * LogPercentValue(50.0, min, max, p) == min * max
  {
    var minv, maxv := p.ln(min), p.ln(max);
    var y := LogExponent(50.0, min, max, p.ln);
    assert y + y == minv + maxv;
    assert p.exp(y + y) == p.exp(y) * p.exp(y);
    assert p.exp(minv + maxv) == p.exp(minv) * p.exp(maxv);
    assert p.exp(minv) == min && p.exp(maxv) == max;
  }
}
