/**
 `roundStep`, the step quantiser of the logSlider directive: snap a value to the
 grid `floor + k * step` with JavaScript's sign-preserving remainder, then round
 to `precision` decimals with `toFixed`.
 */
module Quantize {
  import opened Numerics

  /** The defaults of `roundStep`'s parameters. */
  const DefaultPrecision: int := 0
  const DefaultStep: real := 1.0
  const DefaultFloor: real := 0.0

  /** `toFixed` accepts 0 to 100 digits and throws a RangeError otherwise. */
  const MaxFixedDigits: int := 100

  /** `x` lies on the grid `floor + k * step`. */
  predicate OnGrid(x: real, floor: real, step: real)
    requires step != 0.0
  {
    IsInteger((x - floor) / step)
  }

  /** JavaScript `a % s`: the remainder takes the sign of the dividend and is smaller than the divisor. */
  function Rem(a: real, s: real): (r: real)
    requires s != 0.0
    ensures a >= 0.0 ==> 0.0 <= r < Abs(s)
    ensures a < 0.0 ==> -Abs(s) < r <= 0.0
    ensures IsInteger((a - r) / s)
    ensures IsInteger(a / s) <==> r == 0.0
  {
    var t := Trunc(a / s);
    RemBounds(a, s, t);
    RemExact(a, s, t);
    a - s * (t as real)
  }

  /** `a - s*t` is `s` times the fractional part `a/s - t`. */
  lemma RemFactor(a: real, s: real, t: int)
    requires s != 0.0
    ensures a - s * (t as real) == s * (a / s - (t as real))
  {
    assert s * (a / s) == a;
  }

  /** Truncation keeps `|a - s*t| < |s|` with the sign of `a`. */
  lemma RemBounds(a: real, s: real, t: int)
    requires s != 0.0 && t == Trunc(a / s)
    ensures a >= 0.0 ==> 0.0 <= a - s * (t as real) < Abs(s)
    ensures a < 0.0 ==> -Abs(s) < a - s * (t as real) <= 0.0
  {
    var d := a / s - (t as real);
    var r := a - s * (t as real);
    RemFactor(a, s, t);
    assert r == s * d;
    QuotientSign(a, s);
    if s > 0.0 {
      if a >= 0.0 {
        assert 0.0 <= d < 1.0;
        PosTimesUpper(s, d, r);
      } else {
        assert -1.0 < d <= 0.0;
        PosTimesLower(s, d, r);
      }
    } else {
      if a >= 0.0 {
        assert -1.0 < d <= 0.0;
        NegTimesLower(s, d, r);
      } else {
        assert 0.0 <= d < 1.0;
        NegTimesUpper(s, d, r);
      }
    }
  }

  lemma QuotientSign(a: real, s: real)
    requires s != 0.0
    ensures s > 0.0 ==> (a / s >= 0.0 <==> a >= 0.0)
    ensures s < 0.0 ==> (a / s <= 0.0 <==> a >= 0.0)
  {
  }

  /** A fraction of magnitude below 1 scales `s` to something of magnitude below `|s|`, keeping the signs. */
  lemma PosTimesUpper(s: real, d: real, r: real)
    requires s > 0.0 && 0.0 <= d < 1.0 && r == s * d
    ensures 0.0 <= r < Abs(s)
  {
    assert s * d < s * 1.0;
  }

  lemma PosTimesLower(s: real, d: real, r: real)
    requires s > 0.0 && -1.0 < d <= 0.0 && r == s * d
    ensures -Abs(s) < r <= 0.0
  {
    assert s * d > s * -1.0;
  }

  lemma NegTimesLower(s: real, d: real, r: real)
    requires s < 0.0 && -1.0 < d <= 0.0 && r == s * d
    ensures 0.0 <= r < Abs(s)
  {
    assert s * d < s * -1.0;
  }

  lemma NegTimesUpper(s: real, d: real, r: real)
    requires s < 0.0 && 0.0 <= d < 1.0 && r == s * d
    ensures -Abs(s) < r <= 0.0
  {
    assert s * d > s * 1.0;
  }

  /** What truncation removes is a whole number of divisors. */
  lemma RemExact(a: real, s: real, t: int)
    requires s != 0.0 && t == Trunc(a / s)
    ensures IsInteger((a - (a - s * (t as real))) / s)
    ensures IsInteger(a / s) <==> a - s * (t as real) == 0.0
  {
    var r := a - s * (t as real);
    assert a - r == s * (t as real);
    MulDivCancel(s, t as real);
    assert (a - r) / s == t as real;
    IntegerIsInteger(t);
    RemOfMultiple(a, s, t);
  }

  /** Nothing is removed exactly from a multiple of `s`. */
  lemma RemOfMultiple(a: real, s: real, t: int)
    requires s != 0.0 && t == Trunc(a / s)
    ensures IsInteger(a / s) <==> a - s * (t as real) == 0.0
  {
    var d := a / s - (t as real);
    var r := a - s * (t as real);
    RemFactor(a, s, t);
    assert r == s * d;
    if IsInteger(a / s) {
      TruncOfInteger(a / s);
      assert d == 0.0;
      assert r == 0.0;
    }
    if r == 0.0 {
      assert s * d == 0.0;
      assert d == 0.0;
      assert a / s == t as real;
      IntegerIsInteger(t);
    }
  }

  /** The grid step of `roundStep`: round to the nearer grid point, a remainder of exactly half a step going down. */
  function Stepped(value: real, step: real, floor: real): (r: real)
    requires step != 0.0
    ensures OnGrid(r, floor, step)
    ensures step > 0.0 ==> (r == value <==> OnGrid(value, floor, step))
  {
    var remainder := Rem(value - floor, step);
    SteppedOnGrid(value, step, floor, remainder);
    if remainder > step / 2.0 then value + step - remainder
    else value - remainder
  }

  /** Both candidates of `Stepped` are grid points, and for a positive step rounding up never starts from one. */
  lemma SteppedOnGrid(value: real, step: real, floor: real, remainder: real)
    requires step != 0.0 && remainder == Rem(value - floor, step)
    ensures OnGrid(value - remainder, floor, step)
    ensures OnGrid(value + step - remainder, floor, step)
    ensures step > 0.0 && remainder > step / 2.0 ==> !OnGrid(value, floor, step)
  {
    assert value - remainder - floor == (value - floor) - remainder;
    NextGridPoint(value - remainder, floor, step);
    assert value - remainder + step == value + step - remainder;
  }

  /** One step on from a grid point is a grid point. */
  lemma NextGridPoint(x: real, floor: real, step: real)
    requires step != 0.0 && OnGrid(x, floor, step)
    ensures OnGrid(x + step, floor, step)
  {
    var k := (x - floor) / step;
    DivMul(x - floor, step);
    assert x + step - floor == step * (k + 1.0);
    DivExact(x + step - floor, step, k + 1.0);
    assert (k + 1.0).Floor == k.Floor + 1;
  }

  /** `10 ** n`, the `decimals` factor of `roundStep`. */
  function Pow10(n: nat): (r: real)
    ensures r >= 1.0
  {
    if n == 0 then 1.0 else 10.0 * Pow10(n - 1)
  }

  /**
   `roundStep(value, precision, step, floor)`. An absent argument takes its
   default. `None` is the RangeError `toFixed` throws for a precision outside
   0..100. A zero step makes JavaScript's remainder NaN and is excluded.
   */
  function RoundStep(value: real, precision: Option<int>, step: Option<real>, floor: Option<real>,
                     toFixed: (real, int) -> real): (r: Option<real>)
    requires step.GetOr(DefaultStep) != 0.0
    ensures r.Some? <==> 0 <= precision.GetOr(DefaultPrecision) <= MaxFixedDigits
  {
    var prec := precision.GetOr(DefaultPrecision);
    var st := step.GetOr(DefaultStep);
    var fl := floor.GetOr(DefaultFloor);
    if prec < 0 || prec > MaxFixedDigits then None
    else
      var steppedValue := Stepped(value, st, fl);
      var roundedValue := ShiftDecimals(steppedValue, Pow10(prec));
      Some(toFixed(roundedValue, prec))
  }

  /** `x * decimals / decimals`: exact on the reals, so the value `toFixed` sees is the stepped value. */
  function ShiftDecimals(x: real, decimals: real): (r: real)
    requires decimals != 0.0
    ensures r == x
  {
    x * decimals / decimals
  }

  /** `toFixed(x, precision)` gives back every grid point unchanged, as when step and floor have at most `precision` decimals. */
  ghost predicate FixesGrid(toFixed: (real, int) -> real, precision: int, step: real, floor: real)
    requires step != 0.0
  {
    forall x :: OnGrid(x, floor, step) ==> toFixed(x, precision) == x
  }

  /** For a value at or above the floor the step rounds up exactly when the remainder passes half a step, and moves at most half a step. */
  lemma SteppedNearest(value: real, step: real, floor: real)
    requires step > 0.0 && value >= floor
    ensures Stepped(value, step, floor) > value <==> Rem(value - floor, step) > step / 2.0
    ensures Stepped(value, step, floor) >= floor
    ensures value - step / 2.0 <= Stepped(value, step, floor) <= value + step / 2.0
  {
  }

  /** A remainder of exactly half a step rounds down. */
  lemma SteppedTieRoundsDown(value: real, step: real, floor: real)
    requires step > 0.0 && Rem(value - floor, step) == step / 2.0
    ensures Stepped(value, step, floor) == value - step / 2.0
  {
  }

  /** Below the floor the remainder is negative, so the step always moves toward the floor, by up to a whole step. */
  lemma SteppedBelowFloor(value: real, step: real, floor: real)
    requires step > 0.0 && value < floor
    ensures value <= Stepped(value, step, floor) < value + step
  {
  }

  /** With a positive step, stepping is idempotent. */
  lemma SteppedIdempotent(value: real, step: real, floor: real)
    requires step > 0.0
    ensures Stepped(Stepped(value, step, floor), step, floor) == Stepped(value, step, floor)
  {
  }

  /** When `toFixed` preserves grid points, `roundStep` lands on the grid. */
  lemma RoundStepOnGrid(value: real, precision: int, step: real, floor: real, toFixed: (real, int) -> real)
    requires step != 0.0 && 0 <= precision <= MaxFixedDigits
    requires FixesGrid(toFixed, precision, step, floor)
    ensures RoundStep(value, Some(precision), Some(step), Some(floor), toFixed) == Some(Stepped(value, step, floor))
    ensures OnGrid(RoundStep(value, Some(precision), Some(step), Some(floor), toFixed).value, floor, step)
  {
    var s := Stepped(value, step, floor);
    assert toFixed(s, precision) == s;
  }

  /** When `toFixed` preserves grid points, `roundStep` is idempotent. */
  lemma RoundStepIdempotent(value: real, precision: int, step: real, floor: real, toFixed: (real, int) -> real)
    requires step > 0.0 && 0 <= precision <= MaxFixedDigits
    requires FixesGrid(toFixed, precision, step, floor)
    ensures var once := RoundStep(value, Some(precision), Some(step), Some(floor), toFixed);
            once.Some? && RoundStep(once.value, Some(precision), Some(step), Some(floor), toFixed) == once
  {
    RoundStepOnGrid(value, precision, step, floor, toFixed);
    var once := Stepped(value, step, floor);
    RoundStepOnGrid(once, precision, step, floor, toFixed);
    assert Stepped(once, step, floor) == once;
  }

  /** With every argument defaulted, `roundStep` rounds a non-negative value to the nearer integer, ties going down. */
  lemma RoundStepDefaults(value: real, toFixed: (real, int) -> real)
    requires value >= 0.0
    requires FixesGrid(toFixed, 0, 1.0, 0.0)
    ensures var r := RoundStep(value, None, None, None, toFixed);
            r.Some? && IsInteger(r.value) && value - 0.5 <= r.value <= value + 0.5
  {
    RoundStepOnGrid(value, 0, 1.0, 0.0, toFixed);
    SteppedNearest(value, 1.0, 0.0);
    assert (Stepped(value, 1.0, 0.0) - 0.0) / 1.0 == Stepped(value, 1.0, 0.0);
  }

  /** Worked values: 23 on a step of 10 goes to 20; 25 is a tie and goes down; 10 on a step of 6 goes past it to 12; -9 on a step of 10 goes up to 0. */
  lemma SteppedExamples()
    ensures Stepped(23.0, 10.0, 0.0) == 20.0
    ensures Stepped(25.0, 10.0, 0.0) == 20.0
    ensures Stepped(10.0, 6.0, 0.0) == 12.0
    ensures Stepped(-9.0, 10.0, 0.0) == 0.0
  {
    assert Trunc(23.0 / 10.0) == 2;
    assert Trunc(25.0 / 10.0) == 2;
    assert Trunc(10.0 / 6.0) == 1;
    assert Trunc(-9.0 / 10.0) == 0;
  }
}
