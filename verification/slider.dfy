/**
 The state kept by one logSlider instance and the handlers that change it:
 initialisation, a pointer move with the handle-crossing rule, drag end, a
 click on the track, and the watchers of `floor`, `ceiling` and
 `ngModelLow + ngModelHigh`.

 The scope's model values are `low` (`ngModelLow` in range mode, `ngModel` in
 single mode) and `high` (`ngModelHigh`); `minValue` and `maxValue` are the
 parsed `floor` and `ceiling`. Rendering (`updateDOM`) is not modelled; a
 watcher reports only whether it redraws.
 */
module LogSlider {
  import opened Numerics
  import opened Transfer
  import opened Quantize

  /** The two handles: `minPtr` writes `low`, `maxPtr` writes `high`. */
  datatype Handle = Low | High

  /**
   The settings a run of events does not change. `range`, `exponential` and
   `maxDefault` are fixed when the directive is compiled. `step` and
   `precision` are interpolated scope bindings that every move reads afresh;
   the model holds them constant.
   */
  datatype Config = Config(
    range: bool,            // ngModelLow and ngModelHigh bound, ngModel not
    exponential: bool,      // the `exponential` attribute is present
    maxDefault: bool,       // the `max-default` attribute is present
    step: Option<real>,     // the `step` binding, absent when unset
    precision: Option<int>  // the `precision` binding, absent when unset
  )

  datatype State = State(
    cfg: Config,
    low: real,
    high: real,
    minValue: real,
    maxValue: real,
    hasBeenChanged: bool
  )

  /** The track's bounding rectangle; its right edge is `left + width`. */
  datatype Track = Track(left: real, width: real)

  /** A watcher's outcome: the new state and whether it called `updateDOM`. */
  datatype Reaction = Reaction(state: State, redraw: bool)

  /** Range mode keeps the handles ordered. */
  predicate Ordered(s: State) {
    s.cfg.range ==> s.low <= s.high
  }

  /** Everything but the handle values is the same in both states. */
  predicate SameSettings(s: State, r: State) {
    r.cfg == s.cfg && r.minValue == s.minValue && r.maxValue == s.maxValue
  }

  /** A move divides by the track's width and takes a remainder by the step; both must be non-zero to avoid NaN. */
  predicate CanMove(s: State, track: Track) {
    track.width != 0.0 && s.cfg.step.GetOr(DefaultStep) != 0.0
  }

  /**
   Linking the directive: range mode treats a model value of exactly 0 as
   unset and replaces it with the bound; single mode clamps the value into
   [floor, ceiling], testing the floor first.
   */
  function Init(cfg: Config, floor: real, ceiling: real, low: real, high: real): (s: State)
    ensures s.cfg == cfg && s.minValue == floor && s.maxValue == ceiling && !s.hasBeenChanged
    ensures cfg.range && low == 0.0 ==> s.low == floor
    ensures cfg.range && low != 0.0 ==> s.low == low
    ensures cfg.range && high == 0.0 ==> s.high == ceiling
    ensures cfg.range && high != 0.0 ==> s.high == high
    ensures !cfg.range && floor <= ceiling ==> floor <= s.low <= ceiling
    ensures !cfg.range && floor <= low <= ceiling ==> s.low == low
    ensures !cfg.range && low < floor <= ceiling ==> s.low == floor
    ensures !cfg.range && floor <= ceiling < low ==> s.low == ceiling
    ensures !cfg.range && floor > ceiling ==> s.low == ceiling
    ensures !cfg.range ==> s.high == high
  {
    if cfg.range then
      var lo := if low == 0.0 then floor else low;
      var hi := if high == 0.0 then ceiling else high;
      State(cfg, lo, hi, floor, ceiling, false)
    else
      var raised := if low < floor then floor else low;
      var lowered := if raised > ceiling then ceiling else raised;
      State(cfg, lowered, high, floor, ceiling, false)
  }

  /**
   The handle a move writes. In range mode dragging `low` above `high`
   writes `high`, and dragging `high` below `low` writes `low`; single mode
   always writes `low`. The choice is made afresh on every move.
   */
  function Target(range: bool, held: Handle, v: real, low: real, high: real): (h: Handle) {
    if !range then Low
    else if held == Low then (if v > high then High else Low)
    else (if v < low then Low else High)
  }

  /** The assignment `scope[ref] = newValue` after the crossing rule has chosen `ref`. */
  function Commit(s: State, held: Handle, v: real): (r: State)
    ensures SameSettings(s, r) && r.hasBeenChanged == s.hasBeenChanged
    ensures (r.low == v && r.high == s.high) || (r.high == v && r.low == s.low)
    ensures !s.cfg.range ==> r.low == v && r.high == s.high
    ensures s.cfg.range && held == Low ==> (if v > s.high then r.high == v && r.low == s.low else r.low == v && r.high == s.high)
    ensures s.cfg.range && held == High ==> (if v < s.low then r.low == v && r.high == s.high else r.high == v && r.low == s.low)
    ensures Ordered(s) ==> Ordered(r)
  {
    match Target(s.cfg.range, held, v, s.low, s.high)
    case Low => s.(low := v)
    case High => s.(high := v)
  }

  /** The percent of the track under the pointer, after clamping the pointer to the track. */
  function PointerPercent(x: real, track: Track): (p: real)
    requires track.width != 0.0
    ensures track.width > 0.0 ==> 0.0 <= p <= 100.0
    ensures x <= track.left ==> p == 0.0
    ensures track.width > 0.0 && x >= track.left + track.width ==> p == 100.0
  {
    PercentOffset(ClampOffset(x, track.left, track.width), track.width)
  }

  /** The value under the pointer before stepping. */
  function RawValue(s: State, x: real, track: Track, p: Prims): (v: real)
    requires track.width != 0.0
    ensures !s.cfg.exponential && track.width > 0.0 && s.minValue <= s.maxValue ==> s.minValue <= v <= s.maxValue
    ensures !s.cfg.exponential && x <= track.left ==> v == s.minValue
    ensures !s.cfg.exponential && track.width > 0.0 && x >= track.left + track.width ==> v == s.maxValue
  {
    var percent := PointerPercent(x, track);
    if s.cfg.exponential then LogPercentValue(percent, s.minValue, s.maxValue, p)
    else LinearValue(percent, s.minValue, s.maxValue)
  }

  /** `roundStep(newValue, scope.precision, scope.step, scope.floor)`; `None` when `toFixed` throws. */
  function Quantised(s: State, x: real, track: Track, p: Prims): (v: Option<real>)
    requires CanMove(s, track)
    ensures v.Some? <==> 0 <= s.cfg.precision.GetOr(DefaultPrecision) <= MaxFixedDigits
  {
    RoundStep(RawValue(s, x, track, p), s.cfg.precision, s.cfg.step, Some(s.minValue), p.toFixed)
  }

  /**
   `onMoveFunction(event, ref)` with the pointer at `x`. If `toFixed` throws,
   the handler stops before writing and the state is unchanged.
   */
  function Move(s: State, held: Handle, x: real, track: Track, p: Prims): (r: State)
    requires CanMove(s, track)
    ensures SameSettings(s, r) && r.hasBeenChanged == s.hasBeenChanged
    ensures r.low == s.low || r.high == s.high
    ensures !s.cfg.range ==> r.high == s.high
    ensures Quantised(s, x, track, p).None? ==> r == s
    ensures Quantised(s, x, track, p).Some? ==> r.low == Quantised(s, x, track, p).value || r.high == Quantised(s, x, track, p).value
    ensures var q := Quantised(s, x, track, p);
            q.Some? ==> (r.low == q.value && r.high == s.high) || (r.high == q.value && r.low == s.low)
    ensures var q := Quantised(s, x, track, p);
            q.Some? && s.cfg.range && held == Low ==>
              (if q.value > s.high then r.high == q.value && r.low == s.low else r.low == q.value && r.high == s.high)
    ensures var q := Quantised(s, x, track, p);
            q.Some? && s.cfg.range && held == High ==>
              (if q.value < s.low then r.low == q.value && r.high == s.high else r.high == q.value && r.low == s.low)
    ensures Ordered(s) ==> Ordered(r)
  {
    match Quantised(s, x, track, p)
    case None => s
    case Some(v) => Commit(s, held, v)
  }

  /**
   The moves of one drag. The `onMove` closure passes the handle that was
   grabbed to every move, so a crossing redirects only the move it happens in.
   */
  function Moves(s: State, held: Handle, xs: seq<real>, track: Track, p: Prims): (r: State)
    requires CanMove(s, track)
    ensures SameSettings(s, r) && r.hasBeenChanged == s.hasBeenChanged
    ensures !s.cfg.range ==> r.high == s.high
    ensures Ordered(s) ==> Ordered(r)
    decreases |xs|
  {
    if |xs| == 0 then s
    else Moves(Move(s, held, xs[0], track, p), held, xs[1..], track, p)
  }

  /** Every move of a drag, the last one included, starts again from the grabbed handle. */
  lemma {:induction false} MovesLast(s: State, held: Handle, xs: seq<real>, x: real, track: Track, p: Prims)
    requires CanMove(s, track)
    ensures Moves(s, held, xs + [x], track, p) == Move(Moves(s, held, xs, track, p), held, x, track, p)
    decreases |xs|
  {
    if |xs| == 0 {
      assert xs + [x] == [x];
    } else {
      assert (xs + [x])[1..] == xs[1..] + [x];
      MovesLast(Move(s, held, xs[0], track, p), held, xs[1..], x, track, p);
    }
  }

  /** `onEndFunction`: the drag has changed the value. The `onSlideEnd` callback is external. */
  function End(s: State): (r: State)
    ensures r.hasBeenChanged
    ensures SameSettings(s, r) && r.low == s.low && r.high == s.high
  {
    s.(hasBeenChanged := true)
  }

  /** A whole drag: moves with the grabbed handle, then the end handler. */
  function Gesture(s: State, held: Handle, xs: seq<real>, track: Track, p: Prims): (r: State)
    requires CanMove(s, track)
    ensures r.hasBeenChanged
    ensures SameSettings(s, r)
    ensures Ordered(s) ==> Ordered(r)
  {
    End(Moves(s, held, xs, track, p))
  }

  /**
   A press on the track: the track is bound together with `maxPtr`, so it
   runs one move with the `high` handle and then the end handler. If the move
   throws, the end handler does not run.
   */
  function TrackClick(s: State, x: real, track: Track, p: Prims): (r: State)
    requires CanMove(s, track)
    ensures Quantised(s, x, track, p).None? ==> r == s
    ensures Quantised(s, x, track, p).Some? ==> r.hasBeenChanged
    ensures SameSettings(s, r)
    ensures r.low == s.low || r.high == s.high
    ensures !s.cfg.range ==> r.high == s.high
    ensures Ordered(s) ==> Ordered(r)
    ensures var q := Quantised(s, x, track, p);
            q.Some? && s.cfg.range ==>
              (if q.value < s.low then r.low == q.value && r.high == s.high
               else r.high == q.value && r.low == s.low)
    ensures var q := Quantised(s, x, track, p);
            q.Some? && !s.cfg.range ==> r.low == q.value
  {
    match Quantised(s, x, track, p)
    case None => s
    case Some(v) => End(Commit(s, High, v))
  }

  /**
   The `ngModelLow + ngModelHigh` watcher: a sum of 0 clears the latch.
   AngularJS drops an `undefined` operand of `+`, so in single mode, with
   `ngModelLow` unbound, the watched value is `ngModelHigh` alone. The model
   takes `ngModelHigh` to be unbound there too, so the value is `undefined`
   and never 0.
   */
  function OnSum(s: State): (r: State)
    ensures SameSettings(s, r) && r.low == s.low && r.high == s.high
    ensures !r.hasBeenChanged <==> !s.hasBeenChanged || (s.cfg.range && s.low + s.high == 0.0)
  {
    if s.cfg.range && s.low + s.high == 0.0 then s.(hasBeenChanged := false) else s
  }

  /**
   The `floor` watcher, given the attribute's new and previous values. A
   change moves `low` along only if it sat exactly on the old floor; nothing
   is re-clamped. The latch only decides whether it redraws.
   */
  function OnFloor(s: State, value: real, oldValue: real): (r: Reaction)
    ensures value == oldValue ==> r == Reaction(s, false)
    ensures value != oldValue ==> r.state.minValue == value
    ensures value != oldValue && s.low == s.minValue ==> r.state.low == value
    ensures s.low != s.minValue ==> r.state.low == s.low
    ensures r.state.high == s.high && r.state.maxValue == s.maxValue && r.state.cfg == s.cfg
    ensures r.state.hasBeenChanged == s.hasBeenChanged
    ensures r.redraw <==> value != oldValue && !s.hasBeenChanged
  {
    if value == oldValue then Reaction(s, false)
    else
      var low := if s.low == s.minValue then value else s.low;
      Reaction(s.(low := low, minValue := value), !s.hasBeenChanged)
  }

  /**
   The `ceiling` watcher. It has no change guard: `high` moves along only if
   it sat exactly on the old ceiling. It redraws only while the latch is clear
   and `max-default` is set.
   */
  function OnCeiling(s: State, value: real): (r: Reaction)
    ensures r.state.maxValue == value
    ensures s.high == s.maxValue ==> r.state.high == value
    ensures s.high != s.maxValue ==> r.state.high == s.high
    ensures r.state.low == s.low && r.state.minValue == s.minValue && r.state.cfg == s.cfg
    ensures r.state.hasBeenChanged == s.hasBeenChanged
    ensures r.redraw <==> !s.hasBeenChanged && s.cfg.maxDefault
  {
    var high := if s.high == s.maxValue then value else s.high;
    Reaction(s.(high := high, maxValue := value), !s.hasBeenChanged && s.cfg.maxDefault)
  }

  /** The inputs a linked slider reacts to. */
  datatype Event =
    | Drag(held: Handle, xs: seq<real>, track: Track)
    | Click(x: real, track: Track)
    | FloorChange(value: real, oldValue: real)
    | CeilingChange(value: real)
    | SumChange

  /** An event the model can run: pointer events need a track of non-zero width. */
  predicate Runnable(e: Event) {
    (e.Drag? || e.Click?) ==> e.track.width != 0.0
  }

  /** The state after one event. */
  function Apply(s: State, e: Event, p: Prims): (r: State)
    requires Runnable(e) && s.cfg.step.GetOr(DefaultStep) != 0.0
    ensures r.cfg == s.cfg
    ensures e.Drag? ==> r.hasBeenChanged
    ensures !e.SumChange? && s.hasBeenChanged ==> r.hasBeenChanged
    ensures (e.Drag? || e.Click? || e.SumChange?) && Ordered(s) ==> Ordered(r)
  {
    match e
    case Drag(held, xs, track) => Gesture(s, held, xs, track, p)
    case Click(x, track) => TrackClick(s, x, track, p)
    case FloorChange(value, oldValue) => OnFloor(s, value, oldValue).state
    case CeilingChange(value) => OnCeiling(s, value).state
    case SumChange => OnSum(s)
  }

  /** The state after a sequence of events. */
  function Run(s: State, es: seq<Event>, p: Prims): (r: State)
    requires s.cfg.step.GetOr(DefaultStep) != 0.0
    requires forall i :: 0 <= i < |es| ==> Runnable(es[i])
    ensures r.cfg == s.cfg
    decreases |es|
  {
    if |es| == 0 then s else Run(Apply(s, es[0], p), es[1..], p)
  }

  /** Once set, the latch stays set through any run of events that has no sum watcher firing. */
  lemma {:induction false} LatchIsOneWay(s: State, es: seq<Event>, p: Prims)
    requires s.cfg.step.GetOr(DefaultStep) != 0.0
    requires forall i :: 0 <= i < |es| ==> Runnable(es[i])
    requires s.hasBeenChanged
    requires forall i :: 0 <= i < |es| ==> !es[i].SumChange?
    ensures Run(s, es, p).hasBeenChanged
    decreases |es|
  {
    if |es| > 0 {
      LatchIsOneWay(Apply(s, es[0], p), es[1..], p);
    }
  }

  /** Without bound changes, range mode keeps `low <= high` through any run of drags, clicks and sum resets. */
  lemma {:induction false} RunKeepsOrder(s: State, es: seq<Event>, p: Prims)
    requires s.cfg.step.GetOr(DefaultStep) != 0.0
    requires forall i :: 0 <= i < |es| ==> Runnable(es[i])
    requires forall i :: 0 <= i < |es| ==> !es[i].FloorChange? && !es[i].CeilingChange?
    requires Ordered(s)
    ensures Ordered(Run(s, es, p))
    decreases |es|
  {
    if |es| > 0 {
      RunKeepsOrder(Apply(s, es[0], p), es[1..], p);
    }
  }

  /** A run that ends with a drag leaves the latch set. */
  lemma {:induction false} RunEndingInDragSetsLatch(s: State, es: seq<Event>, p: Prims)
    requires s.cfg.step.GetOr(DefaultStep) != 0.0
    requires forall i :: 0 <= i < |es| ==> Runnable(es[i])
    requires |es| > 0 && es[|es| - 1].Drag?
    ensures Run(s, es, p).hasBeenChanged
    decreases |es|
  {
    if |es| == 1 {
      assert Run(s, es, p) == Run(Apply(s, es[0], p), [], p);
    } else {
      RunEndingInDragSetsLatch(Apply(s, es[0], p), es[1..], p);
    }
  }

  /** Range mode, both model values 0, floor 5 and ceiling 50: the handles start at 5 and 50. */
  lemma InitRangeSentinels(cfg: Config)
    requires cfg.range
    ensures var s := Init(cfg, 5.0, 50.0, 0.0, 0.0);
            s.low == 5.0 && s.high == 50.0 && !s.hasBeenChanged
  {
  }

  /**
   Crossing is decided per move: with `low` grabbed at 0 and `high` at 50, a
   move to 80 writes `high`, and the next move to 60 writes `low` again.
   */
  lemma CrossingIsPerMove(s: State)
    requires s.cfg.range && s.low == 0.0 && s.high == 50.0
    ensures Commit(s, Low, 80.0).high == 80.0 && Commit(s, Low, 80.0).low == 0.0
    ensures Commit(Commit(s, Low, 80.0), Low, 60.0).low == 60.0
    ensures Commit(Commit(s, Low, 80.0), Low, 60.0).high == 80.0
  {
  }

  /** A floor raised past `high` drags a `low` that sat on the old floor with it, so the handles cross. */
  lemma FloorChangeCanCrossHandles(s: State)
    requires s.cfg.range && s.low == 0.0 && s.minValue == 0.0 && s.high == 10.0
    ensures OnFloor(s, 20.0, 0.0).state.low == 20.0
    ensures !Ordered(OnFloor(s, 20.0, 0.0).state)
  {
  }

  /** A ceiling lowered past `low` drags a `high` that sat on the old ceiling with it, so the handles cross. */
  lemma CeilingChangeCanCrossHandles(s: State)
    requires s.cfg.range && s.low == 40.0 && s.high == 50.0 && s.maxValue == 50.0
    ensures OnCeiling(s, 30.0).state.high == 30.0
    ensures !Ordered(OnCeiling(s, 30.0).state)
  {
  }

  /** Bound changes do not re-clamp: a handle off the old bound stays where it was, even outside the new bounds. */
  lemma BoundChangesDoNotClamp(s: State, floor: real, ceiling: real)
    requires s.low != s.minValue && s.high != s.maxValue && floor != s.minValue
    ensures OnFloor(s, floor, s.minValue).state.low == s.low
    ensures OnCeiling(s, ceiling).state.high == s.high
  {
  }

  /** In linear mode with step 6 over [0, 10], the pointer at the right edge commits 12, past the ceiling: nothing clamps after stepping. */
  lemma SteppingCanPassCeiling(s: State, track: Track, p: Prims)
    requires !s.cfg.exponential && !s.cfg.range
    requires s.cfg.step == Some(6.0) && s.cfg.precision == Some(0)
    requires s.minValue == 0.0 && s.maxValue == 10.0
    requires track.width > 0.0
    requires FixesGrid(p.toFixed, 0, 6.0, 0.0)
    ensures Move(s, Low, track.left + track.width, track, p).low == 12.0
  {
    var raw := RawValue(s, track.left + track.width, track, p);
    assert raw == 10.0;
    SteppedExamples();
    RoundStepOnGrid(raw, 0, 6.0, 0.0, p.toFixed);
  }

  /** In linear mode with a positive step over [floor, ceiling], the committed value lies within half a step of the range, on the floor's grid. */
  lemma LinearMoveStaysNearRange(s: State, held: Handle, x: real, track: Track, p: Prims)
    requires !s.cfg.exponential && s.minValue <= s.maxValue && track.width > 0.0
    requires s.cfg.step.GetOr(DefaultStep) > 0.0
    requires 0 <= s.cfg.precision.GetOr(DefaultPrecision) <= MaxFixedDigits
    requires FixesGrid(p.toFixed, s.cfg.precision.GetOr(DefaultPrecision), s.cfg.step.GetOr(DefaultStep), s.minValue)
    ensures var v := Quantised(s, x, track, p);
            v.Some? && OnGrid(v.value, s.minValue, s.cfg.step.GetOr(DefaultStep))
            && s.minValue <= v.value <= s.maxValue + s.cfg.step.GetOr(DefaultStep) / 2.0
  {
    var raw := RawValue(s, x, track, p);
    var prec, st := s.cfg.precision.GetOr(DefaultPrecision), s.cfg.step.GetOr(DefaultStep);
    assert RoundStep(raw, s.cfg.precision, s.cfg.step, Some(s.minValue), p.toFixed)
        == RoundStep(raw, Some(prec), Some(st), Some(s.minValue), p.toFixed);
    RoundStepOnGrid(raw, prec, st, s.minValue, p.toFixed);
    SteppedNearest(raw, st, s.minValue);
  }

  /** In log mode with a positive floor, the value under the pointer lies in [floor, ceiling]. */
  lemma LogRawValueWithinBounds(s: State, x: real, track: Track, p: Prims)
    requires s.cfg.exponential && 0.0 < s.minValue <= s.maxValue && track.width > 0.0
    requires ExpInvertsLn(p) && LnIncreasing(p) && ExpIncreasing(p)
    ensures s.minValue <= RawValue(s, x, track, p) <= s.maxValue
  {
    LogValueWithinBounds(PointerPercent(x, track), s.minValue, s.maxValue, p);
  }
}
