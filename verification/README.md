# logSlider: a Dafny model of the value mapping and commit logic

`ng-logslider` is an AngularJS directive, `logSlider`. It draws a slider with
one handle (single mode, bound to `ngModel`) or two handles (range mode, bound
to `ngModelLow` and `ngModelHigh`). The scale is linear, or logarithmic when
the `exponential` attribute is present. This project models the directive's
arithmetic and its state handling:

- `numerics.dfy` (`Numerics`): JavaScript numbers as reals. It models the
  infinities of division by zero (`Ext`), truncation for `%`, and the host
  primitives. `Math.log`, `Math.exp` and `parseFloat(x.toFixed(p))` are the
  fields of a `Prims` value passed in as a parameter. The laws some
  properties rely on are ghost predicates (`ExpInvertsLn`, `LnIncreasing`, ...),
  and only the lemmas that need a law require it.
- `transfer.dfy` (`Transfer`): `percentOffset`, `percentValue`, the move
  handler's inline linear percent-to-value formula, `logPercentValue` and
  `percentLogValue`.
- `quantize.dfy` (`Quantize`): `roundStep`. It steps to the grid with the
  sign-preserving remainder `a - s*trunc(a/s)`, then calls `toFixed`.
- `slider.dfy` (`LogSlider`): the instance state `{low, high, minValue,
  maxValue, hasBeenChanged}` and the settings `{range, exponential,
  maxDefault, step, precision}`. The first three are fixed when the directive
  is compiled; `step` and `precision` are scope bindings that the model holds
  constant. The transitions are
  initialisation, a pointer move with the handle-crossing rule, drag end,
  track click, the `floor`/`ceiling` watchers and the
  `ngModelLow + ngModelHigh` watcher, plus runs of such events.

`dist/ng-logslider.js` is the Babel output of `src/ng-logslider.js`, and the
two have the same logic. The table cites `src/`. The matching `dist/` lines
are: helpers 6-80, initialisation 160-174, drag end 201-206, move 208-244,
bindings 247-271, watchers 290-337.

The model follows the code as written, including where it may surprise a
reader:

- The latch does not stop bound tracking. The `floor` and `ceiling` watchers
  move a handle that sat on the old bound whatever `hasBeenChanged` says. The
  latch (and `max-default` for the ceiling) only decides whether they redraw.
- A crossing is redirected for the one move it happens in. The `onMove`
  closure passes the grabbed handle to every move, so a later move is
  checked again from that handle (`MovesLast`, `CrossingIsPerMove`).
- Committed values are not clamped to [floor, ceiling]. Rounding to a step can
  pass the ceiling (`SteppingCanPassCeiling`). Bound changes do not re-clamp
  (`BoundChangesDoNotClamp`). A raised floor can move `low` above `high`
  (`FloorChangeCanCrossHandles`), and a lowered ceiling can move `high` below
  `low` (`CeilingChangeCanCrossHandles`). Range-mode initialisation only replaces
  the 0 sentinel; it clamps nothing.
- A track click always moves with the `high` handle's reference. It is not
  the nearest handle.
- `percentLogValue` has no `percent == 0 && min == 0` short-circuit. Only
  `logPercentValue` has one.
- The latch resets whenever `low + high` changes to 0 (for example to -5 and
  5), not only when both values become 0. AngularJS expressions drop an `undefined` operand of
  `+`, so in single mode, where `ngModelLow` is unbound, the watched value is
  `ngModelHigh` alone. While `ngModelHigh` is unbound too, that value is
  `undefined` and the latch never resets; the model covers this case.
- The log pair is not an inverse at floor 0 with a ceiling above 1:
  `percentLogValue` maps every value in (0, 1] to a non-positive quotient, which the clamp turns into 0, and
  `logPercentValue` short-circuits percent 0 at floor 0 to the value 0. So 1
  comes back as 0 (`LogRoundTripLosesSmallValuesAtFloorZero`).
- No configuration is validated. A zero or negative ceiling on the log scale
  simply feeds `Math.log`.

## Model

| member | source | states |
|---|---|---|
| Transfer.ClampOffset | src/ng-logslider.js:205 | the pointer offset lies in [0, width]: the pointer's distance from the left edge inside the track, 0 left of it, the width right of it |
| Transfer.PercentOffset | src/ng-logslider.js:4 | an offset inside a positive-width track becomes a percent in [0, 100] proportional to the offset, 0 at the left edge and exactly 100 at the right |
| Transfer.PercentValue | src/ng-logslider.js:5-8 | exactly 100 at the ceiling, 0 at the floor (when floor differs from ceiling); finite unless the ceiling is 0, where JavaScript gives an infinity |
| Transfer.LinearValue | src/ng-logslider.js:212 | percent 0 gives the floor and percent 100 the ceiling; percents in [0, 100] give values in [floor, ceiling] |
| Transfer.LinearRoundTripIffFloorZero | src/ng-logslider.js:5-8 | for a percent strictly between 0 and 100, percent to value and back is the identity exactly when the floor is 0, because the divisor is the ceiling, not the range |
| Transfer.PercentValueInRangeFromZero | src/ng-logslider.js:5-8 | with floor 0 and positive ceiling, every value in [0, ceiling] maps to a finite percent in [0, 100] |
| Transfer.PercentValueOffsetByFloor | src/ng-logslider.js:5-8 | with a non-zero floor the map is shifted: 75 on [50, 100] shows at 25 percent, 50 on [-100, 100] at 150 percent |
| Transfer.LogExponent | src/ng-logslider.js:22-27 | the exponent is ln(floor) (or 0 for a non-positive floor) at percent 0, ln(ceiling) at 100, between them for percents in [0, 100], and exactly half way at 50 |
| Transfer.LogPercentValue | src/ng-logslider.js:15-28 | percent 0 with floor 0 short-circuits to 0; any other result is positive when exp is positive |
| Transfer.ClampPercent | src/ng-logslider.js:43-45 | the result is always in [0, 100]: -Infinity and negative quotients go to 0, +Infinity and quotients above 100 go to 100, and values inside are kept |
| Transfer.PercentLogValue | src/ng-logslider.js:30-46 | the result is always in [0, 100]; exactly 0 at the floor and exactly 100 at the ceiling (when their logarithms differ) |
| Transfer.LogPercentValueEndpoints | src/ng-logslider.js:15-28 | given exp(ln x) = x, percent 100 gives the ceiling and, for a positive floor, percent 0 gives the floor |
| Transfer.LogRoundTripFromValue | src/ng-logslider.js:15-46 | for 0 < floor < ceiling, value to percent to value returns every value in [floor, ceiling] |
| Transfer.LogRoundTripFromPercent | src/ng-logslider.js:15-46 | for a positive ceiling whose logarithm differs from the floor's guarded logarithm (any floor, including 0 with its short-circuit), percent to value to percent returns every percent in [0, 100] |
| Transfer.LogRoundTripLosesSmallValuesAtFloorZero | src/ng-logslider.js:15-46 | at floor 0 with a ceiling above 1, every value in (0, 1] maps to percent 0 and comes back as 0, not as itself |
| Transfer.LnOfOne | src/ng-logslider.js:38 | under the exp laws, exp(0) = 1 and ln(1) = 0, the fact that makes values up to 1 non-positive on the log scale |
| Transfer.LogValueWithinBounds | src/ng-logslider.js:15-28 | for a positive floor, every percent in [0, 100] maps into [floor, ceiling] |
| Transfer.LogMidpointIsGeometricMean | src/ng-logslider.js:15-28 | at 50 percent the log scale gives the geometric mean of floor and ceiling (its square is floor times ceiling) |
| Quantize.Rem | src/ng-logslider.js:53 | JavaScript `%`: the remainder has the dividend's sign, is smaller than the divisor in magnitude, leaves a whole number of divisors, and is 0 exactly on multiples |
| Quantize.Stepped | src/ng-logslider.js:53-57 | the stepped value lies on the grid floor + k*step; for a positive step it equals the input exactly when the input is already on the grid |
| Quantize.ShiftDecimals | src/ng-logslider.js:58-59 | multiplying and dividing by `decimals` gives back the stepped value |
| Quantize.RoundStep | src/ng-logslider.js:48-61 | a result exists exactly when the precision (default 0) is within toFixed's 0..100; otherwise toFixed throws |
| Quantize.SteppedNearest | src/ng-logslider.js:53-57 | for a value at or above the floor, stepping rounds up exactly when the remainder exceeds half a step, stays at or above the floor, and moves at most half a step |
| Quantize.SteppedTieRoundsDown | src/ng-logslider.js:55-57 | a remainder of exactly half a step rounds down |
| Quantize.SteppedBelowFloor | src/ng-logslider.js:53-57 | below the floor the remainder is negative, so the value moves up toward the floor by less than a step |
| Quantize.SteppedIdempotent | src/ng-logslider.js:53-57 | with a positive step, stepping a stepped value changes nothing |
| Quantize.RoundStepOnGrid | src/ng-logslider.js:48-61 | when toFixed keeps grid points, roundStep returns the stepped value, which lies on the grid |
| Quantize.RoundStepIdempotent | src/ng-logslider.js:48-61 | when toFixed keeps grid points and the step is positive, applying roundStep twice gives the same result as once |
| Quantize.RoundStepDefaults | src/ng-logslider.js:48 | with precision, step and floor unset (0, 1, 0), a non-negative value goes to an integer within 1/2 of it |
| Quantize.SteppedExamples | src/ng-logslider.js:53-57 | 23 and 25 on step 10 go to 20 (the tie goes down); 10 on step 6 goes to 12; -9 on step 10 goes to 0 |
| LogSlider.Init | src/ng-logslider.js:151-165 | range mode replaces a model value of exactly 0 by the floor (low) or ceiling (high) and keeps every other value; single mode clamps low into [floor, ceiling] and keeps in-range values; with floor above ceiling the ceiling wins, because the floor is tested first |
| LogSlider.Commit | src/ng-logslider.js:216-230 | exactly one handle receives the value and the other is unchanged; dragging low above high writes high, dragging high below low writes low, single mode writes low; low <= high is preserved |
| LogSlider.PointerPercent | src/ng-logslider.js:204-206 | the pointer's percent lies in [0, 100]; 0 at or left of the track, 100 at or right of its right edge |
| LogSlider.RawValue | src/ng-logslider.js:208-213 | on the linear scale the value before stepping lies in [minValue, maxValue], with the floor at the left edge and the ceiling at the right |
| LogSlider.Quantised | src/ng-logslider.js:214 | the stepped value exists exactly when the configured precision is accepted by toFixed |
| LogSlider.Move | src/ng-logslider.js:197-233 | one move writes the stepped value to exactly one handle and leaves the other unchanged, following the crossing rule (grabbed low above high writes high, grabbed high below low writes low); single mode leaves high alone; a throwing toFixed changes nothing; low <= high is preserved; bounds and latch are untouched |
| LogSlider.Moves | src/ng-logslider.js:243-248 | a sequence of moves with the grabbed handle keeps low <= high, leaves high alone in single mode and does not touch bounds or latch |
| LogSlider.MovesLast | src/ng-logslider.js:237-248 | a drag of n+1 moves is the drag of the first n followed by one more move with the same grabbed handle, so every move starts again from that handle |
| LogSlider.End | src/ng-logslider.js:192-195 | drag end sets the latch and changes nothing else |
| LogSlider.Gesture | src/ng-logslider.js:237-250 | a whole drag ends with the latch set and low <= high preserved |
| LogSlider.TrackClick | src/ng-logslider.js:252-257 | a track press runs one move with the high handle's crossing rule and then sets the latch: in range mode the stepped value goes to low if it is below low and to high otherwise, in single mode to low; if toFixed throws, nothing changes; low <= high is preserved |
| LogSlider.OnSum | src/ng-logslider.js:273-275 | the latch is cleared exactly when the slider is in range mode and low + high is 0; the values are untouched |
| LogSlider.OnFloor | src/ng-logslider.js:278-296 | a changed floor becomes minValue and moves low with it only if low sat exactly on the old floor; high and the latch are untouched; it redraws only while the latch is clear |
| LogSlider.OnCeiling | src/ng-logslider.js:298-318 | the new ceiling becomes maxValue (no change guard) and moves high with it only if high sat exactly on the old ceiling; it redraws only with the latch clear and max-default set |
| LogSlider.Apply | src/ng-logslider.js:236-318 | a drag always sets the latch, no event but the sum watcher clears it, and drags, clicks and sum resets keep low <= high |
| LogSlider.Run | src/ng-logslider.js:271-322 | a run of events never changes the configuration |
| LogSlider.LatchIsOneWay | src/ng-logslider.js:192-195 | once set, the latch stays set through every run of events in which the sum watcher does not fire |
| LogSlider.RunKeepsOrder | src/ng-logslider.js:216-230 | runs of drags, clicks and sum resets preserve low <= high in range mode |
| LogSlider.RunEndingInDragSetsLatch | src/ng-logslider.js:237-242 | a run whose last event is a drag leaves the latch set |
| LogSlider.InitRangeSentinels | src/ng-logslider.js:151-157 | range mode with both values 0, floor 5 and ceiling 50 starts at low 5, high 50 |
| LogSlider.CrossingIsPerMove | src/ng-logslider.js:216-230 | with low grabbed at 0 and high at 50, a move to 80 writes high, and a following move to 60 writes low |
| LogSlider.FloorChangeCanCrossHandles | src/ng-logslider.js:281-285 | raising the floor from 0 to 20 drags a low at 0 above a high at 10 |
| LogSlider.CeilingChangeCanCrossHandles | src/ng-logslider.js:298-305 | lowering the ceiling from 50 to 30 drags a high at 50 below a low at 40 |
| LogSlider.BoundChangesDoNotClamp | src/ng-logslider.js:278-305 | a handle not sitting on the old bound keeps its value across a bound change, even outside the new range |
| LogSlider.SteppingCanPassCeiling | src/ng-logslider.js:212-230 | linear single slider on [0, 10] with step 6: the pointer at the right edge commits 12, past the ceiling |
| LogSlider.LinearMoveStaysNearRange | src/ng-logslider.js:205-214 | linear scale, positive step (set or the default 1), accepted precision (set or the default 0): the committed value lies on the floor's grid, within [floor, ceiling + step/2] |
| LogSlider.LogRawValueWithinBounds | src/ng-logslider.js:205-209 | log scale with a positive floor: the value under the pointer lies in [floor, ceiling] |

## Left out

- Rendering: `updateDOM`, the percents in `scope.porcent`, the `css` calls, the template and `ptrWidth`. A watcher reports only whether it would redraw.
- Event plumbing: `bind`/`unbind`, `inputEvents`, `setBindings`, `stopPropagation`/`preventDefault`, `scope.$apply`, `$watch` registration and digest order. Each handler is a function, and the caller decides when it runs.
- Pointer extraction: the model takes the pointer's x as a real. In the source, `if (event.clientX)` treats a clientX of 0 as missing, which leaves the coordinate undefined.
- The `onSlideEnd` callback: external code.
- Attribute parsing (`parseInt`/`parseFloat`), `translate`, `hideBubble`, `$timeout`, NaN and `undefined`: inputs are typed reals. Unset `step` and `precision` are `None`.
- Transfer.PercentValue: the NaN of `0 / 0` (value equal to the floor with a zero ceiling) is excluded by its precondition; infinities are modelled.
- Transfer.PercentLogValue: the NaN of `0 / 0` (value, floor and ceiling with the same guarded logarithm) is excluded by its precondition.
- Transfer.PercentOffset: a track of width 0 gives `0 / 0` and is excluded.
- Quantize.RoundStep: a step of 0 makes the remainder NaN and is excluded.
- Track movement during a drag: the source reads the track's bounding rectangle afresh on every move, so the track can shift mid-drag (on scroll, say). A `Drag` event uses one `Track` for all its moves.
- Changes to `step` and `precision` during a run: both are interpolated scope bindings that every move reads afresh, but the model holds them in its settings, so no event changes them.
- Floating point: numbers are exact reals, so the model has no IEEE rounding and no signed zero. `Math.log`, `Math.exp` and `toFixed` are abstract. What `Math.log` returns for non-positive arguments is left unconstrained.
- Dead code: `expoPorcent`, `unexpoPorcent`, `log16` and `MAX_WIDTH` are never called.
- The `step === null` branch of `roundStep` is unreachable.
- The latch's storage: `hasBeenChanged` lives in the `compile` closure, so instances linked from one compiled element share it. The model keeps one latch per instance.
- Single mode's `ngModelHigh` is normally unbound (`undefined`). The model keeps `high` as a real that only the ceiling watcher touches.
- LogSlider.OnSum: the sum watcher is an AngularJS `$watch` listener, which runs only when the watched value changes (and once at the first digest). The model lets it run at any time, even when the sum has not changed, so a run may clear the latch where the directive would not.
- LogSlider.OnSum: in single mode the latch is never cleared. This assumes `ngModelHigh` is unbound. If it is bound, the watched expression is `ngModelHigh` alone and a value of 0 would clear the latch; the model does not track which optional attributes are bound.
- Transfer.LogRoundTripFromValue: proved only for a positive floor. At floor 0 the round trip fails for values in (0, 1], which come back as 0 (`LogRoundTripLosesSmallValuesAtFloorZero`). Values above 1 at floor 0, and negative floors, are not covered by a round-trip lemma.
- Duplicate listeners: touch and mouse listeners are both bound, and a gesture without an end event leaves its move listener bound. These are binding mechanics.
- gulpfile.js: build tooling.
