# Swiper motion engine, modelled in Dafny

This project models the index and position arithmetic of the react-vant swiper
component (`packages/react-vant/src/swiper/Swiper.tsx`) and proves its properties.
The swiper is a carousel. It shows `count` panes along one axis. It commits a
pane index when it is swiped or dragged and notifies `onChange`. It animates a
spring toward the committed pane. In loop mode it wraps around with a true
modulus, and it can advance on an autoplay timer.

The model is a small immutable state: the committed index `current`, the spring's
position and target, the drag flag, and two logs. One log holds the `onChange`
notifications, the other the spring requests. Each handler of the component is a
pure transition function on that state.

- `jsmath.dfy` (`JsMath`): the JavaScript number operations used.
  - `%` is the truncating remainder of ECMA-262 (Number::remainder).
  - `Math.round` rounds half toward +infinity, as in section 21.3.2.28 of ECMA-262.
  - Finite doubles are idealised as reals.
- `wraparound.dfy` (`Wraparound`): the `modulus` helper.
  - The integer wrap of loop mode.
  - The loop-mode slide fold.
  - Congruence modulo a cycle, which states what both of them keep.
- `swiper.dfy` (`Swiper`): configuration, state, and the spring's start and rest.
  - `swipeTo`, `swipeNext`, `swipePrev`.
  - The `onRest` normalisation and the slide offsets.
- `gesture.dfy` (`Gesture`): the drag handler.
  - The drag origin and bounds given to the gesture library.
  - The release index.
- `autoplay.dfy` (`Autoplay`): the autoplay timer rule and what a run of ticks does.
- `engine.dfy` (`Engine`): every event as one step function.
  - The invariants that hold over any sequence of events.

The spring position is kept in panes. The component's spring holds
`panes * axisDistance`, where `axisDistance` is 100 (percent) horizontally and the
root's height in pixels vertically. `Wraparound.ModulusScale`,
`Wraparound.FoldScale` and `Swiper.RestInAxisUnits` prove that reducing and
folding commute with that scaling. The pane-unit formulas are therefore the
component's formulas divided by `axisDistance`. The one exception is a moving
drag frame: its offset is in track pixels, and the component writes it into the
spring unconverted. `Gesture.OnDragAsWritten` divides it by `axisDistance`, as the
component effectively does (see "## Findings").

The `bound` helper of `../utils/bound` is not part of this model. `Swiper.Bound`
takes it to be the clamp `min(max(v, lo), hi)`.

## Model

| member | source | states |
|---|---|---|
| JsMath.RemFacts | packages/react-vant/src/swiper/Swiper.tsx:287 | For a positive divisor, `value % division` lies strictly within one divisor of 0. It has the sign of the dividend, differs from it by a whole number of divisors, and is the dividend itself when that is in [0, division). |
| JsMath.Rem | packages/react-vant/src/swiper/Swiper.tsx:287 | `value % division` with a positive divisor lies strictly between -division and division. It is not negative for a non-negative dividend and not positive for a negative one. |
| JsMath.RoundTies | packages/react-vant/src/swiper/Swiper.tsx:185 | `Math.round` fixes integers and sends k + 0.5 to k + 1 and k - 0.5 to k. So `Math.round(-0.5)` is 0. |
| JsMath.Round | packages/react-vant/src/swiper/Swiper.tsx:185 | `Math.round(x)` is the integer k with k - 0.5 <= x < k + 0.5. The same rounding is used for the release index at line 123. |
| JsMath.Min | packages/react-vant/src/swiper/Swiper.tsx:124 | `Math.min` of two numbers is one of them and no larger than either. |
| Wraparound.Modulus | packages/react-vant/src/swiper/Swiper.tsx:286-289 | For `division > 0`, the result lies in [0, division) and is congruent to `value` modulo `division`. It is `value` itself when `value` is already in range. |
| Wraparound.ModulusUnique | packages/react-vant/src/swiper/Swiper.tsx:286-289 | `modulus` is the only value of [0, division) congruent to `value`. |
| Wraparound.ModulusClassifies | packages/react-vant/src/swiper/Swiper.tsx:286-289 | Two values have the same `modulus` exactly when they are congruent. `modulus` is idempotent. |
| Wraparound.WrapIndex | packages/react-vant/src/swiper/Swiper.tsx:168 | The wrapped index lies in [0, count) and equals `modulus(index, count)`. |
| Wraparound.WrapStepForward | packages/react-vant/src/swiper/Swiper.tsx:168 | Wrapping, stepping one pane forward and wrapping again is the same as stepping first and wrapping once. |
| Wraparound.WrapStepBack | packages/react-vant/src/swiper/Swiper.tsx:168 | Stepping one pane forward, wrapping, and stepping one pane back returns to the original representative. |
| Wraparound.Fold | packages/react-vant/src/swiper/Swiper.tsx:247 | `modulus(p + flag, total) - flag` lies in [-flag, total - flag) and is congruent to `p` modulo `total`. |
| Wraparound.FoldUnique | packages/react-vant/src/swiper/Swiper.tsx:247 | The fold is the only value of its window congruent to the position. |
| Wraparound.FoldPeriodic | packages/react-vant/src/swiper/Swiper.tsx:243-248 | Positions a whole number of cycles apart are drawn at the same place. |
| Wraparound.FoldTracksMotion | packages/react-vant/src/swiper/Swiper.tsx:243-248 | Fold continuity: a move that keeps the folded value inside its window moves it by exactly that amount. |
| Wraparound.FoldZero | packages/react-vant/src/swiper/Swiper.tsx:243-248 | When 0 lies in the window, the fold is 0 exactly at the positions that are whole cycles from 0. |
| Wraparound.ModulusScale | packages/react-vant/src/swiper/Swiper.tsx:96-98 | Reducing `x * d` modulo `n * d` is reducing `x` modulo `n`, times `d`. |
| Wraparound.FoldScale | packages/react-vant/src/swiper/Swiper.tsx:243-247 | Folding in axis units is folding in panes, times the pane size. |
| Swiper.FlagWidth | packages/react-vant/src/swiper/Swiper.tsx:245-246 | `flagWidth` (half the cycle less 10 axis units) is below one cycle. It is not negative exactly when the cycle spans at least 20 axis units. |
| Swiper.AxisDistance | packages/react-vant/src/swiper/Swiper.tsx:63-67 | One pane spans 100 axis units (percent) horizontally, and the measured root height vertically. |
| Swiper.Bound | packages/react-vant/src/swiper/Swiper.tsx:175 | The assumed clamp: the result is in [lo, hi] when lo <= hi. It is `v` inside that range and the nearer end outside it. |
| Swiper.Start | packages/react-vant/src/swiper/Swiper.tsx:100-103 | A spring request is logged and sets the target. Only an immediate request moves the position. Nothing else changes. |
| Swiper.Mount | packages/react-vant/src/swiper/Swiper.tsx:86-93 | The spring starts at rest on `bound(initialSwipe, 0, count - 1)`, a whole pane in range. `current` keeps the unclamped `initialSwipe`. Nothing is logged. |
| Swiper.SwipeTo | packages/react-vant/src/swiper/Swiper.tsx:166-182 | Exactly one notification and one animation request per call. Loop mode commits a pane in [0, count) congruent to `index` and targets the unwrapped `index`. Otherwise it commits and targets the clamped index. |
| Swiper.OnRest | packages/react-vant/src/swiper/Swiper.tsx:94-104 | During a drag nothing changes. Otherwise the position becomes its representative in [0, count). A request is issued exactly when the position was outside that range, and it is one immediate jump. |
| Swiper.Rest | packages/react-vant/src/swiper/Swiper.tsx:94-104 | The spring reaching its target and running `onRest` leaves it at rest, with position equal to target. It adds at most one jump request and leaves `current`, the notifications and the drag flag alone. |
| Swiper.RestInAxisUnits | packages/react-vant/src/swiper/Swiper.tsx:96-99 | The component's reduction in axis units equals the pane reduction times `axisDistance`. So the two agree on whether a jump is issued. |
| Swiper.SlideOffset | packages/react-vant/src/swiper/Swiper.tsx:242-248 | A slide's offset is `slide - x`. In loop mode it is folded into [-flagWidth, count - flagWidth), keeping its congruence class. |
| Swiper.StepFromPane | packages/react-vant/src/swiper/Swiper.tsx:184-190 | From rest on pane k, `swipeNext` is `swipeTo(k + 1)` and `swipePrev` is `swipeTo(k - 1)`. |
| Swiper.SwipeNext | packages/react-vant/src/swiper/Swiper.tsx:184-186 | One notification and one animation request. In loop mode the target is a whole pane more than half a pane and at most one and a half panes ahead of the live position, and the committed pane is its representative. Otherwise the committed pane and target are `bound(round(position) + 1, 0, count - 1)`, which is that same window when no clamping applies. |
| Swiper.SwipePrev | packages/react-vant/src/swiper/Swiper.tsx:188-190 | One notification and one animation request. In loop mode the target is a whole pane at least half a pane and less than one and a half panes behind the live position, and the committed pane is its representative. Otherwise the committed pane and target are `bound(round(position) - 1, 0, count - 1)`, which is that same window when no clamping applies. |
| Swiper.RestNearTarget | packages/react-vant/src/swiper/Swiper.tsx:94-104 | At rest the position is congruent to the target. It equals the target during a drag, and otherwise lies in [0, count). |
| Swiper.SettleLandsOnCommitted | packages/react-vant/src/swiper/Swiper.tsx:166-182 | After a swipe comes to rest, the spring is whole cycles from the committed pane. It is exactly on that pane unless loop mode is combined with an active drag. |
| Swiper.SlideAtOrigin | packages/react-vant/src/swiper/Swiper.tsx:243-248 | In loop mode, when the cycle spans at least 20 axis units (always so horizontally), slide j is drawn at offset 0 exactly when the position is whole cycles from pane j. |
| Swiper.SettleShowsCommitted | packages/react-vant/src/swiper/Swiper.tsx:166-173 | Once a settle comes to rest, the slide drawn at offset 0 is the one `onChange` reported, and only that one. In loop mode this needs the cycle to span at least 20 axis units, which always holds horizontally. |
| Swiper.RestKeepsSlides | packages/react-vant/src/swiper/Swiper.tsx:94-104 | Idle normalisation is invisible: every slide is drawn where it was at the unnormalised target. Outside loop mode this is stated for targets in [0, count). |
| Swiper.RestIdempotent | packages/react-vant/src/swiper/Swiper.tsx:94-104 | A second rest after a rest changes nothing. |
| Swiper.NextThenPrev | packages/react-vant/src/swiper/Swiper.tsx:184-190 | From rest on pane k, next, rest, prev, rest returns to pane k, with two notifications. In loop mode it returns to k's representative. Outside loop mode this needs k + 1 < count. |
| Swiper.NextWhileAnimating | packages/react-vant/src/swiper/Swiper.tsx:184-186 | Two `swipeNext` calls before the spring moves commit the same pane twice: each steps from the live position, not from `current`. |
| Gesture.DragOrigin | packages/react-vant/src/swiper/Swiper.tsx:136-141 | A drag starts at the spring's pane position times the track size, on the swiper's axis, and at 0 on the other axis. |
| Gesture.AxisOffset | packages/react-vant/src/swiper/Swiper.tsx:113-114 | The offset along the swiper's axis is the second component of the gesture offset vertically and the first horizontally. |
| Gesture.DragBounds | packages/react-vant/src/swiper/Swiper.tsx:142-149 | There are no bounds in loop mode. Otherwise the bounds are [0, (count - 1) * track]. |
| Gesture.OriginWithinBounds | packages/react-vant/src/swiper/Swiper.tsx:136-149 | A drag from a spring inside the pane range starts inside the bounds. |
| Gesture.ReleaseIndex | packages/react-vant/src/swiper/Swiper.tsx:123-126 | With non-negative speed and direction in {-1, 0, 1}, the release index is within 1 of `round(offset / track)`. Without speed or direction it is exactly that. |
| Gesture.NudgedRound | packages/react-vant/src/swiper/Swiper.tsx:123-126 | Moving the offset by at most one track size moves the rounded index by at most one. |
| Gesture.ReleaseMonotone | packages/react-vant/src/swiper/Swiper.tsx:123-126 | A larger release offset never commits an earlier pane. |
| Gesture.ReleaseExamples | packages/react-vant/src/swiper/Swiper.tsx:123-126 | On a 300-pixel track, offset -150 at rest commits pane 0. A flick at offset -10 with speed 5 backwards commits -1. Offset 100 commits 0 slowly and 1 with a flick. |
| Gesture.OnDragAsWritten | packages/react-vant/src/swiper/Swiper.tsx:109-132 | A track of size 0 drops the frame. Otherwise the drag flag is set. A moving frame jumps the spring to `offset / axisDistance` panes. A release notifies once and leaves the position to the animation. |
| Gesture.ReleaseCommitsNearOffset | packages/react-vant/src/swiper/Swiper.tsx:122-128 | In the handler as written, with non-negative speed and direction in {-1, 0, 1}, a release notifies once and sets the drag flag. In loop mode it aims within one pane of `round(offset / track)`, and the committed pane is the target's representative. Otherwise the committed pane lies between the clamps of `round(offset / track) - 1` and `+ 1`. Without speed it is exactly `swipeTo(round(offset / track))`. |
| Gesture.StillDragAsWritten | packages/react-vant/src/swiper/Swiper.tsx:117-121 | As written, a frame still at the drag origin moves the spring to `position * track / axisDistance` panes. |
| Gesture.StillDragCounterexample | packages/react-vant/src/swiper/Swiper.tsx:117-121 | Horizontal, 375-pixel track, resting on pane 1: a still frame jumps to pane 3.75 as written, and stays on pane 1 once converted. |
| Gesture.BoundedDragCounterexample | packages/react-vant/src/swiper/Swiper.tsx:117-121 | Two panes, horizontal, 375-pixel track, resting on pane 1. A frame at the upper drag bound jumps the spring to pane 3.75 as written, past the last pane, and stays on pane 1 once converted. |
| Gesture.OnDrag | packages/react-vant/src/swiper/Swiper.tsx:109-132 | The drag handler with the moving frame converted to panes. The spring's pane position times the track size is the offset, and a release commits a pane in range. |
| Gesture.StillDragKeepsPosition | packages/react-vant/src/swiper/Swiper.tsx:117-121 | A frame still at the drag origin leaves the spring where it was. |
| Gesture.BoundedDragStaysInRange | packages/react-vant/src/swiper/Swiper.tsx:142-149 | For the converted handler `Gesture.OnDrag` only: a moving frame within the non-loop bounds keeps the spring within [0, count - 1] panes. The handler as written does not (`Gesture.BoundedDragCounterexample`). |
| Gesture.StillReleaseCommitsNearest | packages/react-vant/src/swiper/Swiper.tsx:122-128 | A release at the drag origin without speed commits `swipeTo` of the pane nearest the spring, in the handler as written and in the converted one. |
| Autoplay.AutoplayTimer | packages/react-vant/src/swiper/Swiper.tsx:198-207 | No timer while autoplay is falsy or a drag is active. Otherwise a period of 5000 ms for `true`, or the given number. |
| Autoplay.Truthy | packages/react-vant/src/swiper/Swiper.tsx:199 | The `!autoplay` test: the prop is falsy exactly when it is `false` or `0`. |
| Autoplay.TickFromPane | packages/react-vant/src/swiper/Swiper.tsx:201-203 | A tick from rest on pane c commits and rests on the next pane, with one notification. The next pane is wrapped in loop mode and clamped otherwise. |
| Autoplay.Tick | packages/react-vant/src/swiper/Swiper.tsx:201-203 | The interval callback `swipeNext` followed by the spring coming to rest notifies once with a pane, leaves the spring at rest and keeps the drag flag. |
| Autoplay.TicksAdvance | packages/react-vant/src/swiper/Swiper.tsx:198-207 | From rest on pane k, m ticks rest on the pane m steps on. They notify the panes 1, ..., m steps on, in order. |
| Autoplay.LoopReturns | packages/react-vant/src/swiper/Swiper.tsx:201-203 | In loop mode, `count` ticks return to the starting pane. |
| Autoplay.HoldsAtLastPane | packages/react-vant/src/swiper/Swiper.tsx:174-177 | Outside loop mode, ticks stop at the last pane and keep notifying it. |
| Engine.Step | packages/react-vant/src/swiper/Swiper.tsx:192-207 | Every event only appends to the notification log, at most once. Calls always notify; rest, animation frames and the drag timeout never do. A tick without a running timer changes nothing. Drags use the handler as written. |
| Engine.AutoplayTickIsTick | packages/react-vant/src/swiper/Swiper.tsx:198-203 | With a truthy prop and no drag, a timer tick followed by the spring coming to rest is exactly one `Autoplay.Tick`, the step the autoplay lemmas count. |
| Engine.NextPastHalfway | packages/react-vant/src/swiper/Swiper.tsx:184-186 | From rest on pane k, call `swipeNext`, then let the spring move to x. A second `swipeNext` aims at k + 2 once x is past k + 0.5, and at k + 1 again before that. |
| Engine.StepRequests | packages/react-vant/src/swiper/Swiper.tsx:171-180 | Every animation request an event adds aims at a whole pane, and at a pane in range outside loop mode. |
| Engine.StepPreservesInv | packages/react-vant/src/swiper/Swiper.tsx:166-182 | Every event keeps the invariant: notified indices are panes, `current` is the last one notified, and animations aim at panes. |
| Engine.RunPreservesInv | packages/react-vant/src/swiper/Swiper.tsx:166-182 | Any sequence of events keeps the invariant and appends at most one notification per event. |
| Engine.CurrentIsAPane | packages/react-vant/src/swiper/Swiper.tsx:260-271 | Once anything has been notified, the index the indicator shows is a pane. |

## Left out

- Rendering: JSX, `PageIndicator`, class names and the `left`/`top` CSS strings are left out. Only the slide offset formula is modelled.
- Spring physics: tension, friction and frame delivery are left out. An animation request only sets a target. Coming to rest sets the position to the target and then runs `onRest`.
- Autoplay ticks: a tick is modelled as `swipeNext` followed by rest (`Engine.AutoplayTickIsTick` equates it with the timer event followed by the spring coming to rest). This assumes the interval outlasts the animation.
- Spring trajectory: an animation frame (`Engine.SpringFrame`) may set the live value to any number. The model does not say which values the spring passes through between its position and its target. `swipeNext` and `swipePrev` read that live value, so a call in mid-animation is modelled for every value it could read (`Engine.NextPastHalfway`). Without a frame event, the position stays where the animation started until the spring rests.
- Gesture library internals: offset accumulation, velocity estimation, the rubberband curve, axis locking and the `transform` sign flips are left out. A frame carries an already-transformed offset and the library's velocity and direction. The release uses the first component of velocity and direction on both axes, as the code does.
- DOM measurement: the track size and the root height are parameters. The track size is a natural number (`offsetWidth`/`offsetHeight`).
- Timers: `setInterval` and `setTimeout` become events (`AutoplayTick`, `DragTimeout`). Event order is free.
- Spring re-creation: the spring is re-created when `axisDistance` or `count` changes. This is not modelled; each configuration is fixed.
- Children filtering and warnings: `count` is a parameter.
- `count = 0`: left out. With no slides the code only logs a warning (lines 208-210) and carries on: `bound` gets an upper bound of -1, and `modulus` by 0 gives NaN. The model follows the code and `Valid` requires `count >= 1` and a positive `axisDistance`.
- Unclamped start index: the indicator shows `current` (lines 260-271), and the code starts `current` at the unclamped `initialSwipe` (line 86); only the spring is clamped. The model follows the code (`Swiper.Mount`), and `Engine.CurrentIsAPane` holds once something has been notified.
- Floating point: doubles are idealised as reals, with no rounding, NaN or -0. Indices are integers, and `swipeTo` is called with integers.
- `bound`: assumed to be the clamp `min(max(v, lo), hi)`. `../utils/bound.ts` is not part of this model.
- Swiper.SlideOffset: the fold is proved in panes. Its equality with the full axis-unit formula is stated through `Wraparound.FoldScale` for the folded value rather than as one lemma over the configuration.
- Default props: `initialSwipe` 0, `touchable` true, `loop` true and `autoplay` 2000 (lines 277-282) are not applied. `Swiper.Mount` takes any start index and `Config` any loop and autoplay setting, so the defaults are special cases.
- `touchable`: gestures are bound only when `touchable` is set (line 226). `Engine.Step` accepts `Drag` events in every configuration, which includes the untouchable swiper receiving none.
- Pane units: the spring position is measured in panes rather than axis units. The scaling lemmas above connect the two.

## Findings

| source | as written | input that shows it | evidently intended | confidence | as-written member | corrected member |
|---|---|---|---|---|---|---|
| packages/react-vant/src/swiper/Swiper.tsx:117-121 | A moving drag frame writes the track-pixel offset straight into the spring. The spring's unit is `axisDistance`, which is 100 per pane horizontally, and `from` converts the spring to pixels with `/ axisDistance * distance`, but nothing converts back. | Horizontal swiper, 375-pixel track, at rest on pane 1. The first frame, still at the origin, reports offset 375. The spring jumps to 375, which is pane 3.75. | Convert back: `offset / distance * axisDistance`. Then a still frame leaves the spring on pane 1. | medium, not executed | Gesture.OnDragAsWritten, Gesture.StillDragCounterexample, Gesture.BoundedDragCounterexample | Gesture.OnDrag, Gesture.StillDragKeepsPosition, Gesture.BoundedDragStaysInRange |

`Engine.Step` uses the handler as written, so the invariants of `Engine` hold for the
component as it is. They do not depend on the spring's value during a drag. The corrected
handler moves the spring to the offset divided by the track size, the inverse of the drag
origin. Vertically, `axisDistance` is the root height and the track is usually as tall,
so there the two coincide.
