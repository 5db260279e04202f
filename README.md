# Motion layer of the CHRONOS landing page

A Dafny model of the motion math in `app/page.tsx`. There are three pieces:

- **`wrap`** folds an unbounded position into one period of a cycle. It applies
  JavaScript's `%` twice. That operator is a truncating remainder whose result
  takes the sign of the dividend (Number::remainder, section 6.1.6.1.6 of
  ECMA-262). The model defines it explicitly over `real` (`Numbers.Rem`), since
  Dafny's own `%` is Euclidean.
- **The velocity marquee** (`ParallaxText`) keeps a running position `baseX`,
  initially 0, and a direction ref, initially 1. On every animation frame it
  does four things in order:
  1. It computes the base move with the old direction.
  2. It sets the direction from the sign of the scroll-velocity factor, keeping
     it when the factor is 0.
  3. It adds a feedback term that uses the new direction.
  4. It adds the move to the position.

  The rendered offset is `wrap(-20, -45, baseX)` percent.
- **The magnetic button** (`MagneticButton`) has two fields. On pointer move it
  sets its offset `(x, y)` to 0.3 times the pointer's displacement from the
  centre of its bounding rectangle. On pointer leave it sets the offset to
  `(0, 0)`.

All numbers are Dafny `real`. This is an idealisation of JavaScript doubles.

Files: `numbers.dfy` (absolute value, integrality, truncation, the JS
remainder), `wrap.dfy` (module `Cyclic`), `parallax_text.dfy` (module
`ParallaxText`, class `Marquee`), `magnetic_button.dfy` (module
`MagneticButton`, class `Button`).

Each class keeps a ghost history of the inputs it has been given: frames for
the marquee, pointer events for the button. Its `Valid()` ties the real fields
to a pure fold over that history (`Position`/`Direction`, `Replay`). That way
the lemmas about the folds are lemmas about every reachable object state.

### Behaviour as the code has it

- `wrap` is usually described as returning a value in `[min, max)`. The only
  call passes the bounds reversed, `wrap(-20, -45, v)`, so `rangeSize` is
  negative. The first remainder `(v + 20) % -25` keeps the sign of `v + 20`
  and can be positive (it is 5 for `v = 10`). Adding `rangeSize` puts the second
  dividend in `(-50, 0)`, so the second remainder is never positive, and the
  result lies in `(-45, -20]`. The model proves the range for both signs. `CallSiteLowerBound`
  shows that -45 renders as -20.
- The feedback term `direction * moveBy * factor` is computed after the
  direction has been set from the sign of `factor`. So `direction * factor` is
  always `|factor|`. The term always amplifies the base move and never damps or
  reverses it within a frame, however negative the factor is. A change of
  direction shows only in the next frame's base move.
- `handleMouse` reads the bounding rectangle and does not check it. A
  zero-sized rectangle just makes its corner the centre. No event leaves the
  offset untouched.

## Model

| member | source | states |
|---|---|---|
| Numbers.Trunc | app/page.tsx:57 | the quotient JavaScript's `%` uses is rounded toward zero: within 1 of `x`, never past it, same sign |
| Numbers.Rem | app/page.tsx:57 | JS `a % b`: the result has the sign of `a`, has magnitude below `abs(b)`, and differs from `a` by a whole multiple of `b` |
| Cyclic.Wrap | app/page.tsx:55-58 | for `max > min` the result is in `[min, max)`; for `max < min` it is in `(max, min]`; either way it differs from `v` by a whole multiple of `max - min` |
| Cyclic.WrapShift | app/page.tsx:56-57 | the two remainders and the added `rangeSize` together shift the input by whole periods only |
| Cyclic.SamePeriodPoint | app/page.tsx:55-58 | two points of one period that differ by whole periods are equal |
| Cyclic.WrapUnique | app/page.tsx:55-58 | `wrap(v)` is the only point of the period congruent to `v` (an independent characterisation of `wrap`) |
| Cyclic.WrapPeriodic | app/page.tsx:55-58 | `wrap(v + k * (max - min)) == wrap(v)` for every integer `k` |
| Cyclic.ShiftKeepsCongruence | app/page.tsx:55-58 | shifting the input by whole periods keeps a value congruent to it |
| Cyclic.WrapFixesCycle | app/page.tsx:55-58 | a value already inside the period is returned unchanged |
| Cyclic.WrapIdempotent | app/page.tsx:55-58 | `wrap(wrap(v)) == wrap(v)` |
| ParallaxText.NextDirection | app/page.tsx:37-38 | the direction stays in `{-1, 1}`; the new direction times the factor is the factor's absolute value; a zero factor keeps the old direction |
| ParallaxText.Direction | app/page.tsx:34-38 | the direction starting from 1 stays in `{-1, 1}` after any sequence of frames |
| ParallaxText.FeedbackAmplifies | app/page.tsx:36-39 | the base move plus the feedback term equals the base move times `1 + abs(factor)` |
| ParallaxText.MoveAtLeastBase | app/page.tsx:36-39 | for `delta >= 0` a frame's move has the sign of old direction times base velocity and is at least `abs(baseVelocity) * delta / 1000` long |
| ParallaxText.StepFrames | app/page.tsx:36-40 | one more frame adds its move, taken with the direction held before it, to the position, and updates the direction from its factor |
| ParallaxText.DirectionDefault | app/page.tsx:34-38 | if every factor so far was 0 the direction is still its initial 1 |
| ParallaxText.DirectionOfLastNonZero | app/page.tsx:37-38 | the direction is the sign of the last nonzero factor; later zero factors do not reset it |
| ParallaxText.ZeroFactorDrift | app/page.tsx:26-40 | with factor 0 and a fixed `delta` on every frame, after `n` frames the position is `n * baseVelocity * delta / 1000` |
| ParallaxText.NegatedVelocity | app/page.tsx:36-40 | with the base velocity negated and the same frames, the position is negated after every frame |
| ParallaxText.CallSiteLowerBound | app/page.tsx:32 | at `wrap(-20, -45, _)` the bound -45 renders as -20, so the period is `(-45, -20]` |
| ParallaxText.CallSiteExample | app/page.tsx:32 | at `wrap(-20, -45, _)` the input 10 renders as -40 |
| ParallaxText.Marquee.constructor | app/page.tsx:25-34 | a new marquee is at position 0 with direction 1 and no frames |
| ParallaxText.Marquee.Step | app/page.tsx:35-41 | one frame, run in the callback's order: the direction becomes `NextDirection(old, factor)` and the position grows by `oldDir * baseVelocity * delta/1000 * (1 + abs(factor))`; the object invariant is kept |
| ParallaxText.Marquee.RenderedX | app/page.tsx:32 | the rendered offset lies in `(-45, -20]` and differs from `baseX` by a whole number of 25% periods |
| MagneticButton.Attraction | app/page.tsx:66-71 | the offset along an axis is zero exactly when the pointer is at the centre, is positive exactly when the pointer is past the centre, and is no longer than the pointer's displacement |
| MagneticButton.ReplaySnoc | app/page.tsx:66-74 | running one more handler applies it to the offset the earlier handlers left |
| MagneticButton.LatestEventDecides | app/page.tsx:66-74 | after a non-empty sequence of events the offset is what the last event alone sets, whatever it was before |
| MagneticButton.DisplacementScaled | app/page.tsx:69-71 | a pointer at centre plus `(dx, dy)` gives offset `(0.3 dx, 0.3 dy)`; at the centre, `(0, 0)` |
| MagneticButton.Button.constructor | app/page.tsx:63-64 | both motion values start at 0 |
| MagneticButton.Button.HandleMouse | app/page.tsx:66-72 | the offset becomes `0.3 * (client - centre)` per axis, with no dependence on the previous offset |
| MagneticButton.Button.Reset | app/page.tsx:74 | both offset components become 0 whatever they were |

## Left out

- Cyclic.Wrap: requires `max != min`. With equal bounds the source divides by zero and returns NaN, and NaN has no `real` counterpart.
- IEEE-754 doubles (rounding, NaN, Infinity): every number is an exact `real`.
- The velocity factor pipeline is not modelled: `useScroll`, `useVelocity`, `useSpring` (stiffness 400, damping 50) and the unclamped `useTransform` from `[0, 1000]` to `[0, 5]` (app/page.tsx:27-30). These are framer-motion library code. The factor is an arbitrary real input of each frame (`Frame.factor`).
- The spring `transition` of the button (stiffness 150, damping 15, mass 0.1, app/page.tsx:82) is not modelled. The button has no `animate`, variants or gesture props for that transition to apply to, and `reset` writes the motion values with `set`, so the offset jumps to `(0, 0)` at once, as in the model.
- `useAnimationFrame` scheduling, React refs, motion values and hooks are left out as mechanisms. One call of `Marquee.Step` is one tick, and the clock's `delta` is a parameter.
- The `%` string formatting of the marquee offset (app/page.tsx:32) and `toLocaleString` (app/page.tsx:194) are left out. `RenderedX` gives the number before formatting.
- The Supabase client and the `watches` fetch (app/page.tsx:6-9, 96-103) are network I/O.
- The hero's scroll-progress parallax `useTransform(scrollYProgress, [0, 1], [0, -50])` (app/page.tsx:94) is a framer-motion mapping with no logic of its own.
- All JSX rendering and layout (app/page.tsx:43-52, 76-87, 105-224).
