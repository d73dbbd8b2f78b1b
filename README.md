# Circle dial angle-state engine

A Dafny model of the logic behind the circle dial. The dial draws a
globe seen from the front: the whole disc is cut into `N` meridian
bands (slices) over the longitudes [-90, 90], and a stick is drawn as
one meridian curve. The user sets a signed angle in [-90, 90] by
keyboard or slider. The dial stores this as an internal angle in
[0, 180] and works out which slices the stick lights up. The model
covers:

- `Js` (`js.dfy`): the JavaScript number semantics the code relies on,
  over exact reals:
  - `%` as the truncated remainder;
  - `Math.trunc` and `Math.round`;
  - `Number.POSITIVE_INFINITY` as an `Extended` value;
  - `null` as `Option`.
- `Angles` (`angles.dfy`): the pure angle utilities, with their range,
  symmetry, periodicity, fold and round-trip laws. `Mod360` (the
  Euclidean residue) is the reference definition that `Wrap360` is
  proved against.
- `ActiveSet` (`active_set.dfy`): the `compute` closure's loop, as the
  method `Scan` with its invariants.
  - The returned set is a sequence in insertion order (the order a
    JavaScript `Set` iterates in).
  - It is proved equal to the set-builder definition `Selected`: the
    slices close enough to the stick or its antipode, or else the
    earliest nearest slice alone.
  - `Scan` takes the distance function as a parameter. `Compute` passes
    `AngularDistance`.
- `SlicePaths` (`slice_paths.dfy`): the slice-list construction loop.
  - The SVG path string is an uninterpreted `BandPath` value, which
    records the arguments it was drawn from.
  - The lemmas prove the partition laws: the ends, contiguity, equal
    width, coverage with uniqueness, and centres consistent with the
    selector.
- `AngleHotkeys` (`angle_hotkeys.dfy`): the keydown decision. A key and
  the current signed angle give the setter calls made and whether
  `preventDefault` is called.
- `RafThrottle` (`raf_throttle.dfy`): the animation-frame throttle.
  - It is a class with the hook's refs as fields, the methods `Call`,
    `Fire` and `Teardown`, and a ghost log of the arguments applied.
  - Each method is tied to a pure transition function `Step`.
  - The coalescing and cancellation laws are proved over event
    sequences.
- `CircleDial` (`circle_dial.dfy`), the controller:
  - the initial state;
  - the two slider handlers;
  - the autoplay oscillator, as a class holding the direction, plus a
    pure `Oscillate` with a proof of its full 720-frame cycle;
  - the enter/exit diff of consecutive active sets with the callbacks
    it fires;
  - the live-region announcement;
  - the tracker class with the effect that recomputes the active set.

In the code, `normalizeSigned180` returns values in the half-open range
[-180, 180): an input of 180 gives -180. The model follows the code.

## Model

| member | source | states |
|---|---|---|
| Js.Trunc | src/components/circle-dial/utils/angles.ts:4 | the integer part rounds toward zero: within one of `x`, on the side of zero |
| Js.Round | src/components/CircleDial.tsx:152 | `Math.round(n)` is the integer `k` with `k - 0.5 <= n < k + 0.5` (halves round up) |
| Js.Rem | src/components/circle-dial/utils/angles.ts:4 | JavaScript `%` by a positive modulus: the remainder takes the dividend's sign and is smaller than the modulus in magnitude |
| Angles.Abs | src/components/circle-dial/utils/angles.ts:9 | `Math.abs` is non-negative and equal to `x` or `-x` |
| Angles.Wrap360 | src/components/circle-dial/utils/angles.ts:3-6 | the result is in [0, 360) and equals the Euclidean residue `a - 360*floor(a/360)`, so it differs from `a` by whole turns |
| Angles.SignCorrectedRem | src/components/circle-dial/utils/angles.ts:4-5 | adding 360 to a negative truncated remainder gives the Euclidean residue |
| Angles.Wrap360Unique | src/components/circle-dial/utils/angles.ts:3-6 | any `r` in [0, 360) with `x = r + 360k` is `wrap360(x)` |
| Angles.Wrap360Identity | src/components/circle-dial/utils/angles.ts:3-6 | wrap360 is the identity on [0, 360) |
| Angles.Wrap360Periodic | src/components/circle-dial/utils/angles.ts:3-6 | adding `k` whole turns leaves wrap360 unchanged |
| Angles.Wrap360Difference | src/components/circle-dial/utils/angles.ts:3-6 | wrap360(a - b) in terms of wrap360(a) and wrap360(b) |
| Angles.Wrap360Negate | src/components/circle-dial/utils/angles.ts:3-6 | wrap360(-a) is 0 when wrap360(a) is 0, and 360 - wrap360(a) otherwise |
| Angles.AngularDistance | src/components/circle-dial/utils/angles.ts:8-11 | the distance lies in [0, 180] |
| Angles.AngularDistanceIsFoldedDifference | src/components/circle-dial/utils/angles.ts:8-11 | angularDistance(a, b) = normalizeAngle180(a - b): it depends only on the difference |
| Angles.AngularDistanceSymmetric | src/components/circle-dial/utils/angles.ts:8-11 | angularDistance(a, b) = angularDistance(b, a) |
| Angles.AngularDistanceSelf | src/components/circle-dial/utils/angles.ts:8-11 | angularDistance(a, a) = 0 |
| Angles.AngularDistancePeriodic | src/components/circle-dial/utils/angles.ts:8-11 | whole turns added to an argument do not change the distance |
| Angles.NormalizeAngle180 | src/components/circle-dial/utils/angles.ts:13-20 | the fold lies in [0, 180] |
| Angles.NormalizeAngle180Examples | src/components/circle-dial/utils/angles.ts:15-19 | 200 goes to 160 (not 20), 181 to 179, and 0 and 180 to themselves |
| Angles.NormalizeAngle180Identity | src/components/circle-dial/utils/angles.ts:13-20 | the fold is the identity on [0, 180] |
| Angles.NormalizeAngle180Idempotent | src/components/circle-dial/utils/angles.ts:13-20 | folding twice is folding once |
| Angles.NormalizeAngle180Negate | src/components/circle-dial/utils/angles.ts:13-20 | an angle and its negation fold to the same value |
| Angles.NormalizeAngle180Periodic | src/components/circle-dial/utils/angles.ts:13-20 | angles whole turns apart fold to the same value |
| Angles.NormalizeAngle180IsDistanceFromZero | src/components/circle-dial/utils/angles.ts:8-20 | the fold is the angular distance from 0 |
| Angles.NormalizeSigned180 | src/components/circle-dial/utils/angles.ts:22-25 | the result is in [-180, 180) and equals wrap360(a + 180) - 180 |
| Angles.NormalizeSigned180Identity | src/components/circle-dial/utils/angles.ts:22-25 | the identity on [-180, 180) |
| Angles.NormalizeSigned180Idempotent | src/components/circle-dial/utils/angles.ts:22-25 | applying it twice is applying it once |
| Angles.ToInternalFromSigned | src/components/circle-dial/utils/angles.ts:28-30 | every signed angle maps into [0, 180] |
| Angles.ToSignedFromInternal | src/components/circle-dial/utils/angles.ts:32-34 | the result is in [-180, 180), and in [-90, 90] for an internal angle in [0, 180] |
| Angles.SignedRoundTrip | src/components/circle-dial/utils/angles.ts:28-34 | signed to internal and back is the identity on [-90, 90] |
| Angles.InternalRoundTrip | src/components/circle-dial/utils/angles.ts:28-34 | internal to signed and back is the identity on [0, 180] |
| Angles.Clamp | src/components/circle-dial/utils/angles.ts:36-38 | the result is in [min, max] when min <= max; a value inside is unchanged; below gives min, above gives max; when min > max the result is min |
| ActiveSet.IndicesWhereExactly | src/components/circle-dial/hooks/useActiveSet.ts:16-21 | the indices added by the loop are increasing, below `n`, and exactly those that satisfy the test |
| ActiveSet.FirstMinimum | src/components/circle-dial/hooks/useActiveSet.ts:22-25 | the running best index lies in [0, n) |
| ActiveSet.FirstMinimumIsEarliest | src/components/circle-dial/hooks/useActiveSet.ts:22-25 | the running minimum is the earliest minimiser: no index is nearer, and no earlier one is as near (strict `<`) |
| ActiveSet.ChosenExactly | src/components/circle-dial/hooks/useActiveSet.ts:16-27 | the scan's result is increasing; it holds exactly the qualifying indices when any qualify, and the fallback alone otherwise |
| ActiveSet.ChosenInRange | src/components/circle-dial/hooks/useActiveSet.ts:16-27 | the scan never returns an empty result, and with slices it returns only indices in [0, n) |
| ActiveSet.Lit | src/components/circle-dial/hooks/useActiveSet.ts:17-21 | a slice qualifies exactly when the stick or its antipode lies within Δ/2 - gap of the slice centre |
| ActiveSet.Selection | src/components/circle-dial/hooks/useActiveSet.ts:12-28 | the active set in insertion order is never empty, and for slices >= 1 holds only indices in [0, slices) |
| ActiveSet.Selected | src/components/circle-dial/hooks/useActiveSet.ts:27 | the active set is never empty, and for slices >= 1 every index is in [0, slices) |
| ActiveSet.Scan | src/components/circle-dial/hooks/useActiveSet.ts:13-28 | the loop returns the qualifying indices in order, or else the earliest minimiser of `dist1` (index 0 with no slices); the invariant carries `bestDist` = minimum so far and `bestIndex` attaining it |
| ActiveSet.Compute | src/components/circle-dial/hooks/useActiveSet.ts:10-31 | compute's result, in insertion order, is increasing, its elements are exactly `Selected`, and it is the fallback singleton when no slice qualifies |
| ActiveSet.SelectionIsSelected | src/components/circle-dial/hooks/useActiveSet.ts:10-31 | the ordered selection is increasing, has the elements of the set-builder definition, and is the fallback alone when nothing qualifies |
| ActiveSet.FallbackIsEarliestNearest | src/components/circle-dial/hooks/useActiveSet.ts:22-27 | the fallback slice is nearest to the stick by `dist1`, and every earlier slice is strictly farther |
| ActiveSet.SelectedWhenSomeQualify | src/components/circle-dial/hooks/useActiveSet.ts:17-21 | when one slice qualifies, the set is exactly { i in [0, N) \| min(dist to stick, dist to antipode) <= Δ/2 - gap } |
| ActiveSet.WideGapFallsBack | src/components/circle-dial/hooks/useActiveSet.ts:21-27 | a gap above Δ/2 always gives the fallback singleton |
| ActiveSet.SelectedThroughFold | src/components/circle-dial/hooks/useActiveSet.ts:12 | the set depends on the angle only through normalizeAngle180 |
| ActiveSet.SelectedPeriodic | src/components/circle-dial/hooks/useActiveSet.ts:12 | a and a + 360k give the same set |
| ActiveSet.SelectedMirror | src/components/circle-dial/hooks/useActiveSet.ts:12 | a and -a give the same set |
| ActiveSet.NoSlicesSelectsZero | src/components/circle-dial/hooks/useActiveSet.ts:14-27 | with no slices the loop never runs and the result is [0] |
| ActiveSet.CentreLights | src/components/circle-dial/hooks/useActiveSet.ts:17-21 | a stick pointing at a slice's centre lights that slice whenever gap <= Δ/2 |
| SlicePaths.SliceWidth | src/components/circle-dial/hooks/useSlicePaths.ts:17-18 | 180 / N is finite exactly when N is not 0, and for N > 0 it is positive and N widths make 180 |
| SlicePaths.SliceAt | src/components/circle-dial/hooks/useSlicePaths.ts:21-26 | slice i is 180/N wide, its centre angle is its longitude midpoint plus 90, and its outline is the band drawn over its own bounds with 72 samples |
| SlicePaths.BuildSlices | src/components/circle-dial/hooks/useSlicePaths.ts:17-31 | the returned step is 180/N; the list has N entries (none for N <= 0), entry i is slice i's record, and lambdaStart increases |
| SlicePaths.SliceOrder | src/components/circle-dial/hooks/useSlicePaths.ts:21-22 | a later slice starts strictly further east |
| SlicePaths.PartitionEnds | src/components/circle-dial/hooks/useSlicePaths.ts:22-23 | lambdaStart of slice 0 is -90 and lambdaEnd of slice N-1 is 90 |
| SlicePaths.Contiguous | src/components/circle-dial/hooks/useSlicePaths.ts:18-23 | lambdaEnd_i = lambdaStart_{i+1}, and each slice is 180/N wide |
| SlicePaths.CenterOfSlice | src/components/circle-dial/hooks/useSlicePaths.ts:17-24 | centerAngle_i lies in (0, 180), equals the λ-midpoint plus 90, and is the selector's centre iΔ + Δ/2 |
| SlicePaths.CoversUpTo | src/components/circle-dial/hooks/useSlicePaths.ts:21-23 | the first n slices cover [-90, -90 + n·180/N) |
| SlicePaths.Covers | src/components/circle-dial/hooks/useSlicePaths.ts:21-23 | every longitude in [-90, 90) lies in exactly one slice |
| AngleHotkeys.ArrowStep | src/components/circle-dial/hooks/useAngleHotkeys.ts:10-14 | the steps are Left -1, Right +1, Up -10 and Down +10; the step is non-zero exactly for the four arrows |
| AngleHotkeys.HandleKey | src/components/circle-dial/hooks/useAngleHotkeys.ts:9-30 | Home emits -90 and End emits 90 whatever the angle; an arrow emits clamp(current + step, -90, 90); an unrecognised key emits nothing and does not prevent the default; a key is recognised exactly when one call is made, and preventDefault iff one call; every value emitted is in [-90, 90] |
| AngleHotkeys.ArrowMovesBy | src/components/circle-dial/hooks/useAngleHotkeys.ts:25-26 | from inside the range an arrow moves by exactly its step, or stops at the nearer end, in the step's direction |
| AngleHotkeys.ArrowsSaturate | src/components/circle-dial/hooks/useAngleHotkeys.ts:26 | arrows pointing past an end stay at that end |
| AngleHotkeys.OppositeArrowsCancel | src/components/circle-dial/hooks/useAngleHotkeys.ts:11-26 | Left then Right, or Right then Left, returns to the start away from the ends |
| RafThrottle.Step | src/components/circle-dial/hooks/useRafThrottle.ts:8-25 | every event keeps the state valid; only a frame applies the function, to the latest arguments, clearing the handle; a call records its arguments and leaves a frame pending |
| RafThrottle.StepLaws | src/components/circle-dial/hooks/useRafThrottle.ts:8-25 | every event keeps the state valid; a call records its own arguments and schedules a frame only when none is pending (at most one pending); a frame applies the latest arguments exactly when its callback is queued, and clears the handle; teardown applies nothing and cancels the callback |
| RafThrottle.Calls | src/components/circle-dial/hooks/useRafThrottle.ts:8-9 | one call event per argument list, in order |
| RafThrottle.AppliedAppend | src/components/circle-dial/hooks/useRafThrottle.ts:8-25 | the applications and final state of a concatenated event sequence compose |
| RafThrottle.BurstOfCalls | src/components/circle-dial/hooks/useRafThrottle.ts:9-11 | calls apply nothing; after k >= 1 calls the last arguments are recorded and a frame is pending |
| RafThrottle.CallsThenFrame | src/components/circle-dial/hooks/useRafThrottle.ts:9-14 | from idle, k >= 1 calls and one frame apply the function exactly once, to the last call's arguments, leaving no frame pending |
| RafThrottle.TornDownStaysSilent | src/components/circle-dial/hooks/useRafThrottle.ts:10-22 | after teardown the handle stays set, so no later call schedules a frame and nothing is ever applied |
| RafThrottle.TeardownCancels | src/components/circle-dial/hooks/useRafThrottle.ts:20-25 | teardown with a frame pending means those arguments, and any later ones, are never applied |
| RafThrottle.Throttle.constructor | src/components/circle-dial/hooks/useRafThrottle.ts:4-5 | a fresh throttle is idle and has applied nothing |
| RafThrottle.Throttle.Call | src/components/circle-dial/hooks/useRafThrottle.ts:8-16 | the new state is `Step` of the old on a call; nothing is applied |
| RafThrottle.Throttle.Fire | src/components/circle-dial/hooks/useRafThrottle.ts:11-14 | the new state and the applied arguments are `Step` of the old on a frame, and the log grows by exactly that application |
| RafThrottle.Throttle.Teardown | src/components/circle-dial/hooks/useRafThrottle.ts:20-25 | the new state is `Step` of the old on teardown; nothing is applied |
| RafThrottle.CoalescedBurst | src/components/circle-dial/hooks/useRafThrottle.ts:9-14 | on a fresh throttle, a burst of calls and one fire log exactly the last arguments, with no frame left pending |
| CircleDial.InitialValue | src/components/CircleDial.tsx:51-54 | the slice count is min(max(12, minSlices), maxSlices): in [minSlices, maxSlices] when they are ordered, 12 when that fits, minSlices when 12 < minSlices <= maxSlices, maxSlices when maxSlices < 12 or they cross; the angle is in [0, 180] |
| CircleDial.InitialAngleShown | src/components/CircleDial.tsx:53 | an initial angle in [-90, 90] is the signed angle shown |
| CircleDial.SlicesChanged | src/components/CircleDial.tsx:150-156 | the count is max(minSlices, min(maxSlices, round(n))): in range when ordered, round(n) when inside, minSlices when round(n) is below it or the bounds cross, maxSlices when round(n) is above an ordered range; the angle is in [0, 180] |
| CircleDial.SlicesChangedExamples | src/components/CircleDial.tsx:152 | with bounds [2, 72], a request of 1000 gives 72, -5 gives 2, and 12.5 rounds to 13 |
| CircleDial.SlicesChangedKeepsAngle | src/components/CircleDial.tsx:153 | an angle already in [0, 180] is unchanged |
| CircleDial.AngleChanged | src/components/CircleDial.tsx:158-163 | the slice count is kept and the angle is in [0, 180] |
| CircleDial.AngleChangedShown | src/components/CircleDial.tsx:160 | a signed angle in [-90, 90] is the one then shown |
| CircleDial.Oscillate | src/components/CircleDial.tsx:131-140 | the angle always lands in [0, 180], and the direction is the old one or ±1 |
| CircleDial.OscillateLaws | src/components/CircleDial.tsx:131-140 | away from the ends the angle moves by exactly ±0.5 in the current direction; reaching >= 180 gives 180 going down, and <= 0 gives 0 going up |
| CircleDial.ReducedMotionFixed | src/components/CircleDial.tsx:131 | under reduced motion an angle in [0, 180] is a fixed point |
| CircleDial.SweepRises | src/components/CircleDial.tsx:128-143 | from 0 going up, frame k (k <= 360) is at k/2 degrees, turning round at 180 |
| CircleDial.SweepFalls | src/components/CircleDial.tsx:128-143 | frames 360 to 720 fall half a degree each, back to 0, where it turns up |
| CircleDial.SweepPeriod | src/components/CircleDial.tsx:128-143 | the autoplay cycle repeats after 720 frames |
| CircleDial.Autoplay.constructor | src/components/CircleDial.tsx:127-144 | the effect starts going up with a frame requested |
| CircleDial.Autoplay.Step | src/components/CircleDial.tsx:129-143 | runs only while a frame is requested and not cancelled; the committed angle and new direction are `Oscillate` of the current angle and old direction; the slice count is kept and the next frame is requested |
| CircleDial.Autoplay.Stop | src/components/CircleDial.tsx:145-147 | cleanup cancels the outstanding frame, after which `Step` can no longer be called, so nothing more is committed |
| CircleDial.Without | src/components/CircleDial.tsx:93-94 | filtering never lengthens the list |
| CircleDial.WithoutElements | src/components/CircleDial.tsx:93-94 | the filter keeps exactly the elements of the first list outside the second |
| CircleDial.WithoutIncreasing | src/components/CircleDial.tsx:93-94 | filtering an increasing list leaves it increasing |
| CircleDial.Entered | src/components/CircleDial.tsx:93 | the entered list holds exactly the slices in the new set that were not in the previous one |
| CircleDial.Exited | src/components/CircleDial.tsx:94 | the exited list holds exactly the slices in the previous set that are not in the new one |
| CircleDial.DiffLaws | src/components/CircleDial.tsx:93-94 | entered = new \ prev and exited = prev \ new; they are disjoint; entered together with prev ∩ new makes up new |
| CircleDial.Activations | src/components/CircleDial.tsx:95 | one activation per entered slice, in order |
| CircleDial.Deactivations | src/components/CircleDial.tsx:96 | one deactivation per exited slice, in order |
| CircleDial.Notices | src/components/CircleDial.tsx:95-96 | every activation fired is of an entered slice and needs the activate callback; every deactivation is of an exited slice and needs the deactivate callback |
| CircleDial.NoticesOrdered | src/components/CircleDial.tsx:95-96 | every activation fires before every deactivation; with both callbacks, the entered slices then the exited ones, each in order |
| CircleDial.Announce | src/components/CircleDial.tsx:100-108 | the live region names a slice exactly when the set is non-empty; the slice named, counted from 1, is in the set, out of the slice count |
| CircleDial.StepFor | src/components/CircleDial.tsx:74-85 | the step handed to the selector is the slice width: positive with N steps making 180 when N > 0 |
| CircleDial.AnnouncesLowest | src/components/CircleDial.tsx:100-105 | the announced slice is the lowest active one, counted from 1, in [1, slices], out of the slice count |
| CircleDial.ActiveTracker.constructor | src/components/CircleDial.tsx:91 | the tracker starts from the given active set |
| CircleDial.ActiveTracker.Sync | src/components/CircleDial.tsx:89-109 | the new active set is the selection for the state; the callbacks fired are the notices for the change from the previous set; the announcement is of the first active slice and is never empty |

## Left out

- geometry.ts (`meridianBandPath` and the polar projection) is not part of this model. Slice outlines are the uninterpreted `BandPath` value, so the sine/cosine numerics and the SVG path text are not modelled.
- The React machinery is left out: `useState`, `useEffect`, `useMemo`, `useCallback`, refs and the re-render schedule. Each effect or handler is a function or method called explicitly.
- The controlled mode (`value` with `onChange`) is left out: `setState` is modelled as committing the returned value.
- `requestAnimationFrame` and `cancelAnimationFrame` become explicit events: `Fire`, `Teardown` and `Autoplay.Stop`. Frame timing is not modelled.
- The autoplay handle `raf` is a boolean. A handle id of 0 would be falsy and skip the cancel; this is not modelled.
- RafThrottle.Throttle: the wrapped `fn` is not called. The ghost `applied` log records its arguments instead, and `fn` is taken to be the one captured when the hook was created.
- The keydown listener's registration and removal on `document` are I/O and are left out. `HandleKey` models the handler's decision only.
- Slice counts (`slices`, `minSlices`, `maxSlices`) are integers in the model, where the code takes any `number`. A fractional `minSlices` or `maxSlices` passes through `Math.max`/`Math.min` unrounded, and the loops `i < slices` then run to the next integer; this is not modelled.
- The live-region DOM text is the `Announcement` datatype rather than a string.
- Numbers are exact reals. IEEE-754 rounding, NaN and the infinities other than the `+Infinity` starting value of `bestDist` are not modelled.
- CircleDial.StepFor: with zero slices JavaScript computes an infinite step. The model passes 0 instead, since the selector's loop never runs and the step is not used.
- ActiveSet.SelectionIsSelected: the selection is the fallback singleton whenever no slice qualifies, but not only then, since a single qualifying slice can also be the fallback. It states only the forward direction, which is all that holds.
- CircleSlices.tsx, Stick.tsx, the pages, routing, the colour constants and the audio visualiser are presentation and are left out.
