# Tween easing curves, modelled in Dafny

This project models the easing curves of the `tween` Rust crate: the
bounce, cubic and exponential families in `src/tweens/bounce.rs`,
`src/tweens/cubic.rs` and `src/tweens/expo.rs`. Each tween is a record
built once from an inclusive range `start..=end` and a duration. It caches
the value delta `end - start`, or half of it for CubicInOut. Given a time,
it returns `start + delta · multiplier(percent)`, where the percent is
`elapsed / duration`.

Values and times are `real`, so the value operations are exact:
`calculate_delta(a, b)` is `a - b`, `scale` is `*`, `add` is `+`, and
`percent(d, e)` is `e / d`.

Files:

- `tween.dfy` holds the shared vocabulary: `Range`, the `Tweener` record (a
  subset type that keeps `start + value_delta == end`, as the constructor leaves it),
  its constructor `New`, `Percent`, and small facts about percents.
- `bounce.dfy`, `cubic.dfy` and `expo.dfy` hold one module per family. Each
  has the curves as functions and the properties as lemmas.
- `penner.dfy` holds Robert Penner's easing equations in their customary
  `(t, b, c, d)` form. These are the reference the crate's tests compare
  the tweens against.
- `conformance.dfy` proves that every tween equals its Penner equation for
  every range and time.

The exponential tweens call a foreign power routine: `libm::pow` or
`f64::powf`, whichever backend the build selects. Both compute `2^x` of the
same argument, so a single function parameter `pow2: real -> real` models
both. Lemmas state what they need of `pow2` in their `requires`: `2^0 = 1`,
or for the bounds positivity and monotonicity as well.

Three points of the code are worth stating, since the model follows them
as written.

- **Cubic shapes.** CubicIn scales the delta by `p³` and CubicOut by
  `(p − 1)³ + 1`. These are Penner's cubic ease-in and ease-out
  (`Conformance.CubicInConforms`, `Conformance.CubicOutConforms`).
- **Expo guards.** ExpoIn tests `time == 0` and returns `start`. ExpoOut
  tests `time == duration` and returns `end`. ExpoInOut tests both, in that
  order.
- **Zero duration.** The code does not guard a zero duration: `percent`
  divides by it. So every curve that reaches the division requires a
  non-zero duration. The expo curves require it only where their guards let
  the division happen: for ExpoIn and ExpoInOut, `time == 0 || duration != 0`;
  for ExpoOut, `time == duration || duration != 0`.

## Model

| member | source | states |
|---|---|---|
| Tween.New | src/tweens/cubic.rs:16-23 | the record keeps the range and duration it was given, which `range()` and `duration()` return, and caches the delta `end − start`; every tweener keeps `start + delta == end`, since only the constructor sets its fields |
| Tween.Percent | src/tweens/bounce.rs:43 | the percent is 0 at time 0 and 1 at the duration |
| Tween.PercentInUnit | src/tweens/bounce.rs:43 | for a positive duration, a time in `[0, duration]` has a percent in [0, 1] |
| Tween.PercentOfRemaining | src/tweens/bounce.rs:15 | the percent of the time left is one minus the percent elapsed |
| Bounce.Multiplier | src/tweens/bounce.rs:45-57 | the shared stage multiplier, the function that each of the four copies in the source computes of its `t`, is 0 at `t = 0` and exactly 1 at `t = 1` |
| Bounce.StageShape | src/tweens/bounce.rs:4-7 | each stage is `MAGIC·(t − centre)² + floor`, reaching 1 at the edge of its reach, and its reach covers the stage interval given by the constants |
| Bounce.StagesJoin | src/tweens/bounce.rs:45-57 | at each stage boundary 1/2.75, 2/2.75, 2.5/2.75 both neighbouring stage formulas give 1 (no jump), and the last stage gives 1 at `t = 1` |
| Bounce.MultiplierBounds | src/tweens/bounce.rs:45-57 | on [0, 1] the multiplier lies in [0, 1] and never below the floor of its stage |
| Bounce.MultiplierSlope | src/tweens/bounce.rs:45-57 | on [0, 1] the multiplier changes by at most 5.5 per unit of `t`, across stage boundaries too, so it is continuous |
| Bounce.MultiplierSlopeAt | src/tweens/bounce.rs:43-57 | the same slope bound, read at two times of a positive duration |
| Bounce.Out | src/tweens/bounce.rs:42-60 | BounceOut is `start` at time 0 and `end` at the duration, and stays at `start` when the delta is 0 |
| Bounce.In | src/tweens/bounce.rs:13-35 | BounceIn is `start` at time 0 and `end` at the duration, and stays at `start` when the delta is 0 |
| Bounce.InOutFirstHalf | src/tweens/bounce.rs:71-93 | the first branch of BounceInOut is `start` at time 0, half way at half the duration, and stays at `start` when the delta is 0 |
| Bounce.InOutSecondHalf | src/tweens/bounce.rs:95-115 | the second branch of BounceInOut is half way at half the duration, `end` at the duration, and stays at `start` when the delta is 0 |
| Bounce.InOut | src/tweens/bounce.rs:67-117 | BounceInOut is `start` at 0, `end` at the duration, half way at half the duration, and stays at `start` when the delta is 0 |
| Bounce.InMirrorsOut | src/tweens/bounce.rs:13-35 | `BounceIn(x) = start + end − BounceOut(duration − x)` for every time |
| Bounce.InOutHalves | src/tweens/bounce.rs:67-117 | BounceInOut takes its first branch exactly when `2·time < duration`; that branch is a halved BounceIn of the doubled time, and the other a halved, lifted BounceOut of `2·time − duration` |
| Bounce.InOutMidpoint | src/tweens/bounce.rs:70-116 | at exactly half the duration the test `t < 0.5` fails, and both branch formulas give `start + delta/2` |
| Bounce.InOutNearMidpoint | src/tweens/bounce.rs:70-116 | near the midpoint, on both sides, BounceInOut departs from half way by exactly `delta/2 · MAGIC · (2p − 1)²`, below on the left and above on the right: no jump at the split |
| Bounce.OutWithinRange | src/tweens/bounce.rs:42-60 | for `start <= end` and a time in `[0, duration]`, BounceOut lies in the range |
| Bounce.InWithinRange | src/tweens/bounce.rs:13-35 | the same for BounceIn |
| Bounce.InOutWithinRange | src/tweens/bounce.rs:67-117 | the same for BounceInOut |
| Cubic.NewInOut | src/tweens/cubic.rs:112-120 | CubicInOut keeps its range and duration and caches half of `end − start`; every CubicInOut keeps `start + 2·half_delta == end` |
| Cubic.In | src/tweens/cubic.rs:34-41 | CubicIn is `start` at time 0 and `end` at the duration, and stays at `start` when the delta is 0 |
| Cubic.Out | src/tweens/cubic.rs:82-89 | CubicOut is `start` at time 0 and `end` at the duration, and stays at `start` when the delta is 0 |
| Cubic.InOutScalar | src/tweens/cubic.rs:134-139 | the scalar is 0 at `s = 0`, 1 at the split `s = 1`, and 2 at `s = 2` |
| Cubic.InOut | src/tweens/cubic.rs:131-142 | CubicInOut is `start` at 0, `end` at the duration, `start + half_delta` at half the duration, and stays at `start` when the half delta is 0 |
| Cubic.InHalfWay | src/tweens/cubic.rs:34-41 | over `0..=100` in 10 time units, CubicIn gives 12.5 at time 5 |
| Cubic.OutHalfWay | src/tweens/cubic.rs:82-89 | over `0..=100` in 10 time units, CubicOut gives 87.5 at time 5 |
| Cubic.InOutSamples | src/tweens/cubic.rs:131-142 | over `0..=100` in 10 time units, CubicInOut gives 0.4 at time 1 and 50 at time 5 |
| Cubic.OutMirrorsIn | src/tweens/cubic.rs:34-89 | `CubicOut(x) = start + end − CubicIn(duration − x)` for every time |
| Cubic.InOutHalves | src/tweens/cubic.rs:131-142 | for any non-zero duration, CubicInOut is a double-speed CubicIn over the lower half of the range while the percent elapsed is below one half, the source's own test, and a CubicOut over the upper half from then on |
| Cubic.ScalarNearSplit | src/tweens/cubic.rs:134-139 | on [0, 2] the scalar is within `3·|s − 1|` of 1, so the branches meet without a jump at `s = 1` |
| Cubic.ScalarBounds | src/tweens/cubic.rs:134-139 | on [0, 2] the scalar lies in [0, 2] |
| Cubic.InWithinRange | src/tweens/cubic.rs:34-41 | for `start <= end` and a time in `[0, duration]`, CubicIn lies in the range |
| Cubic.OutWithinRange | src/tweens/cubic.rs:82-89 | the same for CubicOut |
| Cubic.InOutWithinRange | src/tweens/cubic.rs:131-142 | the same for CubicInOut |
| Expo.In | src/tweens/expo.rs:8-23 | ExpoIn returns `start` at time exactly 0, whatever the power |
| Expo.Out | src/tweens/expo.rs:30-44 | ExpoOut returns `end` at time exactly the duration, whatever the power |
| Expo.InOutScalar | src/tweens/expo.rs:60-80 | if `2^0 = 1`, the ExpoInOut scalar of the doubled percent is one half at the split `t = 1` |
| Expo.InOut | src/tweens/expo.rs:51-85 | ExpoInOut returns `start` at time 0 and `end` at the duration, both decided before any arithmetic |
| Expo.GuardsIgnorePower | src/tweens/expo.rs:9-58 | at the guarded times two different power functions give the same result, so no power is consulted there |
| Expo.InAtDuration | src/tweens/expo.rs:12-21 | if `2^0 = 1`, ExpoIn's formula gives `end` at the duration |
| Expo.OutAtZero | src/tweens/expo.rs:35-42 | if `2^0 = 1`, ExpoOut's formula gives `start` at time 0 |
| Expo.InOutMidpoint | src/tweens/expo.rs:60-84 | if `2^0 = 1`, ExpoInOut is `start + delta/2` at half the duration, and both half formulas (the halved ExpoIn of the doubled time and the halved, lifted ExpoOut) give that value there: no jump at the split |
| Expo.ZeroDeltaStable | src/tweens/expo.rs:8-85 | when `start == end`, all three expo tweens return `start` at every time, whatever the power |
| Expo.OutMirrorsIn | src/tweens/expo.rs:8-44 | `ExpoOut(x) = start + end − ExpoIn(duration − x)` for every time and every power, the guards included |
| Expo.InOutHalves | src/tweens/expo.rs:51-85 | for any non-zero duration and at every time, the guards included, ExpoInOut is a halved ExpoIn of the doubled time while the percent elapsed is below one half, and a halved, lifted ExpoOut of `2·time − duration` from then on; at 0 and at the duration its guards agree with theirs |
| Expo.PowerAtMostOne | src/tweens/expo.rs:14-17 | a positive, non-decreasing power with `2^0 = 1` lies in (0, 1] at a non-positive argument |
| Expo.ScalarBounds | src/tweens/expo.rs:62-80 | for such a power the ExpoInOut scalar lies in [0, 1] on [0, 2] |
| Expo.InWithinRange | src/tweens/expo.rs:8-23 | for `start <= end`, such a power and a time in `[0, duration]`, ExpoIn lies in the range |
| Expo.OutWithinRange | src/tweens/expo.rs:30-44 | the same for ExpoOut |
| Expo.InOutWithinRange | src/tweens/expo.rs:51-85 | the same for ExpoInOut |
| Conformance.BounceInConforms | src/tweens/bounce.rs:126-138 | BounceIn equals Penner's bounce ease-in with `b = start`, `c = end − start`, at every time |
| Conformance.BounceOutConforms | src/tweens/bounce.rs:140-152 | BounceOut equals Penner's bounce ease-out at every time |
| Conformance.BounceInOutConforms | src/tweens/bounce.rs:154-166 | BounceInOut equals Penner's bounce ease-in-out at every time, for a positive duration |
| Conformance.CubicInConforms | src/tweens/cubic.rs:160-172 | CubicIn equals Penner's cubic ease-in at every time |
| Conformance.CubicOutConforms | src/tweens/cubic.rs:174-186 | CubicOut equals Penner's cubic ease-out at every time |
| Conformance.CubicInOutConforms | src/tweens/cubic.rs:188-200 | CubicInOut equals Penner's cubic ease-in-out at every time |
| Conformance.ExpoInConforms | src/tweens/expo.rs:94-106 | ExpoIn equals Penner's exponential ease-in at every time, for any power |
| Conformance.ExpoOutConforms | src/tweens/expo.rs:108-120 | ExpoOut equals Penner's exponential ease-out at every time, for any power |
| Conformance.ExpoInOutConforms | src/tweens/expo.rs:122-134 | ExpoInOut equals Penner's exponential ease-in-out at every time, for any power |

## Left out

- Floating-point rounding. The source computes in `f32`/`f64` and its tests
  compare results up to a few units in the last place. The model is exact
  over `real`. The conformance lemmas state the tests' comparison over the
  reals, not bit for bit.
- The `easer` crate is not part of this model. Penner's equations in
  `penner.dfy` are written from their customary published form.
- The power function itself. `pow2` is a parameter, and no lemma assumes
  more of it than `2^0 = 1`, positivity and monotonicity.
- The `TweenValue` and `TweenTime` traits, their implementations for the
  primitive types, the `Tween` trait and the generic type parameters. Values
  and times are both `real`.
- The `declare_tween!` macro is not part of this model. The bounce and expo
  tweens are taken to be built by it into the same record as `CubicIn::new`:
  range, `value_delta = end − start`, duration.
- Selecting `libm` or `std` with `cfg` features. Both compute `2^x`, and the
  one `pow2` parameter stands for either.
- `&mut self` on `run` and `update`. No body writes a field, so each is a
  pure function of the record and the time.
- The accessors `range()` and `duration()` are the record fields `range` and
  `duration`. `Tween.New` and `Cubic.NewInOut` state that those hold the
  constructor's arguments.
- A tween-level slope bound for the bounce curves is not stated. The bound
  for the multiplier (`Bounce.MultiplierSlope`) is, and each bounce tween is
  an affine image of the multiplier, as its definition shows.
- Bounce.InOutHalves, Conformance.BounceInOutConforms: require a positive
  duration. They state the split as a test on the time (`2·time < duration`),
  and with a negative duration the source's test on the percent and the test
  on the time go opposite ways. Cubic.InOutHalves and Expo.InOutHalves state
  the split as the source's own test on the percent and hold for any non-zero
  duration.
