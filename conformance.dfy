/**
  Every tween agrees with the corresponding Penner equation, over the reals,
  for every range and time: a tween over `start..=end` is the equation with
  `b = start` and `c = end − start`.
 */
module Conformance {
  import opened Tween
  import Bounce
  import Cubic
  import Expo
  import Penner

  /** `t / (d/2)` is twice the percent of `d` elapsed at `t`. */
  lemma HalfDurationPercent(d: real, t: real)
    requires d != 0.0
    ensures t / (d / 2.0) == Percent(d, t) * 2.0
  {
    PercentScalesBack(d, t);
    assert (Percent(d, t) * 2.0) * (d / 2.0) == t;
  }

  lemma CubicInConforms(range: Range, duration: real, time: real)
    requires duration != 0.0
    ensures Cubic.In(New(range, duration), time)
         == Penner.CubicEaseIn(time, range.start, range.end - range.start, duration)
  {
  }

  lemma CubicOutConforms(range: Range, duration: real, time: real)
    requires duration != 0.0
    ensures Cubic.Out(New(range, duration), time)
         == Penner.CubicEaseOut(time, range.start, range.end - range.start, duration)
  {
  }

  lemma CubicInOutConforms(range: Range, duration: real, time: real)
    requires duration != 0.0
    ensures Cubic.InOut(Cubic.NewInOut(range, duration), time)
         == Penner.CubicEaseInOut(time, range.start, range.end - range.start, duration)
  {
    HalfDurationPercent(duration, time);
  }

  lemma BounceOutConforms(range: Range, duration: real, time: real)
    requires duration != 0.0
    ensures Bounce.Out(New(range, duration), time)
         == Penner.BounceEaseOut(time, range.start, range.end - range.start, duration)
  {
  }

  lemma BounceInConforms(range: Range, duration: real, time: real)
    requires duration != 0.0
    ensures Bounce.In(New(range, duration), time)
         == Penner.BounceEaseIn(time, range.start, range.end - range.start, duration)
  {
  }

  /**
    BounceInOut splits on the percent and the equation on the time; the two
    tests agree for a positive duration.
   */
  lemma BounceInOutConforms(range: Range, duration: real, time: real)
    requires 0.0 < duration
    ensures Bounce.InOut(New(range, duration), time)
         == Penner.BounceEaseInOut(time, range.start, range.end - range.start, duration)
  {
    PercentBelow(duration, time, 0.5);
  }

  lemma ExpoInConforms(range: Range, duration: real, pow2: real -> real, time: real)
    requires time == 0.0 || duration != 0.0
    ensures Expo.In(New(range, duration), pow2, time)
         == Penner.ExpoEaseIn(pow2, time, range.start, range.end - range.start, duration)
  {
  }

  lemma ExpoOutConforms(range: Range, duration: real, pow2: real -> real, time: real)
    requires time == duration || duration != 0.0
    ensures Expo.Out(New(range, duration), pow2, time)
         == Penner.ExpoEaseOut(pow2, time, range.start, range.end - range.start, duration)
  {
    if time != duration {
      assert -10.0 * time / duration == -10.0 * Percent(duration, time);
    }
  }

  lemma ExpoInOutConforms(range: Range, duration: real, pow2: real -> real, time: real)
    requires time == 0.0 || duration != 0.0
    ensures Expo.InOut(New(range, duration), pow2, time)
         == Penner.ExpoEaseInOut(pow2, time, range.start, range.end - range.start, duration)
  {
    if time != 0.0 && time != duration {
      HalfDurationPercent(duration, time);
    }
  }
}
