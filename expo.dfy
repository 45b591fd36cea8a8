/**
  The exponential family. Each tween first compares the time for exact
  equality with zero or with the duration and returns an end of the range
  there without any power; only at other times does it scale the delta by a
  power of two of the percent elapsed.

  The power `2^x` is a transcendental computed by a foreign routine (libm's
  `pow` or the standard `powf`, whichever backend is built; both compute
  `2^x` of the same argument), so it is a parameter `pow2` here. What a
  property needs of it is stated in that property's `requires`.
 */
module Expo {
  import opened Tween

  /** ExpoIn: `start` at time zero, otherwise the delta scaled by `2^(10·(p − 1))`. */
  function In(tw: Tweener, pow2: real -> real, time: real): (r: real)
    requires time == 0.0 || tw.duration != 0.0
    ensures time == 0.0 ==> r == tw.range.start
  {
    if time == 0.0 then
      tw.range.start
    else
      var percentTime := 10.0 * (Percent(tw.duration, time) - 1.0);
      var scalar := pow2(percentTime);
      tw.valueDelta * scalar + tw.range.start
  }

  /** ExpoOut: `end` at the duration, otherwise the delta scaled by `1 − 2^(−10·p)`. */
  function Out(tw: Tweener, pow2: real -> real, time: real): (r: real)
    requires time == tw.duration || tw.duration != 0.0
    ensures time == tw.duration ==> r == tw.range.end
  {
    if time == tw.duration then
      tw.range.end
    else
      var powf := pow2(-10.0 * Percent(tw.duration, time));
      tw.valueDelta * (1.0 - powf) + tw.range.start
  }

  /**
    The ExpoInOut scalar of the doubled percent `t`: half of `2^(10·(t − 1))`
    below the split `t = 1`, and half of `2 − 2^(−10·(t − 1))` from it on.
   */
  function InOutScalar(pow2: real -> real, t: real): (r: real)
    ensures pow2(0.0) == 1.0 && t == 1.0 ==> r == 0.5
  {
    if t < 1.0 then
      var scalar := pow2(10.0 * (t - 1.0));
      scalar / 2.0
    else
      var t := t - 1.0;
      var scalar := pow2(-10.0 * t);
      (2.0 - scalar) / 2.0
  }

  /** ExpoInOut: `start` at time zero, `end` at the duration, the scaled delta between. */
  function InOut(tw: Tweener, pow2: real -> real, time: real): (r: real)
    requires time == 0.0 || tw.duration != 0.0
    ensures time == 0.0 ==> r == tw.range.start
    ensures time != 0.0 && time == tw.duration ==> r == tw.range.end
  {
    if time == 0.0 then
      tw.range.start
    else if time == tw.duration then
      tw.range.end
    else
      var t := Percent(tw.duration, time) * 2.0;
      var powf := InOutScalar(pow2, t);
      tw.valueDelta * powf + tw.range.start
  }

  // ---------------------------------------------------------------------------
  // The guards decide the ends, whatever the power
  // ---------------------------------------------------------------------------

  /**
    At the guarded times no power is consulted: two different power
    functions give the same result there, the guarded end of the range.
   */
  lemma GuardsIgnorePower(tw: Tweener, f: real -> real, g: real -> real)
    ensures In(tw, f, 0.0) == In(tw, g, 0.0) == tw.range.start
    ensures Out(tw, f, tw.duration) == Out(tw, g, tw.duration) == tw.range.end
    ensures InOut(tw, f, 0.0) == InOut(tw, g, 0.0) == tw.range.start
    ensures InOut(tw, f, tw.duration) == InOut(tw, g, tw.duration)
    ensures tw.duration != 0.0 ==> InOut(tw, f, tw.duration) == tw.range.end
  {
  }

  /** With `2^0 = 1`, ExpoIn reaches `end` at the duration, through its formula. */
  lemma InAtDuration(tw: Tweener, pow2: real -> real)
    requires tw.duration != 0.0 && pow2(0.0) == 1.0
    ensures In(tw, pow2, tw.duration) == tw.range.end
  {
  }

  /** With `2^0 = 1`, ExpoOut is at `start` at time zero, through its formula. */
  lemma OutAtZero(tw: Tweener, pow2: real -> real)
    requires tw.duration != 0.0 && pow2(0.0) == 1.0
    ensures Out(tw, pow2, 0.0) == tw.range.start
  {
  }

  /**
    With `2^0 = 1`, ExpoInOut is half way at half the duration, and both
    halves reach that value there: the first-half formula (a halved ExpoIn of
    the doubled time) and the second-half formula (a halved, lifted ExpoOut of
    the doubled time less one duration). There is no jump at the split.
   */
  lemma InOutMidpoint(tw: Tweener, pow2: real -> real, time: real)
    requires tw.duration != 0.0 && pow2(0.0) == 1.0 && time * 2.0 == tw.duration
    ensures InOut(tw, pow2, time) == tw.range.start + tw.valueDelta * 0.5
    ensures tw.range.start + (In(tw, pow2, time * 2.0) - tw.range.start) * 0.5
         == tw.range.start + tw.valueDelta * 0.5
    ensures tw.range.start + tw.valueDelta * 0.5 + (Out(tw, pow2, time * 2.0 - tw.duration) - tw.range.start) * 0.5
         == tw.range.start + tw.valueDelta * 0.5
  {
    PercentUnique(tw.duration, time, 0.5);
    InAtDuration(tw, pow2);
    OutAtZero(tw, pow2);
  }

  /** If the range is a single value, every expo tween stays at it, whatever the power. */
  lemma ZeroDeltaStable(range: Range, duration: real, pow2: real -> real, time: real)
    requires range.start == range.end && duration != 0.0
    ensures In(New(range, duration), pow2, time) == range.start
    ensures Out(New(range, duration), pow2, time) == range.start
    ensures InOut(New(range, duration), pow2, time) == range.start
  {
  }

  // ---------------------------------------------------------------------------
  // Symmetry and the split of ExpoInOut
  // ---------------------------------------------------------------------------

  /** ExpoOut is ExpoIn mirrored in time and in value, for any power; the guards mirror each other too. */
  lemma OutMirrorsIn(range: Range, duration: real, pow2: real -> real, time: real)
    requires duration != 0.0
    ensures Out(New(range, duration), pow2, time)
         == range.start + range.end - In(New(range, duration), pow2, duration - time)
  {
    PercentOfRemaining(duration, time);
    var tw := New(range, duration);
    var p := Percent(duration, time);
    assert 10.0 * (Percent(duration, duration - time) - 1.0) == -10.0 * p;
    var e := pow2(-10.0 * p);
    assert tw.valueDelta * (1.0 - e) == tw.valueDelta - tw.valueDelta * e;
  }

  /**
    At every time, ExpoInOut is an ExpoIn on the doubled time, scaled to half
    the range, while less than half the duration has elapsed, and an ExpoOut
    on the doubled time less one duration, scaled to half the range and
    lifted by half the delta, from then on; for any power. At the two guarded
    times the guards of ExpoInOut agree with those of ExpoIn and ExpoOut.
   */
  lemma InOutHalves(range: Range, duration: real, pow2: real -> real, time: real)
    requires duration != 0.0
    ensures var tw := New(range, duration);
      && (Percent(duration, time) < 0.5 ==> InOut(tw, pow2, time) == range.start + (In(tw, pow2, time * 2.0) - range.start) * 0.5)
      && (0.5 <= Percent(duration, time) ==>
           InOut(tw, pow2, time) == range.start + tw.valueDelta * 0.5 + (Out(tw, pow2, time * 2.0 - duration) - range.start) * 0.5)
  {
    if time != 0.0 && time != duration {
      var tw := New(range, duration);
      var delta := tw.valueDelta;
      PercentOfDoubled(duration, time);
      PercentOfShifted(duration, time * 2.0);
      var t := Percent(duration, time * 2.0);
      var a, b := pow2(10.0 * (t - 1.0)), pow2(-10.0 * (t - 1.0));
      assert delta * (a / 2.0) == (delta * a) * 0.5;
      assert delta * ((2.0 - b) / 2.0) == delta * 0.5 + (delta * (1.0 - b)) * 0.5;
    }
  }

  // ---------------------------------------------------------------------------
  // Bounds, for a power that behaves like 2^x
  // ---------------------------------------------------------------------------

  /** What the bounds need of the power: positive, non-decreasing, and 1 at 0. */
  ghost predicate PowerLike(pow2: real -> real)
  {
    && pow2(0.0) == 1.0
    && (forall x :: 0.0 < pow2(x))
    && (forall x, y :: x <= y ==> pow2(x) <= pow2(y))
  }

  /** A power like 2^x lies in (0, 1] at a non-positive argument. */
  lemma PowerAtMostOne(pow2: real -> real, x: real)
    requires PowerLike(pow2) && x <= 0.0
    ensures 0.0 < pow2(x) <= 1.0
  {
    assert pow2(x) <= pow2(0.0);
  }

  /** For an increasing range and a power like 2^x, ExpoIn stays within the range over the duration. */
  lemma InWithinRange(range: Range, duration: real, pow2: real -> real, time: real)
    requires 0.0 < duration && 0.0 <= time <= duration && range.start <= range.end
    requires PowerLike(pow2)
    ensures range.start <= In(New(range, duration), pow2, time) <= range.end
  {
    if time != 0.0 {
      PercentInUnit(duration, time);
      var k := pow2(10.0 * (Percent(duration, time) - 1.0));
      PowerAtMostOne(pow2, 10.0 * (Percent(duration, time) - 1.0));
      ScaledWithinRange(In(New(range, duration), pow2, time), range, k);
    }
  }

  /** For an increasing range and a power like 2^x, ExpoOut stays within the range over the duration. */
  lemma OutWithinRange(range: Range, duration: real, pow2: real -> real, time: real)
    requires 0.0 < duration && 0.0 <= time <= duration && range.start <= range.end
    requires PowerLike(pow2)
    ensures range.start <= Out(New(range, duration), pow2, time) <= range.end
  {
    if time != duration {
      PercentInUnit(duration, time);
      var k := pow2(-10.0 * Percent(duration, time));
      PowerAtMostOne(pow2, -10.0 * Percent(duration, time));
      ScaledWithinRange(Out(New(range, duration), pow2, time), range, 1.0 - k);
    }
  }

  /** For a power like 2^x, the ExpoInOut scalar of a doubled percent lies in [0, 1]. */
  lemma ScalarBounds(pow2: real -> real, t: real)
    requires PowerLike(pow2) && 0.0 <= t <= 2.0
    ensures 0.0 <= InOutScalar(pow2, t) <= 1.0
  {
    if t < 1.0 {
      PowerAtMostOne(pow2, 10.0 * (t - 1.0));
    } else {
      PowerAtMostOne(pow2, -10.0 * (t - 1.0));
    }
  }

  /** For an increasing range and a power like 2^x, ExpoInOut stays within the range over the duration. */
  lemma InOutWithinRange(range: Range, duration: real, pow2: real -> real, time: real)
    requires 0.0 < duration && 0.0 <= time <= duration && range.start <= range.end
    requires PowerLike(pow2)
    ensures range.start <= InOut(New(range, duration), pow2, time) <= range.end
  {
    if time != 0.0 && time != duration {
      PercentInUnit(duration, time);
      var t := Percent(duration, time) * 2.0;
      ScalarBounds(pow2, t);
      ScaledWithinRange(InOut(New(range, duration), pow2, time), range, InOutScalar(pow2, t));
    }
  }
}
