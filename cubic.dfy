/**
  The cubic family. CubicIn scales the whole delta by `p³`, CubicOut by
  `(p − 1)³ + 1`, and CubicInOut keeps half the delta and scales it by a
  scalar that runs `s³` up to `s = 2p = 1` and `(s − 2)³ + 2` after it.
 */
module Cubic {
  import opened Tween

  /** The record behind CubicInOut: the range, the cached `half_delta` and the duration. */
  datatype HalfTweenRecord = HalfTweenRecord(range: Range, halfDelta: real, duration: real)

  /** A CubicInOut as its constructor leaves it: two half deltas take `start` to `end`. */
  type HalfTweener = tw: HalfTweenRecord | tw.range.start + tw.halfDelta * 2.0 == tw.range.end
    witness HalfTweenRecord(Range(0.0, 0.0), 0.0, 1.0)

  /** Builds a CubicInOut; the cached half delta is half of what takes `start` to `end`. */
  function NewInOut(range: Range, duration: real): (tw: HalfTweener)
    ensures tw.range == range && tw.duration == duration
    ensures tw.halfDelta == (range.end - range.start) * 0.5
  {
    var valueDelta := range.end - range.start;
    HalfTweenRecord(range, valueDelta * 0.5, duration)
  }

  /** CubicIn: the delta scaled by the cube of the percent elapsed. */
  function In(tw: Tweener, time: real): (r: real)
    requires tw.duration != 0.0
    ensures time == 0.0 ==> r == tw.range.start
    ensures time == tw.duration ==> r == tw.range.end
    ensures tw.valueDelta == 0.0 ==> r == tw.range.start
  {
    var p := Percent(tw.duration, time);
    tw.valueDelta * (p * p * p) + tw.range.start
  }

  /** CubicOut: the delta scaled by `(p − 1)³ + 1`. */
  function Out(tw: Tweener, time: real): (r: real)
    requires tw.duration != 0.0
    ensures time == 0.0 ==> r == tw.range.start
    ensures time == tw.duration ==> r == tw.range.end
    ensures tw.valueDelta == 0.0 ==> r == tw.range.start
  {
    var p := Percent(tw.duration, time) - 1.0;
    tw.valueDelta * (p * p * p + 1.0) + tw.range.start
  }

  /**
    The CubicInOut scalar of the doubled percent `s`: 0 at the start, 1 at
    the split `s = 1`, 2 at the end.
   */
  function InOutScalar(s: real): (r: real)
    ensures s == 0.0 ==> r == 0.0
    ensures s == 1.0 ==> r == 1.0
    ensures s == 2.0 ==> r == 2.0
  {
    if s < 1.0 then
      s * s * s
    else
      var p := s - 2.0;
      p * p * p + 2.0
  }

  /** CubicInOut: the half delta scaled by the scalar of the doubled percent. */
  function InOut(tw: HalfTweener, time: real): (r: real)
    requires tw.duration != 0.0
    ensures time == 0.0 ==> r == tw.range.start
    ensures time == tw.duration ==> r == tw.range.end
    ensures time * 2.0 == tw.duration ==> r == tw.range.start + tw.halfDelta
    ensures tw.halfDelta == 0.0 ==> r == tw.range.start
  {
    var s := Percent(tw.duration, time) * 2.0;
    PercentMidpoint(tw.duration, time);
    tw.halfDelta * InOutScalar(s) + tw.range.start
  }

  lemma PercentMidpoint(duration: real, time: real)
    requires duration != 0.0
    ensures time * 2.0 == duration ==> Percent(duration, time) * 2.0 == 1.0
  {
    if time * 2.0 == duration {
      PercentUnique(duration, time, 0.5);
    }
  }

  // ---------------------------------------------------------------------------
  // Sample values
  // ---------------------------------------------------------------------------

  /** Over 0..=100 in 10 time units, CubicIn is at 12.5 half way through. */
  lemma InHalfWay()
    ensures In(New(Range(0.0, 100.0), 10.0), 5.0) == 12.5
  {
    assert Percent(10.0, 5.0) == 0.5;
  }

  /** Over 0..=100 in 10 time units, CubicOut is at 87.5 half way through. */
  lemma OutHalfWay()
    ensures Out(New(Range(0.0, 100.0), 10.0), 5.0) == 87.5
  {
    assert Percent(10.0, 5.0) == 0.5;
  }

  /** Over 0..=100 in 10 time units, CubicInOut is at 0.4 after 1 unit and at 50 half way through. */
  lemma InOutSamples()
    ensures InOut(NewInOut(Range(0.0, 100.0), 10.0), 1.0) == 0.4
    ensures InOut(NewInOut(Range(0.0, 100.0), 10.0), 5.0) == 50.0
  {
    assert Percent(10.0, 1.0) == 0.1;
  }

  // ---------------------------------------------------------------------------
  // Symmetry and the split of CubicInOut
  // ---------------------------------------------------------------------------

  lemma CubeOfNegation(x: real)
    ensures (-x) * (-x) * (-x) == -(x * x * x)
  {
    assert (-x) * (-x) == x * x;
  }

  /** The second branch of the scalar is the first reflected through (1, 1). */
  lemma ReflectedCube(s: real)
    ensures (s - 2.0) * (s - 2.0) * (s - 2.0) + 2.0 == 2.0 - (2.0 - s) * (2.0 - s) * (2.0 - s)
  {
    CubeOfNegation(2.0 - s);
  }

  /** CubicOut is CubicIn mirrored in time and in value. */
  lemma OutMirrorsIn(range: Range, duration: real, time: real)
    requires duration != 0.0
    ensures Out(New(range, duration), time)
         == range.start + range.end - In(New(range, duration), duration - time)
  {
    var p := Percent(duration, time);
    PercentOfRemaining(duration, time);
    var delta := range.end - range.start;
    var q := p - 1.0;
    CubeOfNegation(q);
    assert delta * (q * q * q + 1.0) == delta - delta * ((-q) * (-q) * (-q));
  }

  /**
    CubicInOut is a CubicIn over the lower half of the range while less than
    half the duration has elapsed, run at double speed, and a CubicOut over
    the upper half of the range from then on.
   */
  lemma InOutHalves(range: Range, duration: real, time: real)
    requires duration != 0.0
    ensures var tw := NewInOut(range, duration);
      var mid := range.start + tw.halfDelta;
      && mid + tw.halfDelta == range.end
      && (Percent(duration, time) < 0.5 ==> InOut(tw, time) == In(New(Range(range.start, mid), duration), time * 2.0))
      && (0.5 <= Percent(duration, time) ==> InOut(tw, time) == Out(New(Range(mid, range.end), duration), time * 2.0 - duration))
  {
    var tw := NewInOut(range, duration);
    var h := tw.halfDelta;
    PercentOfDoubled(duration, time);
    PercentOfShifted(duration, time * 2.0);
    var s := Percent(duration, time * 2.0);
    assert h * ((s - 1.0 - 1.0) * (s - 1.0 - 1.0) * (s - 1.0 - 1.0) + 1.0) + range.start + h
        == h * ((s - 2.0) * (s - 2.0) * (s - 2.0) + 2.0) + range.start;
  }

  /**
    At the split the second branch of the scalar is taken and gives 1, and
    the scalar comes no further from 1 than three times the distance of `s`
    from the split: the two branches meet without a jump.
   */
  lemma ScalarNearSplit(s: real)
    requires 0.0 <= s <= 2.0
    ensures Abs(InOutScalar(s) - 1.0) <= 3.0 * Abs(s - 1.0)
  {
    if s < 1.0 {
      var u := 1.0 - s;
      assert 1.0 - s * s * s == u * (1.0 + s + s * s);
      CubeInUnit(s);
      ProductAtMost(u, 1.0 + s + s * s, 3.0);
    } else {
      var u := 2.0 - s;
      ReflectedCube(s);
      var c := u * u * u;
      assert InOutScalar(s) - 1.0 == 1.0 - c;
      assert 1.0 - c == (1.0 - u) * (1.0 + u + u * u);
      CubeInUnit(u);
      ProductAtMost(1.0 - u, 1.0 + u + u * u, 3.0);
    }
  }

  lemma ProductAtMost(x: real, y: real, bound: real)
    requires 0.0 <= x && 0.0 <= y <= bound
    ensures 0.0 <= x * y <= x * bound
  {
    assert x * (bound - y) >= 0.0;
  }

  // ---------------------------------------------------------------------------
  // Bounds
  // ---------------------------------------------------------------------------

  lemma CubeInUnit(x: real)
    requires 0.0 <= x <= 1.0
    ensures 0.0 <= x * x <= x && 0.0 <= x * x * x <= x <= 1.0
  {
    assert 0.0 <= x * x <= x;
    assert x * x * x <= x * x;
  }

  /** On [0, 2] the CubicInOut scalar stays in [0, 2]. */
  lemma ScalarBounds(s: real)
    requires 0.0 <= s <= 2.0
    ensures 0.0 <= InOutScalar(s) <= 2.0
  {
    if s < 1.0 {
      CubeInUnit(s);
    } else {
      var u := 2.0 - s;
      CubeInUnit(u);
      ReflectedCube(s);
      var c := u * u * u;
      assert InOutScalar(s) == 2.0 - c;
      assert 0.0 <= c <= 1.0;
    }
  }

  /** For an increasing range CubicIn stays within it over the duration. */
  lemma InWithinRange(range: Range, duration: real, time: real)
    requires 0.0 < duration && 0.0 <= time <= duration && range.start <= range.end
    ensures range.start <= In(New(range, duration), time) <= range.end
  {
    PercentInUnit(duration, time);
    var p := Percent(duration, time);
    CubeInUnit(p);
    ScaledWithinRange(In(New(range, duration), time), range, p * p * p);
  }

  /** For an increasing range CubicOut stays within it over the duration. */
  lemma OutWithinRange(range: Range, duration: real, time: real)
    requires 0.0 < duration && 0.0 <= time <= duration && range.start <= range.end
    ensures range.start <= Out(New(range, duration), time) <= range.end
  {
    PercentInUnit(duration, time);
    var q := Percent(duration, time) - 1.0;
    CubeInUnit(-q);
    CubeOfNegation(-q);
    assert -q == 1.0 - Percent(duration, time);
    ScaledWithinRange(Out(New(range, duration), time), range, q * q * q + 1.0);
  }

  /** For an increasing range CubicInOut stays within it over the duration. */
  lemma InOutWithinRange(range: Range, duration: real, time: real)
    requires 0.0 < duration && 0.0 <= time <= duration && range.start <= range.end
    ensures range.start <= InOut(NewInOut(range, duration), time) <= range.end
  {
    var tw := NewInOut(range, duration);
    PercentInUnit(duration, time);
    var s := Percent(duration, time) * 2.0;
    ScalarBounds(s);
    var k := InOutScalar(s);
    assert tw.halfDelta * k == (range.end - range.start) * (k * 0.5);
    ScaledWithinRange(InOut(tw, time), range, k * 0.5);
  }
}
