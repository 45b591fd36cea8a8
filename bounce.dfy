/**
  The bounce family: a four-stage piecewise parabola, `MAGIC·(t − centre)² + floor`
  per stage, with `MAGIC = 7.5625 = 2.75²`. BounceOut applies it to the percent
  elapsed, BounceIn mirrors it in time and value, and BounceInOut runs a halved
  BounceIn on the first half of the duration and a halved BounceOut on the second.
 */
module Bounce {
  import opened Tween

  const Magic: real := 7.5625
  const StageZero: real := 1.0 / 2.75
  const StageOne: real := 2.0 / 2.75
  const StageTwo: real := 2.5 / 2.75

  /** Bound on the slope of the multiplier over [0, 1]: `2 · MAGIC / 2.75`. */
  const Slope: real := 5.5

  type StageIndex = k: nat | k < 4

  /** The stage a percent falls in, by the same strict comparisons as the source. */
  function StageOf(t: real): (k: StageIndex)
  {
    if t < StageZero then 0
    else if t < StageOne then 1
    else if t < StageTwo then 2
    else 3
  }

  /** The parabola of stage `k`, written as each branch of the source writes it. */
  function Stage(k: StageIndex, t: real): (r: real)
  {
    if k == 0 then
      Magic * t * t
    else if k == 1 then
      var t := t - 1.5 / 2.75;
      Magic * t * t + 0.75
    else if k == 2 then
      var t := t - 2.25 / 2.75;
      Magic * t * t + 0.9375
    else
      var t := t - 2.625 / 2.75;
      Magic * t * t + 0.984375
  }

  /**
    The bounce multiplier. The source spells this block out four times, once
    in each `run`; every copy is this function of its `t`.
   */
  function Multiplier(t: real): (m: real)
    ensures t == 0.0 ==> m == 0.0
    ensures t == 1.0 ==> m == 1.0
  {
    Stage(StageOf(t), t)
  }

  /** BounceOut: the multiplier applied to the percent elapsed. */
  function Out(tw: Tweener, time: real): (r: real)
    requires tw.duration != 0.0
    ensures time == 0.0 ==> r == tw.range.start
    ensures time == tw.duration ==> r == tw.range.end
    ensures tw.valueDelta == 0.0 ==> r == tw.range.start
  {
    var t := Percent(tw.duration, time);
    var multip := Multiplier(t);
    tw.valueDelta * multip + tw.range.start
  }

  /** BounceIn: the multiplier of the time remaining, subtracted from the whole delta. */
  function In(tw: Tweener, time: real): (r: real)
    requires tw.duration != 0.0
    ensures time == 0.0 ==> r == tw.range.start
    ensures time == tw.duration ==> r == tw.range.end
    ensures tw.valueDelta == 0.0 ==> r == tw.range.start
  {
    var v :=
      var t := Percent(tw.duration, tw.duration - time);
      var multip := Multiplier(t);
      tw.valueDelta * multip;
    (tw.valueDelta - v) + tw.range.start
  }

  /** The branch BounceInOut takes while the percent elapsed is below one half. */
  function InOutFirstHalf(tw: Tweener, time: real): (r: real)
    requires tw.duration != 0.0
    ensures time == 0.0 ==> r == tw.range.start
    ensures time * 2.0 == tw.duration ==> r == tw.range.start + tw.valueDelta * 0.5
    ensures tw.valueDelta == 0.0 ==> r == tw.range.start
  {
    var t := Percent(tw.duration, tw.duration - time * 2.0);
    var v :=
      var multip := Multiplier(t);
      tw.valueDelta * multip;
    (tw.valueDelta - v) * 0.5 + tw.range.start
  }

  /** The branch BounceInOut takes from one half of the duration on. */
  function InOutSecondHalf(tw: Tweener, time: real): (r: real)
    requires tw.duration != 0.0
    ensures time * 2.0 == tw.duration ==> r == tw.range.start + tw.valueDelta * 0.5
    ensures time == tw.duration ==> r == tw.range.end
    ensures tw.valueDelta == 0.0 ==> r == tw.range.start
  {
    var t := Percent(tw.duration, time * 2.0 - tw.duration);
    var multip := Multiplier(t);
    tw.valueDelta * multip * 0.5 + tw.valueDelta * 0.5 + tw.range.start
  }

  /** BounceInOut: split at a percent of one half; half way it is half way. */
  function InOut(tw: Tweener, time: real): (r: real)
    requires tw.duration != 0.0
    ensures time == 0.0 ==> r == tw.range.start
    ensures time == tw.duration ==> r == tw.range.end
    ensures time * 2.0 == tw.duration ==> r == tw.range.start + tw.valueDelta * 0.5
    ensures tw.valueDelta == 0.0 ==> r == tw.range.start
  {
    var t := Percent(tw.duration, time);
    if t < 0.5 then InOutFirstHalf(tw, time) else InOutSecondHalf(tw, time)
  }

  // ---------------------------------------------------------------------------
  // The stages and the multiplier
  // ---------------------------------------------------------------------------

  /** Lower end of the interval of percents in [0, 1] that stage `k` covers. */
  function Lo(k: StageIndex): (r: real)
  {
    if k == 0 then 0.0 else if k == 1 then StageZero else if k == 2 then StageOne else StageTwo
  }

  /** Upper end of the interval of percents in [0, 1] that stage `k` covers. */
  function Hi(k: StageIndex): (r: real)
  {
    if k == 0 then StageZero else if k == 1 then StageOne else if k == 2 then StageTwo else 1.0
  }

  /** Centre of the parabola of stage `k`. */
  function Centre(k: StageIndex): (r: real)
  {
    if k == 0 then 0.0 else if k == 1 then 1.5 / 2.75 else if k == 2 then 2.25 / 2.75 else 2.625 / 2.75
  }

  /** Half the width of the interval of stage `k` that is centred on its parabola. */
  function Reach(k: StageIndex): (r: real)
  {
    if k == 0 then 1.0 / 2.75 else if k == 1 then 0.5 / 2.75 else if k == 2 then 0.25 / 2.75 else 0.125 / 2.75
  }

  /** Floor added to the parabola of stage `k`. */
  function Floor(k: StageIndex): (r: real)
  {
    if k == 0 then 0.0 else if k == 1 then 0.75 else if k == 2 then 0.9375 else 0.984375
  }

  /** Each stage is a parabola of its centre and floor that reaches 1 at its reach. */
  lemma StageShape(k: StageIndex, t: real)
    ensures Stage(k, t) == Magic * (t - Centre(k)) * (t - Centre(k)) + Floor(k)
    ensures Magic * Reach(k) * Reach(k) + Floor(k) == 1.0
    ensures Centre(k) - Reach(k) <= Lo(k) && Hi(k) <= Centre(k) + Reach(k)
  {
  }

  /** Every percent in [0, 1] lies in the closed interval of its stage. */
  lemma StageOfCovers(t: real)
    requires 0.0 <= t <= 1.0
    ensures Lo(StageOf(t)) <= t <= Hi(StageOf(t))
  {
  }

  lemma SquareAtMost(u: real, w: real)
    requires -w <= u <= w
    ensures u * u <= w * w
  {
    assert (w - u) * (w + u) >= 0.0;
  }

  /**
    Continuity at the stage boundaries 1/2.75, 2/2.75 and 2.5/2.75: the
    stages on either side agree there, at the value 1, and the last stage
    ends at 1 as well.
   */
  lemma StagesJoin()
    ensures Stage(0, StageZero) == 1.0 && Stage(1, StageZero) == 1.0
    ensures Stage(1, StageOne) == 1.0 && Stage(2, StageOne) == 1.0
    ensures Stage(2, StageTwo) == 1.0 && Stage(3, StageTwo) == 1.0
    ensures Stage(3, 1.0) == 1.0
  {
  }

  /** On [0, 1] the multiplier stays in [0, 1], never below the floor of its stage. */
  lemma MultiplierBounds(t: real)
    requires 0.0 <= t <= 1.0
    ensures 0.0 <= Floor(StageOf(t)) <= Multiplier(t) <= 1.0
  {
    var k := StageOf(t);
    StageOfCovers(t);
    StageShape(k, t);
    var u := t - Centre(k);
    SquareAtMost(u, Reach(k));
    assert Magic * u * u <= Magic * Reach(k) * Reach(k);
    assert Magic * u * u >= 0.0;
  }

  lemma ProductBound(x: real, y: real, bound: real)
    requires 0.0 <= x && -bound <= y <= bound
    ensures -(bound * x) <= x * y <= bound * x
  {
    assert x * (bound - y) >= 0.0;
    assert x * (bound + y) >= 0.0;
  }

  /** A parabola `MAGIC·(t − c)²` changes by at most `2·MAGIC·w` per unit of `t` within `w` of `c`. */
  lemma ParabolaSlope(a: real, b: real, c: real, w: real)
    requires c - w <= a <= b <= c + w
    ensures Abs(Magic * (b - c) * (b - c) - Magic * (a - c) * (a - c)) <= 2.0 * Magic * w * (b - a)
  {
    var u, v, dt := a - c, b - c, b - a;
    var p := dt * (v + u);
    assert Magic * v * v - Magic * u * u == Magic * p;
    ProductBound(dt, v + u, 2.0 * w);
    assert -(2.0 * w * dt) <= p <= 2.0 * w * dt;
    assert Abs(Magic * p) <= Magic * (2.0 * w * dt);
  }

  /** Within its interval each stage changes by at most `Slope` per unit of percent. */
  lemma StageSlope(k: StageIndex, a: real, b: real)
    requires Lo(k) <= a <= b <= Hi(k)
    ensures Abs(Stage(k, b) - Stage(k, a)) <= Slope * (b - a)
  {
    StageShape(k, a);
    StageShape(k, b);
    ParabolaSlope(a, b, Centre(k), Reach(k));
    assert 2.0 * Magic * Reach(k) <= Slope;
    assert (Slope - 2.0 * Magic * Reach(k)) * (b - a) >= 0.0;
  }

  /**
    The multiplier has no jump anywhere in [0, 1]: it changes by at most
    `Slope` per unit of percent, across the stage boundaries too.
   */
  lemma {:induction false} MultiplierSlope(a: real, b: real)
    requires 0.0 <= a <= b <= 1.0
    ensures Abs(Multiplier(b) - Multiplier(a)) <= Slope * (b - a)
    decreases StageOf(b) - StageOf(a)
  {
    var ka, kb := StageOf(a), StageOf(b);
    StageOfCovers(a);
    StageOfCovers(b);
    if ka == kb {
      StageSlope(ka, a, b);
    } else {
      var h := Hi(ka);
      assert ka < 3;
      assert StageOf(h) == ka + 1;
      StagesJoin();
      assert Multiplier(h) == Stage(ka, h);
      StageSlope(ka, a, h);
      MultiplierSlope(h, b);
    }
  }

  // ---------------------------------------------------------------------------
  // The three tweens
  // ---------------------------------------------------------------------------

  /** BounceIn is BounceOut mirrored in time and in value. */
  lemma InMirrorsOut(range: Range, duration: real, time: real)
    requires duration != 0.0
    ensures In(New(range, duration), time)
         == range.start + range.end - Out(New(range, duration), duration - time)
  {
  }

  /**
    BounceInOut is a BounceIn on the doubled time, scaled to half the range,
    for the first half of the duration, and a BounceOut on the doubled time
    less one duration, scaled to half the range and lifted by half the delta,
    for the second half.
   */
  lemma InOutHalves(range: Range, duration: real, time: real)
    requires 0.0 < duration
    ensures var tw := New(range, duration);
      && InOut(tw, time) == (if time * 2.0 < duration then InOutFirstHalf(tw, time) else InOutSecondHalf(tw, time))
      && InOutFirstHalf(tw, time) == range.start + (In(tw, time * 2.0) - range.start) * 0.5
      && InOutSecondHalf(tw, time)
         == range.start + tw.valueDelta * 0.5 + (Out(tw, time * 2.0 - duration) - range.start) * 0.5
  {
    PercentBelow(duration, time, 0.5);
  }

  /**
    At exactly half the duration BounceInOut takes its second branch, and
    both branch formulas give half way through the range there.
   */
  lemma InOutMidpoint(tw: Tweener, time: real)
    requires tw.duration != 0.0 && time * 2.0 == tw.duration
    ensures !(Percent(tw.duration, time) < 0.5)
    ensures InOutFirstHalf(tw, time) == tw.range.start + tw.valueDelta * 0.5
    ensures InOutSecondHalf(tw, time) == tw.range.start + tw.valueDelta * 0.5
  {
    PercentUnique(tw.duration, time, 0.5);
  }

  /**
    Near the midpoint, on either side, BounceInOut departs from half way by
    `MAGIC/2 · delta · (2p − 1)²` and no more: the two halves meet without a
    jump, and without a kink.
   */
  lemma InOutNearMidpoint(tw: Tweener, time: real)
    requires tw.duration != 0.0
    requires -StageZero < Percent(tw.duration, time) * 2.0 - 1.0 < StageZero
    ensures var s := Percent(tw.duration, time) * 2.0 - 1.0;
      var gap := tw.valueDelta * 0.5 * (Magic * s * s);
      InOut(tw, time) == tw.range.start + tw.valueDelta * 0.5 + (if s < 0.0 then -gap else gap)
  {
    var s := Percent(tw.duration, time) * 2.0 - 1.0;
    PercentOfDoubled(tw.duration, time);
    var gap := tw.valueDelta * 0.5 * (Magic * s * s);
    if s < 0.0 {
      PercentOfRemaining(tw.duration, time * 2.0);
      FirstHalfGap(tw, time, -s);
      assert Magic * (-s) * (-s) == Magic * s * s;
      assert InOut(tw, time) == InOutFirstHalf(tw, time);
    } else {
      PercentOfShifted(tw.duration, time * 2.0);
      SecondHalfGap(tw, time, s);
      assert InOut(tw, time) == InOutSecondHalf(tw, time);
    }
  }

  lemma FirstHalfGap(tw: Tweener, time: real, t: real)
    requires tw.duration != 0.0
    requires t == Percent(tw.duration, tw.duration - time * 2.0) && t < StageZero
    ensures InOutFirstHalf(tw, time) == tw.range.start + tw.valueDelta * 0.5 - tw.valueDelta * 0.5 * (Magic * t * t)
  {
    var delta, m := tw.valueDelta, Multiplier(t);
    assert m == Magic * t * t;
    assert (delta - delta * m) * 0.5 == delta * 0.5 - delta * 0.5 * m;
  }

  lemma SecondHalfGap(tw: Tweener, time: real, t: real)
    requires tw.duration != 0.0
    requires t == Percent(tw.duration, time * 2.0 - tw.duration) && t < StageZero
    ensures InOutSecondHalf(tw, time) == tw.range.start + tw.valueDelta * 0.5 + tw.valueDelta * 0.5 * (Magic * t * t)
  {
    var delta, m := tw.valueDelta, Multiplier(t);
    assert m == Magic * t * t;
    assert delta * m * 0.5 == delta * 0.5 * m;
  }

  /** For an increasing range BounceOut stays within it over the duration. */
  lemma OutWithinRange(range: Range, duration: real, time: real)
    requires 0.0 < duration && 0.0 <= time <= duration && range.start <= range.end
    ensures range.start <= Out(New(range, duration), time) <= range.end
  {
    PercentInUnit(duration, time);
    var p := Percent(duration, time);
    var m := Multiplier(p);
    MultiplierBounds(p);
    ScaledWithinRange(Out(New(range, duration), time), range, m);
  }

  /** For an increasing range BounceIn stays within it over the duration. */
  lemma InWithinRange(range: Range, duration: real, time: real)
    requires 0.0 < duration && 0.0 <= time <= duration && range.start <= range.end
    ensures range.start <= In(New(range, duration), time) <= range.end
  {
    PercentInUnit(duration, duration - time);
    var q := Percent(duration, duration - time);
    var m := Multiplier(q);
    MultiplierBounds(q);
    ScaledWithinRange(In(New(range, duration), time), range, 1.0 - m);
  }

  /** For an increasing range BounceInOut stays within it over the duration. */
  lemma InOutWithinRange(range: Range, duration: real, time: real)
    requires 0.0 < duration && 0.0 <= time <= duration && range.start <= range.end
    ensures range.start <= InOut(New(range, duration), time) <= range.end
  {
    var tw := New(range, duration);
    var delta := tw.valueDelta;
    PercentBelow(duration, time, 0.5);
    if time * 2.0 < duration {
      PercentInUnit(duration, duration - time * 2.0);
      var t := Percent(duration, duration - time * 2.0);
      var m := Multiplier(t);
      MultiplierBounds(t);
      assert (delta - delta * m) * 0.5 == delta * ((1.0 - m) * 0.5);
      ScaledWithinRange(InOut(tw, time), range, (1.0 - m) * 0.5);
    } else {
      PercentInUnit(duration, time * 2.0 - duration);
      var t := Percent(duration, time * 2.0 - duration);
      var m := Multiplier(t);
      MultiplierBounds(t);
      assert delta * m * 0.5 + delta * 0.5 == delta * (m * 0.5 + 0.5);
      ScaledWithinRange(InOut(tw, time), range, m * 0.5 + 0.5);
    }
  }

  /** The multiplier slope bound, read at two times of the duration. */
  lemma MultiplierSlopeAt(d: real, x: real, y: real)
    requires 0.0 < d && 0.0 <= x <= y <= d
    ensures Abs(Multiplier(Percent(d, y)) - Multiplier(Percent(d, x))) <= Slope * (Percent(d, y) - Percent(d, x))
  {
    PercentMonotone(d, x, y);
    PercentInUnit(d, x);
    PercentInUnit(d, y);
    MultiplierSlope(Percent(d, x), Percent(d, y));
  }
}
