/**
  Vocabulary shared by every tween family: the inclusive value range, the
  record a tweener is built into, and the percent-of-duration computation.

  Values and times are both `real`: the value contract's `calculate_delta`,
  `scale` and `add` are subtraction, multiplication and addition, and the time
  contract's `percent(duration, elapsed)` is `elapsed / duration`.
 */
module Tween {

  /** An inclusive range `start..=end` of values. */
  datatype Range = Range(start: real, end: real)

  /**
    The record behind every tweener that scales the whole value delta
    (CubicIn, CubicOut and the bounce and expo tweens): the range, the cached
    `value_delta` and the duration, all fixed at construction.
   */
  datatype TweenRecord = TweenRecord(range: Range, valueDelta: real, duration: real)

  /**
    A tweener as its constructor leaves it: the fields are private and only
    the constructor sets them, so the cached delta always takes `start` to `end`.
   */
  type Tweener = tw: TweenRecord | tw.range.start + tw.valueDelta == tw.range.end
    witness TweenRecord(Range(0.0, 0.0), 0.0, 1.0)

  /** Builds a tweener; the cached delta is exactly what takes `start` to `end`. */
  function New(range: Range, duration: real): (tw: Tweener)
    ensures tw.range == range && tw.duration == duration
    ensures tw.valueDelta == range.end - range.start
  {
    TweenRecord(range, range.end - range.start, duration)
  }

  /** The fraction of `duration` that `elapsed` represents. */
  function Percent(duration: real, elapsed: real): (p: real)
    requires duration != 0.0
    ensures elapsed == 0.0 ==> p == 0.0
    ensures elapsed == duration ==> p == 1.0
  {
    assert duration / duration == 1.0;
    elapsed / duration
  }

  /** A value `start + (end - start) · k` with `k` in [0, 1] lies in an increasing range. */
  lemma ScaledWithinRange(r: real, range: Range, k: real)
    requires range.start <= range.end && 0.0 <= k <= 1.0
    requires r == range.start + (range.end - range.start) * k
    ensures range.start <= r <= range.end
  {
    var s, e := range.start, range.end;
    ProductNonNegative(e - s, k);
    ProductNonNegative(e - s, 1.0 - k);
    assert (e - s) * (1.0 - k) == (e - s) - (e - s) * k;
  }

  lemma ProductNonNegative(a: real, b: real)
    requires 0.0 <= a && 0.0 <= b
    ensures 0.0 <= a * b
  {
  }

  /** A percent times its duration gives back the elapsed time. */
  lemma PercentScalesBack(duration: real, elapsed: real)
    requires duration != 0.0
    ensures Percent(duration, elapsed) * duration == elapsed
  {
  }

  /** A percent of a time in `[0, duration]` lies in [0, 1]. */
  lemma PercentInUnit(duration: real, elapsed: real)
    requires 0.0 < duration && 0.0 <= elapsed <= duration
    ensures 0.0 <= Percent(duration, elapsed) <= 1.0
  {
    var p := Percent(duration, elapsed);
    PercentScalesBack(duration, elapsed);
    assert (1.0 - p) * duration == duration - elapsed;
    FactorSign(1.0 - p, duration);
  }

  lemma FactorSign(a: real, d: real)
    requires 0.0 < d && 0.0 <= a * d
    ensures 0.0 <= a
  {
  }

  /** A percent is determined by the product it makes with the duration. */
  lemma PercentUnique(duration: real, elapsed: real, q: real)
    requires duration != 0.0 && q * duration == elapsed
    ensures Percent(duration, elapsed) == q
  {
    var p := Percent(duration, elapsed);
    PercentScalesBack(duration, elapsed);
    assert (p - q) * duration == 0.0;
    ProductZero(p - q, duration);
  }

  lemma ProductZero(a: real, d: real)
    requires d != 0.0 && a * d == 0.0
    ensures a == 0.0
  {
  }

  /** Percent of the time left: `percent(d, d - x) == 1 - percent(d, x)`. */
  lemma PercentOfRemaining(duration: real, elapsed: real)
    requires duration != 0.0
    ensures Percent(duration, duration - elapsed) == 1.0 - Percent(duration, elapsed)
  {
    var p := Percent(duration, elapsed);
    PercentScalesBack(duration, elapsed);
    assert (1.0 - p) * duration == duration - elapsed;
    PercentUnique(duration, duration - elapsed, 1.0 - p);
  }

  /** Percent of a doubled time: `percent(d, 2x) == 2 percent(d, x)`. */
  lemma PercentOfDoubled(duration: real, elapsed: real)
    requires duration != 0.0
    ensures Percent(duration, elapsed * 2.0) == Percent(duration, elapsed) * 2.0
  {
    var p := Percent(duration, elapsed);
    PercentScalesBack(duration, elapsed);
    assert (p * 2.0) * duration == elapsed * 2.0;
    PercentUnique(duration, elapsed * 2.0, p * 2.0);
  }

  /** Percent of a time shifted back by one duration: `percent(d, x - d) == percent(d, x) - 1`. */
  lemma PercentOfShifted(duration: real, elapsed: real)
    requires duration != 0.0
    ensures Percent(duration, elapsed - duration) == Percent(duration, elapsed) - 1.0
  {
    var p := Percent(duration, elapsed);
    PercentScalesBack(duration, elapsed);
    assert (p - 1.0) * duration == elapsed - duration;
    PercentUnique(duration, elapsed - duration, p - 1.0);
  }

  lemma StrictFactorSign(a: real, d: real)
    requires 0.0 < d
    ensures 0.0 < a <==> 0.0 < a * d
  {
  }

  /** With a positive duration, comparing a percent with `q` is comparing the time with `q · duration`. */
  lemma PercentBelow(duration: real, elapsed: real, q: real)
    requires 0.0 < duration
    ensures Percent(duration, elapsed) < q <==> elapsed < q * duration
  {
    var p := Percent(duration, elapsed);
    PercentScalesBack(duration, elapsed);
    assert (q - p) * duration == q * duration - elapsed;
    StrictFactorSign(q - p, duration);
  }

  /** With a positive duration, a later time has a larger percent. */
  lemma PercentMonotone(duration: real, x: real, y: real)
    requires 0.0 < duration && x <= y
    ensures Percent(duration, x) <= Percent(duration, y)
  {
    var px, py := Percent(duration, x), Percent(duration, y);
    PercentScalesBack(duration, x);
    PercentScalesBack(duration, y);
    assert (py - px) * duration == y - x;
    FactorSign(py - px, duration);
  }

  function Abs(x: real): (r: real)
  {
    if x < 0.0 then -x else x
  }
}
