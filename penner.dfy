/**
  Robert Penner's easing equations, the reference the tweens are measured
  against, in their customary form: `t` the time, `b` the start value, `c`
  the change in value and `d` the duration. The power `2^x` is a parameter,
  as in the tweens.
 */
module Penner {

  function CubicEaseIn(t: real, b: real, c: real, d: real): (r: real)
    requires d != 0.0
  {
    var t := t / d;
    c * (t * t * t) + b
  }

  function CubicEaseOut(t: real, b: real, c: real, d: real): (r: real)
    requires d != 0.0
  {
    var t := t / d - 1.0;
    c * (t * t * t + 1.0) + b
  }

  function CubicEaseInOut(t: real, b: real, c: real, d: real): (r: real)
    requires d != 0.0
  {
    var t := t / (d / 2.0);
    if t < 1.0 then
      c / 2.0 * (t * t * t) + b
    else
      var t := t - 2.0;
      c / 2.0 * (t * t * t + 2.0) + b
  }

  function BounceEaseOut(t: real, b: real, c: real, d: real): (r: real)
    requires d != 0.0
  {
    var t := t / d;
    if t < 1.0 / 2.75 then
      c * (7.5625 * t * t) + b
    else if t < 2.0 / 2.75 then
      var t := t - 1.5 / 2.75;
      c * (7.5625 * t * t + 0.75) + b
    else if t < 2.5 / 2.75 then
      var t := t - 2.25 / 2.75;
      c * (7.5625 * t * t + 0.9375) + b
    else
      var t := t - 2.625 / 2.75;
      c * (7.5625 * t * t + 0.984375) + b
  }

  function BounceEaseIn(t: real, b: real, c: real, d: real): (r: real)
    requires d != 0.0
  {
    c - BounceEaseOut(d - t, 0.0, c, d) + b
  }

  function BounceEaseInOut(t: real, b: real, c: real, d: real): (r: real)
    requires d != 0.0
  {
    if t < d / 2.0 then
      BounceEaseIn(t * 2.0, 0.0, c, d) * 0.5 + b
    else
      BounceEaseOut(t * 2.0 - d, 0.0, c, d) * 0.5 + c * 0.5 + b
  }

  function ExpoEaseIn(pow2: real -> real, t: real, b: real, c: real, d: real): (r: real)
    requires t == 0.0 || d != 0.0
  {
    if t == 0.0 then b else c * pow2(10.0 * (t / d - 1.0)) + b
  }

  function ExpoEaseOut(pow2: real -> real, t: real, b: real, c: real, d: real): (r: real)
    requires t == d || d != 0.0
  {
    if t == d then b + c else c * (-pow2(-10.0 * t / d) + 1.0) + b
  }

  function ExpoEaseInOut(pow2: real -> real, t: real, b: real, c: real, d: real): (r: real)
    requires t == 0.0 || d != 0.0
  {
    if t == 0.0 then
      b
    else if t == d then
      b + c
    else
      var t := t / (d / 2.0);
      if t < 1.0 then
        c / 2.0 * pow2(10.0 * (t - 1.0)) + b
      else
        var t := t - 1.0;
        c / 2.0 * (-pow2(-10.0 * t) + 2.0) + b
  }
}
