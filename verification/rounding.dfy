/**
 * Rounding to 8 decimal places, as `np.round(mesh, 8)` does it, on exact reals:
 * scale by 10^8, round to the nearest integer with ties to even, scale back.
 * The binary representation of floats is not modelled.
 */
module Rounding {

  /** 10^8: the grid of values with at most 8 decimal places has this many points per unit. */
  const Scale: real := 100000000.0

  /**
   * The nearest integer to `y`, the even one of the two when `y` lies halfway
   * between them. The two ensures pin the result down: it is within one half
   * of `y`, and when exactly one half away it is even.
   */
  function RoundHalfEven(y: real): (n: int)
    ensures -0.5 <= n as real - y <= 0.5
    ensures n as real - y == 0.5 || n as real - y == -0.5 ==> n % 2 == 0
  {
    var f := y.Floor;
    var frac := y - f as real;
    if frac < 0.5 then f
    else if frac > 0.5 then f + 1
    else if f % 2 == 0 then f
    else f + 1
  }

  /** The rounded value of an integer is the integer itself. */
  lemma RoundHalfEvenOfInt(k: int)
    ensures RoundHalfEven(k as real) == k
  {
  }

  /** Rounding to the nearest integer never reverses an order. */
  lemma RoundHalfEvenMonotone(a: real, b: real)
    requires a <= b
    ensures RoundHalfEven(a) <= RoundHalfEven(b)
  {
  }

  /** `x` has at most 8 decimal places. */
  predicate OnGrid(x: real) {
    (x * Scale).Floor as real == x * Scale
  }

  /** `x` rounded to 8 decimal places, ties to even. */
  function Round8(x: real): real {
    RoundHalfEven(x * Scale) as real / Scale
  }

  /** The rounded value has at most 8 decimal places and lies within half a step of `x`. */
  lemma Round8Nearest(x: real)
    ensures OnGrid(Round8(x))
    ensures -0.5 / Scale <= Round8(x) - x <= 0.5 / Scale
  {
    var n := RoundHalfEven(x * Scale);
    assert Round8(x) * Scale == n as real;
    assert (n as real).Floor == n;
  }

  /** A value with at most 8 decimal places is its own rounding. */
  lemma Round8OfOnGrid(x: real)
    requires OnGrid(x)
    ensures Round8(x) == x
  {
    var k := (x * Scale).Floor;
    RoundHalfEvenOfInt(k);
    assert x == k as real / Scale;
  }

  /** Rounding twice is rounding once. */
  lemma Round8Idempotent(x: real)
    ensures Round8(Round8(x)) == Round8(x)
  {
    Round8Nearest(x);
    Round8OfOnGrid(Round8(x));
  }

  /** Rounding never reverses an order, so it can merge neighbours but not swap them. */
  lemma Round8Monotone(a: real, b: real)
    requires a <= b
    ensures Round8(a) <= Round8(b)
  {
    RoundHalfEvenMonotone(a * Scale, b * Scale);
  }
}
