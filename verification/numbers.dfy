/** Decimal rounding as `Number.prototype.toFixed` performs it (section
    21.1.3.3 of ECMAScript 2024), on exact rationals: the nearest multiple
    of 10^-d (d = 1 or 2 here), a tie going to the value of larger magnitude. Binary
    floating-point representation error is not part of this model. */
module Numbers {

  /** The integer nearest to `x`, halves rounded away from zero. */
  function RoundHalfAway(x: real): (n: int)
    ensures x - 0.5 <= n as real <= x + 0.5
    ensures n as real == x + 0.5 ==> x >= 0.0
    ensures n as real == x - 0.5 ==> x < 0.0
    ensures x >= 0.0 ==> n >= 0
  {
    if x >= 0.0 then (x + 0.5).Floor else -((-x + 0.5).Floor)
  }

  /** `x.toFixed(1)` read back as a number: a whole number of tenths, at
      most half a tenth from `x`, a tie going away from zero. */
  function ToFixed1(x: real): (r: real)
    ensures (r * 10.0).Floor as real == r * 10.0
    ensures -0.05 <= r - x <= 0.05
    ensures r - x == 0.05 ==> x >= 0.0
    ensures x - r == 0.05 ==> x < 0.0
    ensures x >= 0.0 ==> r >= 0.0
  {
    RoundHalfAway(x * 10.0) as real / 10.0
  }

  /** `x.toFixed(2)` read back as a number: a whole number of cents, at
      most half a cent from `x`, a tie going away from zero. */
  function ToFixed2(x: real): (r: real)
    ensures (r * 100.0).Floor as real == r * 100.0
    ensures -0.005 <= r - x <= 0.005
    ensures r - x == 0.005 ==> x >= 0.0
    ensures x - r == 0.005 ==> x < 0.0
    ensures x >= 0.0 ==> r >= 0.0
  {
    RoundHalfAway(x * 100.0) as real / 100.0
  }

  /** The rounding rule determines the integer: any integer within a half
      of `x` that respects the tie rule is `RoundHalfAway(x)`. */
  lemma RoundHalfAwayUnique(x: real, n: int)
    requires x - 0.5 <= n as real <= x + 0.5
    requires n as real == x + 0.5 ==> x >= 0.0
    requires n as real == x - 0.5 ==> x < 0.0
    ensures RoundHalfAway(x) == n
  {
    var m := RoundHalfAway(x);
    assert -1 <= m - n <= 1;
  }

  /** `toFixed(1)` is the one whole number of tenths nearest to `x` under
      the tie rule: its contract leaves no other choice. */
  lemma ToFixed1Unique(x: real, tenths: int)
    requires -0.05 <= tenths as real / 10.0 - x <= 0.05
    requires tenths as real / 10.0 - x == 0.05 ==> x >= 0.0
    requires x - tenths as real / 10.0 == 0.05 ==> x < 0.0
    ensures ToFixed1(x) == tenths as real / 10.0
  {
    RoundHalfAwayUnique(x * 10.0, tenths);
  }

  /** `toFixed(2)` is the one whole number of cents nearest to `x` under
      the tie rule. */
  lemma ToFixed2Unique(x: real, cents: int)
    requires -0.005 <= cents as real / 100.0 - x <= 0.005
    requires cents as real / 100.0 - x == 0.005 ==> x >= 0.0
    requires x - cents as real / 100.0 == 0.005 ==> x < 0.0
    ensures ToFixed2(x) == cents as real / 100.0
  {
    RoundHalfAwayUnique(x * 100.0, cents);
  }

  /** Rounding never crosses an integer: a value between two integers
      rounds to a value between them. */
  lemma RoundBetweenIntegers(x: real, lo: int, hi: int)
    requires lo as real <= x <= hi as real
    ensures lo <= RoundHalfAway(x) <= hi
  {
  }

  /** Rounding to one decimal keeps a value within integer bounds. */
  lemma ToFixed1Within(x: real, lo: int, hi: int)
    requires lo as real <= x <= hi as real
    ensures lo as real <= ToFixed1(x) <= hi as real
  {
    RoundBetweenIntegers(x * 10.0, 10 * lo, 10 * hi);
  }

  /** An amount in whole cents is left as it is by `toFixed(2)`. */
  lemma ToFixed2Exact(cents: int)
    ensures ToFixed2(cents as real / 100.0) == cents as real / 100.0
  {
    ToFixed2Unique(cents as real / 100.0, cents);
  }
}
