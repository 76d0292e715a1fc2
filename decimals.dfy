/**
 * Decimal rounding as java.math.BigDecimal performs it in
 * `divide(divisor, scale, RoundingMode.HALF_UP)`: the exact quotient is
 * rounded to `scale` fractional digits, ties going away from zero.
 * Prices and quotients are exact rationals here (`real`).
 */
module Decimals {

  /** 10^s. */
  function Pow10(s: nat): (p: nat)
    ensures p >= 1
  {
    if s == 0 then 1 else 10 * Pow10(s - 1)
  }

  /**
   * The unscaled value of x rounded half-up to s fractional digits: the
   * integer n nearest to x * 10^s, a tie rounding away from zero.
   */
  function HalfUpUnits(x: real, s: nat): (n: int)
    ensures x >= 0.0 ==> n as real - 0.5 <= x * Pow10(s) as real < n as real + 0.5
    ensures x < 0.0 ==> n as real - 0.5 < x * Pow10(s) as real <= n as real + 0.5
  {
    var scaled := x * Pow10(s) as real;
    if x >= 0.0 then (scaled + 0.5).Floor else -((-scaled + 0.5).Floor)
  }

  /** x rounded half-up to s fractional digits. */
  function RoundHalfUp(x: real, s: nat): (r: real)
    ensures r * Pow10(s) as real == HalfUpUnits(x, s) as real
  {
    HalfUpUnits(x, s) as real / Pow10(s) as real
  }

  /** The two inequalities of HalfUpUnits pin down a single integer. */
  lemma HalfUpUnitsUnique(x: real, s: nat, n: int)
    requires x >= 0.0 ==> n as real - 0.5 <= x * Pow10(s) as real < n as real + 0.5
    requires x < 0.0 ==> n as real - 0.5 < x * Pow10(s) as real <= n as real + 0.5
    ensures n == HalfUpUnits(x, s)
  {
  }

  /** Rounding never moves a value by more than half a unit of the last place. */
  lemma RoundHalfUpError(x: real, s: nat)
    ensures -0.5 <= (RoundHalfUp(x, s) - x) * Pow10(s) as real <= 0.5
  {
    var p := Pow10(s) as real;
    assert (RoundHalfUp(x, s) - x) * p == RoundHalfUp(x, s) * p - x * p;
  }

  /** Rounding keeps the sign: a non-negative value never rounds below zero. */
  lemma RoundHalfUpNonNegative(x: real, s: nat)
    requires x >= 0.0
    ensures RoundHalfUp(x, s) >= 0.0
  {
    var p := Pow10(s) as real;
    var n := HalfUpUnits(x, s);
    assert x * p >= 0.0;
    assert n >= 0;
  }

  /** Rounding is monotonic, so it never inverts the order of two values. */
  lemma RoundHalfUpMonotonic(x: real, y: real, s: nat)
    requires x <= y
    ensures RoundHalfUp(x, s) <= RoundHalfUp(y, s)
  {
    var p := Pow10(s) as real;
    assert x * p <= y * p;
    var nx, ny := HalfUpUnits(x, s), HalfUpUnits(y, s);
    assert nx <= ny;
    assert RoundHalfUp(x, s) * p <= RoundHalfUp(y, s) * p;
  }
}
