/** Rounding doubles to 64-bit integers. */
module Rounding {
  import opened Bits
  import opened Reals

  /** The cast of a signed integer to 64 bits unsigned. */
  function ToUint64(n: int): nat {
    n % Pow2(64)
  }

  /** Where the rounding of a double to 64 bits is specified. */
  predicate FitsInt64(n: int) {
    0 <= n + Pow2(63) < Pow2(64)
  }

  /** Rounding to the nearest integer, halves away from zero. */
  function Llround(x: real): int {
    if x >= 0.0 then (x + 0.5).Floor else -(-x + 0.5).Floor
  }

  /** Scales below this are refused when a value is written. */
  const SMALLEST_SCALE: real := 0.000000000001

  /** What is rounded when a value is written. */
  function Quotient(value: real, scale: real, offset: real): real
    requires Abs(scale) >= SMALLEST_SCALE
  {
    (value - offset) / scale
  }

  lemma NotZero(x: real)
    requires Abs(x) >= SMALLEST_SCALE
    ensures x != 0.0
  {
  }

  lemma RoundingError(x: real)
    ensures -0.5 <= Llround(x) as real - x <= 0.5
  {
  }
}
