/** Go's fixed-width integers and the time unit shared by the limiters. */
module Machine {
  import opened Arithmetic

  const INT64_MAX: int := 0x7FFF_FFFF_FFFF_FFFF
  const INT64_MIN: int := -0x8000_0000_0000_0000

  /** Number of values of a uint64. */
  const WORD: int := 0x1_0000_0000_0000_0000

  /** Nanoseconds in a second: the in-memory and PostgreSQL clocks count nanoseconds. */
  const NANOS: int := 1_000_000_000

  type int64 = x: int | INT64_MIN <= x <= INT64_MAX
  type uint64 = x: int | 0 <= x < WORD

  datatype Option<+T> = None | Some(value: T)

  /** int64 addition: wraps around on overflow. */
  function Add64(a: int64, b: int64): int64 {
    var sum := a + b;
    if sum > INT64_MAX then sum - WORD else if sum < INT64_MIN then sum + WORD else sum
  }

  /** Conversion of an out-of-range float to int64: Go leaves it to the implementation, amd64 gives the least int64. */
  function ToInt64(x: int): int64 {
    if INT64_MIN <= x <= INT64_MAX then x else INT64_MIN
  }

  function Min(a: int, b: int): int {
    if a < b then a else b
  }

  function Max(a: int, b: int): int {
    if a < b then b else a
  }

  /** Whole tokens earned in `elapsed` nanoseconds at `rate` tokens per second, truncated toward zero. */
  function Credit(elapsed: int, rate: int): int {
    var nano := elapsed * rate;
    if nano >= 0 then nano / NANOS else -(-nano / NANOS)
  }

  lemma CreditBounds(elapsed: int, rate: int)
    ensures elapsed * rate >= 0 ==>
      Credit(elapsed, rate) * NANOS <= elapsed * rate < (Credit(elapsed, rate) + 1) * NANOS
    ensures elapsed * rate <= 0 ==> Credit(elapsed, rate) <= 0
  {
  }

  /** One second earns the rate; a counter wraps to 0 after 2^64 - 1, and an int to -2^63 after 2^63 - 1. */
  lemma Units(rate: int)
    ensures Credit(1_000_000_000, rate) == rate
    ensures 18446744073709551615 < WORD && (18446744073709551615 + 1) % WORD == 0
    ensures Add64(9223372036854775807, 1) == -9223372036854775808
    ensures Add64(-9223372036854775808, -1) == 9223372036854775807
  {
  }

  /** A positive credit needs elapsed time to be positive when the rate is. */
  lemma PositiveCredit(elapsed: int, rate: int)
    requires 0 < rate && 0 < Credit(elapsed, rate)
    ensures 0 < elapsed
  {
    if elapsed <= 0 {
      MulNonNegative(-elapsed, rate);
    }
  }
}
