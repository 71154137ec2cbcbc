/** Sequences of clock readings. */
module Clock {
  import opened Machine

  /** Clock readings never go back, and start at `from` or later. */
  predicate Monotone(times: seq<int>, from: int) {
    times == [] || (from <= times[0] && Monotone(times[1..], times[0]))
  }

  predicate UpTo(times: seq<int>, until: int) {
    forall i :: 0 <= i < |times| ==> times[i] <= until
  }

  lemma {:induction false} MonotonePrefix(times: seq<int>, from: int, k: nat)
    requires Monotone(times, from) && k <= |times|
    ensures Monotone(times[..k], from)
    decreases k
  {
    if k > 0 {
      MonotonePrefix(times[1..], times[0], k - 1);
      assert times[..k][1..] == times[1..][..k - 1];
    }
  }

  /** How far the clock goes forward over the readings, ignoring every step back. */
  function Forward(from: int, times: seq<int>): nat
    decreases |times|
  {
    if times == [] then 0 else Max(times[0] - from, 0) + Forward(times[0], times[1..])
  }

  lemma {:induction false} ForwardWhenMonotone(times: seq<int>, from: int)
    requires Monotone(times, from)
    ensures Forward(from, times) == (if times == [] then from else times[|times| - 1]) - from
    decreases |times|
  {
    if times != [] {
      ForwardWhenMonotone(times[1..], times[0]);
    }
  }

  lemma ForwardCons(from: int, reading: int, times: seq<int>)
    ensures Forward(from, [reading] + times) == Max(reading - from, 0) + Forward(reading, times)
  {
    assert ([reading] + times)[1..] == times;
  }

  /** A reading that is left out only shortens the way. */
  lemma ForwardSkips(from: int, reading: int, times: seq<int>)
    ensures Forward(from, times) <= Max(reading - from, 0) + Forward(reading, times)
  {
  }
}
