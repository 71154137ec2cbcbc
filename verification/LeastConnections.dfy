/** Least-connections selection and the per-URL connection counters. */
module LeastConnections {
  import opened Machine

  /** Counters of the pool; a URL without an entry has none. */
  type Counters = map<string, int64>

  function Count(m: Counters, url: string): int64 {
    if url in m then m[url] else 0
  }

  /** `connections[url]++` on a Go int. */
  function Increment(m: Counters, url: string): Counters {
    m[url := Add64(Count(m, url), 1)]
  }

  function Decrement(m: Counters, url: string): Counters {
    if Count(m, url) > 0 then m[url := Count(m, url) - 1] else m
  }

  function LeastFrom(
      alive: seq<bool>, urls: seq<string>, m: Counters, i: nat, best: Option<nat>, min: int64): Option<nat>
    requires |alive| == |urls|
    decreases |alive| - i
  {
    if i >= |alive| then best
    else if alive[i] && Count(m, urls[i]) < min
    then LeastFrom(alive, urls, m, i + 1, Some(i), Count(m, urls[i]))
    else LeastFrom(alive, urls, m, i + 1, best, min)
  }

  /** The scan starts from the greatest int, so that a backend at that count is never chosen. */
  function LeastPick(alive: seq<bool>, urls: seq<string>, m: Counters): Option<nat>
    requires |alive| == |urls|
  {
    LeastFrom(alive, urls, m, 0, None, INT64_MAX)
  }

  /** b is the first live backend with the least count. */
  ghost predicate FirstLeast(alive: seq<bool>, urls: seq<string>, m: Counters, b: nat)
    requires |alive| == |urls|
  {
    && b < |alive| && alive[b] && Count(m, urls[b]) < INT64_MAX
    && (forall j :: 0 <= j < |alive| && alive[j] ==> Count(m, urls[b]) <= Count(m, urls[j]))
    && (forall j :: 0 <= j < b && alive[j] ==> Count(m, urls[b]) < Count(m, urls[j]))
  }

  ghost predicate Open(alive: seq<bool>, urls: seq<string>, m: Counters)
    requires |alive| == |urls|
  {
    exists j :: 0 <= j < |alive| && alive[j] && Count(m, urls[j]) < INT64_MAX
  }

  /** What the loop knows after looking at the first i backends. */
  ghost predicate BestSoFar(alive: seq<bool>, urls: seq<string>, m: Counters, i: nat, best: Option<nat>, min: int64)
    requires |alive| == |urls| && i <= |alive|
  {
    && (best.None? ==> min == INT64_MAX)
    && (best.Some? ==> best.value < i && alive[best.value] && Count(m, urls[best.value]) == min < INT64_MAX)
    && (forall j :: 0 <= j < i && alive[j] ==> min <= Count(m, urls[j]))
    && (best.Some? ==> forall j :: 0 <= j < best.value && alive[j] ==> min < Count(m, urls[j]))
  }

  lemma {:induction false} LeastFromIsBest(
      alive: seq<bool>, urls: seq<string>, m: Counters, i: nat, best: Option<nat>, min: int64)
    requires |alive| == |urls| && i <= |alive| && BestSoFar(alive, urls, m, i, best, min)
    ensures var r := LeastFrom(alive, urls, m, i, best, min);
      && (r.Some? ==> FirstLeast(alive, urls, m, r.value))
      && (r.None? ==> !Open(alive, urls, m))
    decreases |alive| - i
  {
    if i < |alive| {
      if alive[i] && Count(m, urls[i]) < min {
        LeastFromIsBest(alive, urls, m, i + 1, Some(i), Count(m, urls[i]));
      } else {
        LeastFromIsBest(alive, urls, m, i + 1, best, min);
      }
    }
  }

  /** The choice is the first live backend of least count, and there is one
      exactly when some live count is below the greatest int. */
  lemma LeastPickIsLeast(alive: seq<bool>, urls: seq<string>, m: Counters)
    requires |alive| == |urls|
    ensures var r := LeastPick(alive, urls, m);
      && (r.Some? <==> Open(alive, urls, m))
      && (forall b: nat :: r == Some(b) <==> FirstLeast(alive, urls, m, b))
  {
    LeastFromIsBest(alive, urls, m, 0, None, INT64_MAX);
  }

  // ----- Counters over runs -----

  datatype Change = Up(url: string) | Down(url: string)

  function After(m: Counters, c: Change): Counters {
    if c.Up? then Increment(m, c.url) else Decrement(m, c.url)
  }

  ghost predicate NonNegative(m: Counters) {
    forall u: string :: 0 <= Count(m, u)
  }

  /** No count is negative before, during or after the changes. */
  ghost predicate AlwaysNonNegative(m: Counters, changes: seq<Change>)
    decreases |changes|
  {
    NonNegative(m) && (changes == [] || AlwaysNonNegative(After(m, changes[0]), changes[1..]))
  }

  /** No change increments a count that stands at the greatest int. */
  predicate NeverSaturates(m: Counters, changes: seq<Change>)
    decreases |changes|
  {
    changes == [] ||
    (!(changes[0].Up? && Count(m, changes[0].url) == INT64_MAX)
     && NeverSaturates(After(m, changes[0]), changes[1..]))
  }

  lemma ChangeKeepsNonNegative(m: Counters, c: Change)
    requires NonNegative(m)
    ensures NonNegative(After(m, c)) <==> !(c.Up? && Count(m, c.url) == INT64_MAX)
  {
    var m' := After(m, c);
    assert 0 <= Count(m, c.url);
    if c.Up? && Count(m, c.url) == INT64_MAX {
      assert Count(m', c.url) < 0;
    } else {
      forall u: string ensures 0 <= Count(m', u) {
        assert 0 <= Count(m, u);
      }
    }
  }

  /** Over any mix of increments and decrements counts never go negative,
      exactly unless an increment meets the greatest int. */
  lemma {:induction false} CountsStayNonNegative(m: Counters, changes: seq<Change>)
    requires NonNegative(m)
    ensures AlwaysNonNegative(m, changes) <==> NeverSaturates(m, changes)
    decreases |changes|
  {
    if changes != [] {
      ChangeKeepsNonNegative(m, changes[0]);
      if NonNegative(After(m, changes[0])) {
        CountsStayNonNegative(After(m, changes[0]), changes[1..]);
      }
    }
  }

  ghost predicate AtMost(m: Counters, top: int) {
    forall u: string :: Count(m, u) <= top
  }

  /** From counts of at most `top`, fewer than 2^63 - top changes cannot meet it. */
  lemma {:induction false} FewChangesDoNotSaturate(m: Counters, changes: seq<Change>, top: nat)
    requires AtMost(m, top) && top + |changes| <= INT64_MAX
    ensures NeverSaturates(m, changes)
    decreases |changes|
  {
    if changes != [] {
      var c := changes[0];
      assert Count(m, c.url) <= top;
      forall u: string ensures Count(After(m, c), u) <= top + 1 {
        assert Count(m, u) <= top;
      }
      FewChangesDoNotSaturate(After(m, c), changes[1..], top + 1);
    }
  }

  function AfterAll(m: Counters, changes: seq<Change>): Counters
    decreases |changes|
  {
    if changes == [] then m else After(AfterAll(m, changes[..|changes| - 1]), changes[|changes| - 1])
  }

  /** Connections opened and not closed: a close without an open one is ignored. */
  function OpenConnections(changes: seq<Change>, url: string): nat
    decreases |changes|
  {
    if changes == [] then 0
    else
      var before, c := OpenConnections(changes[..|changes| - 1], url), changes[|changes| - 1];
      if c.url != url then before else if c.Up? then before + 1 else if before > 0 then before - 1 else 0
  }

  /** A new pool counts nothing, and from then on each count is the number of open connections of its URL,
      for every sequence of at most 2^63 - 1 changes. */
  lemma {:induction false} CountsAreOpenConnections(changes: seq<Change>, url: string)
    requires |changes| <= INT64_MAX
    ensures Count(AfterAll(map[], changes), url) == OpenConnections(changes, url) <= |changes|
    decreases |changes|
  {
    if changes != [] {
      CountsAreOpenConnections(changes[..|changes| - 1], url);
      CountsAreOpenConnections(changes[..|changes| - 1], changes[|changes| - 1].url);
    }
  }

  /** A decrement undoes an increment, for every URL, below the greatest int. */
  lemma DecrementUndoesIncrement(m: Counters, url: string)
    requires 0 <= Count(m, url) < INT64_MAX
    ensures forall u: string :: Count(Decrement(Increment(m, url), url), u) == Count(m, u)
  {
  }

  /** Serve k requests: pick, then count the connection on the picked URL. */
  function Serve(alive: seq<bool>, urls: seq<string>, m: Counters, k: nat): Counters
    requires |alive| == |urls|
    decreases k
  {
    if k == 0 then m
    else
      var r := LeastPick(alive, urls, m);
      if r.Some? && r.value < |urls| then Serve(alive, urls, Increment(m, urls[r.value]), k - 1) else m
  }

  /** Live counts are within one of each other, and none is negative. */
  ghost predicate Even(alive: seq<bool>, urls: seq<string>, m: Counters)
    requires |alive| == |urls|
  {
    forall i, j :: 0 <= i < |alive| && 0 <= j < |alive| && alive[i] && alive[j] ==>
      0 <= Count(m, urls[i]) <= Count(m, urls[j]) + 1
  }

  lemma ServingKeepsEven(alive: seq<bool>, urls: seq<string>, m: Counters, b: nat)
    requires |alive| == |urls| && Even(alive, urls, m) && FirstLeast(alive, urls, m, b)
    ensures Even(alive, urls, Increment(m, urls[b]))
  {
    var m' := Increment(m, urls[b]);
    forall i, j | 0 <= i < |alive| && 0 <= j < |alive| && alive[i] && alive[j]
      ensures 0 <= Count(m', urls[i]) <= Count(m', urls[j]) + 1
    {
      assert 0 <= Count(m, urls[i]) <= Count(m, urls[j]) + 1;
      assert 0 <= Count(m, urls[j]);
      assert 0 <= Count(m, urls[b]) <= Count(m, urls[j]);
    }
  }

  /** With liveness fixed, picking and then counting keeps live counts within one of each other. */
  lemma {:induction false} LeastConnectionsStaysEven(alive: seq<bool>, urls: seq<string>, m: Counters, k: nat)
    requires |alive| == |urls| && Even(alive, urls, m)
    ensures Even(alive, urls, Serve(alive, urls, m, k))
    decreases k
  {
    if k > 0 {
      LeastPickIsLeast(alive, urls, m);
      var r := LeastPick(alive, urls, m);
      if r.Some? {
        ServingKeepsEven(alive, urls, m, r.value);
        LeastConnectionsStaysEven(alive, urls, Increment(m, urls[r.value]), k - 1);
      }
    }
  }

  /** From zero counts, and for any number of requests. */
  lemma LeastConnectionsFromZero(alive: seq<bool>, urls: seq<string>, k: nat, i: nat, j: nat)
    requires |alive| == |urls| && i < |alive| && j < |alive| && alive[i] && alive[j]
    ensures var m := Serve(alive, urls, map[], k);
      0 <= Count(m, urls[i]) <= Count(m, urls[j]) + 1
  {
    LeastConnectionsStaysEven(alive, urls, map[], k);
  }
}
