/** How often round robin serves each backend while liveness stays fixed. */
module Shares {
  import opened Machine
  import opened Arithmetic
  import opened CyclicScan

  // ----- The scan without the wrap -----

  /** Backend whose turn it is i counters after x. */
  function Turn(x: nat, i: nat, n: nat): (b: nat)
    requires 0 < n
    ensures b < n
  {
    (x + i) % n
  }

  /** Backend j places before b, cyclically. */
  function Behind(b: nat, j: nat, n: nat): (d: nat)
    requires b < n && j <= n
    ensures d < n
  {
    (b + n - j) % n
  }

  function FlatFrom(alive: seq<bool>, x: nat, i: nat): Option<nat>
    requires alive != []
    decreases |alive| - i
  {
    if i >= |alive| then None
    else if alive[Turn(x, i, |alive|)] then Some(Turn(x, i, |alive|))
    else FlatFrom(alive, x, i + 1)
  }

  /** First live backend at or after counter x. */
  function Flat(alive: seq<bool>, x: nat): Option<nat>
    requires alive != []
  {
    FlatFrom(alive, x, 0)
  }

  lemma {:induction false} ScanIsFlat(alive: seq<bool>, next: nat, i: nat)
    requires 0 < |alive| <= WORD && next < WORD && WrapFree(next, |alive|)
    ensures ScanFrom(alive, next, i) == FlatFrom(alive, next, i)
    decreases |alive| - i
  {
    if i < |alive| {
      IndexIsFlat(next, i, |alive|);
      ScanIsFlat(alive, next, i + 1);
    }
  }

  lemma {:induction false} FlatFromNext(alive: seq<bool>, x: nat, i: nat)
    requires alive != [] && !alive[x % |alive|] && i < |alive|
    ensures FlatFrom(alive, x, i + 1) == FlatFrom(alive, x + 1, i)
    decreases |alive| - i
  {
    if i + 1 < |alive| {
      FlatFromNext(alive, x, i + 1);
    } else {
      ModShift(x, |alive|);
    }
  }

  /** A dead backend passes its turn to the next counter. */
  lemma FlatStep(alive: seq<bool>, x: nat)
    requires alive != []
    ensures Flat(alive, x) == if alive[x % |alive|] then Some(x % |alive|) else Flat(alive, x + 1)
  {
    if !alive[x % |alive|] {
      FlatFromNext(alive, x, 0);
    }
  }

  lemma {:induction false} FlatFromMod(alive: seq<bool>, x: nat, m: nat, i: nat)
    requires alive != [] && m % |alive| == 0
    ensures FlatFrom(alive, x + m, i) == FlatFrom(alive, x, i)
    decreases |alive| - i
  {
    if i < |alive| {
      ModAddMultiple(x + i, m, |alive|);
      assert x + m + i == x + i + m;
      FlatFromMod(alive, x, m, i + 1);
    }
  }

  lemma {:induction false} FlatFinds(alive: seq<bool>, x: nat, i: nat)
    requires alive != []
    ensures var r := FlatFrom(alive, x, i);
      && (r.Some? ==> r.value < |alive| && alive[r.value])
      && (r.None? ==> forall j :: i <= j < |alive| ==> !alive[Turn(x, j, |alive|)])
    decreases |alive| - i
  {
    if i < |alive| && !alive[Turn(x, i, |alive|)] {
      FlatFinds(alive, x, i + 1);
    }
  }

  lemma FlatFound(alive: seq<bool>, x: nat)
    requires alive != [] && SomeAlive(alive)
    ensures Flat(alive, x).Some? && Flat(alive, x).value < |alive|
  {
    FlatFinds(alive, x, 0);
    var b :| 0 <= b < |alive| && alive[b];
    DistanceReaches(x, b, |alive|);
    assert Turn(x, Distance(x, b, |alive|), |alive|) == b;
  }

  // ----- Counting -----

  /** How many of the counters c, ..., c + len - 1 select backend b. */
  function Served(alive: seq<bool>, c: nat, len: nat, b: nat): nat
    requires alive != []
    decreases len
  {
    if len == 0 then 0
    else Served(alive, c, len - 1, b) + (if Flat(alive, c + len - 1) == Some(b) then 1 else 0)
  }

  lemma {:induction false} ServedSplit(alive: seq<bool>, c: nat, first: nat, second: nat, b: nat)
    requires alive != []
    ensures Served(alive, c, first + second, b) == Served(alive, c, first, b) + Served(alive, c + first, second, b)
    decreases second
  {
    if second > 0 {
      ServedSplit(alive, c, first, second - 1, b);
      assert c + (first + second) - 1 == c + first + second - 1;
    }
  }

  lemma {:induction false} ServedAlways(alive: seq<bool>, c: nat, len: nat, b: nat)
    requires alive != []
    requires forall x :: c <= x < c + len ==> Flat(alive, x) == Some(b)
    ensures Served(alive, c, len, b) == len
    decreases len
  {
    if len > 0 {
      ServedAlways(alive, c, len - 1, b);
    }
  }

  lemma {:induction false} ServedNever(alive: seq<bool>, c: nat, len: nat, b: nat)
    requires alive != []
    requires forall x :: c <= x < c + len ==> Flat(alive, x) != Some(b)
    ensures Served(alive, c, len, b) == 0
    decreases len
  {
    if len > 0 {
      ServedNever(alive, c, len - 1, b);
    }
  }

  /** A window of n counters serves the same wherever it starts. */
  lemma {:induction false} ServedAnywhere(alive: seq<bool>, c: nat, b: nat)
    requires alive != []
    ensures Served(alive, c, |alive|, b) == Served(alive, 0, |alive|, b)
    decreases c
  {
    if c > 0 {
      var n := |alive|;
      ServedAnywhere(alive, c - 1, b);
      ServedSplit(alive, c - 1, 1, n, b);
      ServedSplit(alive, c - 1, n, 1, b);
      DivModUnique(n, n, 1, 0);
      FlatFromMod(alive, c - 1, n, 0);
      assert c - 1 + 1 == c && 1 + n == n + 1;
      assert Served(alive, c - 1, 1, b) == Served(alive, c - 1 + n, 1, b);
    }
  }

  // ----- Exact shares -----

  function GapFrom(alive: seq<bool>, b: nat, j: nat): nat
    requires b < |alive| && 0 < j
    decreases |alive| - j
  {
    if j < |alive| && !alive[Behind(b, j, |alive|)] then 1 + GapFrom(alive, b, j + 1) else 0
  }

  /** Number of consecutive dead backends cyclically just before b. */
  function Gap(alive: seq<bool>, b: nat): nat
    requires b < |alive|
  {
    GapFrom(alive, b, 1)
  }

  lemma {:induction false} GapFacts(alive: seq<bool>, b: nat, j: nat)
    requires b < |alive| && 0 < j <= |alive|
    ensures var n, g := |alive|, GapFrom(alive, b, j);
      && j + g <= n
      && (forall i :: j <= i < j + g ==> !alive[Behind(b, i, n)])
      && (j + g < n ==> alive[Behind(b, j + g, n)])
    decreases |alive| - j
  {
    if j < |alive| && !alive[Behind(b, j, |alive|)] {
      GapFacts(alive, b, j + 1);
      assert j + GapFrom(alive, b, j) == j + 1 + GapFrom(alive, b, j + 1);
    }
  }

  /** Share of backend b in any n consecutive picks. */
  function Share(alive: seq<bool>, b: nat): nat
    requires b < |alive|
  {
    if alive[b] then 1 + Gap(alive, b) else 0
  }

  /** The counters of the gap before a live backend all fall through to it. */
  lemma {:induction false} GapFallsThrough(alive: seq<bool>, b: nat, i: nat)
    requires b < |alive| && alive[b] && i <= Gap(alive, b)
    ensures i < |alive| && Flat(alive, b + |alive| - i) == Some(b)
    decreases i
  {
    var n := |alive|;
    GapFacts(alive, b, 1);
    FlatStep(alive, b + n - i);
    if i == 0 {
      DivModUnique(b + n, n, 1, b);
    } else {
      GapFallsThrough(alive, b, i - 1);
      assert !alive[Behind(b, i, n)];
      assert b + n - i + 1 == b + n - (i - 1);
    }
  }

  lemma BetweenTurns(x: nat, b: nat, n: nat)
    requires b < n && b < x < b + n
    ensures x % n != b
  {
    if x < n {
      ModSmall(x, n);
    } else {
      DivModUnique(x, n, 1, x - n);
    }
  }

  /** A counter before a live backend `stop` (itself short of b's turn) never reaches b. */
  lemma {:induction false} StoppedBefore(alive: seq<bool>, b: nat, x: nat, stop: nat)
    requires b < |alive| && b < x <= stop < b + |alive| && alive[stop % |alive|]
    ensures Flat(alive, x) != Some(b)
    decreases stop - x
  {
    BetweenTurns(x, b, |alive|);
    FlatStep(alive, x);
    if !alive[x % |alive|] {
      StoppedBefore(alive, b, x + 1, stop);
    }
  }

  lemma SharesOfTurn(alive: seq<bool>, b: nat)
    requires b < |alive|
    ensures Served(alive, b + 1, |alive|, b) == Share(alive, b)
  {
    var n := |alive|;
    if alive[b] {
      var g := Gap(alive, b);
      GapFacts(alive, b, 1);
      var stop := b + n - (1 + g);
      assert Behind(b, 1 + g, n) == stop % n;
      forall x | b + 1 <= x < b + n - g ensures Flat(alive, x) != Some(b) {
        StoppedBefore(alive, b, x, stop);
      }
      forall x | b + n - g <= x < b + n + 1 ensures Flat(alive, x) == Some(b) {
        GapFallsThrough(alive, b, b + n - x);
      }
      ServedNever(alive, b + 1, n - g - 1, b);
      ServedAlways(alive, b + n - g, g + 1, b);
      ServedSplit(alive, b + 1, n - g - 1, g + 1, b);
    } else {
      forall x | b + 1 <= x < b + 1 + n ensures Flat(alive, x) != Some(b) {
        FlatFinds(alive, x, 0);
      }
      ServedNever(alive, b + 1, n, b);
    }
  }

  lemma FlatShares(alive: seq<bool>, c: nat, b: nat)
    requires b < |alive|
    ensures Served(alive, c, |alive|, b) == Share(alive, b)
  {
    ServedAnywhere(alive, c, b);
    ServedAnywhere(alive, b + 1, b);
    SharesOfTurn(alive, b);
  }

  // ----- The same for the uint64 counter -----

  /** How many of `len` claims from counter c on select backend b. */
  function Claims(alive: seq<bool>, c: nat, len: nat, b: nat): nat
    requires alive != []
    decreases len
  {
    if len == 0 then 0
    else Claims(alive, c, len - 1, b) + (if Pick(alive, (c + len - 1) % WORD) == Some(b) then 1 else 0)
  }

  lemma ClaimIsFlat(alive: seq<bool>, x: nat)
    requires 0 < |alive| <= WORD && x < 2 * WORD
    requires x + |alive| <= WORD || WORD % |alive| == 0
    ensures Pick(alive, x % WORD) == Flat(alive, x)
  {
    ModOnce(x, WORD);
    if x < WORD {
      ScanIsFlat(alive, x, 0);
    } else {
      ScanIsFlat(alive, x - WORD, 0);
      FlatFromMod(alive, x - WORD, WORD, 0);
    }
  }

  lemma {:induction false} ClaimsAreFlat(alive: seq<bool>, c: nat, len: nat, b: nat)
    requires 0 < |alive| <= WORD && c + len <= 2 * WORD
    requires c + len + |alive| <= WORD + 1 || WORD % |alive| == 0
    ensures Claims(alive, c, len, b) == Served(alive, c, len, b)
    decreases len
  {
    if len > 0 {
      ClaimIsFlat(alive, c + len - 1);
      ClaimsAreFlat(alive, c, len - 1, b);
    }
  }

  /** With liveness fixed and no counter wrap (or n dividing 2^64), any n consecutive claims select each live
      backend exactly 1 + g times, g being the dead backends cyclically just before it, and no dead one. */
  lemma RoundRobinShares(alive: seq<bool>, c: nat, b: nat)
    requires b < |alive| <= WORD && c < WORD
    requires c + 2 * |alive| <= WORD + 1 || WORD % |alive| == 0
    ensures Claims(alive, c, |alive|, b) == if alive[b] then 1 + Gap(alive, b) else 0
  {
    ClaimsAreFlat(alive, c, |alive|, b);
    FlatShares(alive, c, b);
  }

  function TotalServed(alive: seq<bool>, c: nat, len: nat, upTo: nat): nat
    requires alive != []
    decreases upTo
  {
    if upTo == 0 then 0 else TotalServed(alive, c, len, upTo - 1) + Served(alive, c, len, upTo - 1)
  }

  function TotalShares(alive: seq<bool>, upTo: nat): nat
    requires upTo <= |alive|
  {
    if upTo == 0 then 0 else TotalShares(alive, upTo - 1) + Share(alive, upTo - 1)
  }

  lemma {:induction false} TotalServedStep(alive: seq<bool>, c: nat, len: nat, upTo: nat)
    requires SomeAlive(alive) && 0 < len
    ensures Flat(alive, c + len - 1).Some?
    ensures TotalServed(alive, c, len, upTo)
         == TotalServed(alive, c, len - 1, upTo) + (if Flat(alive, c + len - 1).value < upTo then 1 else 0)
    decreases upTo
  {
    FlatFound(alive, c + len - 1);
    if upTo > 0 {
      TotalServedStep(alive, c, len, upTo - 1);
    }
  }

  lemma {:induction false} NothingServed(alive: seq<bool>, c: nat, upTo: nat)
    requires alive != []
    ensures TotalServed(alive, c, 0, upTo) == 0
    decreases upTo
  {
    if upTo > 0 {
      NothingServed(alive, c, upTo - 1);
    }
  }

  lemma {:induction false} EveryPickServesOne(alive: seq<bool>, c: nat, len: nat)
    requires SomeAlive(alive)
    ensures TotalServed(alive, c, len, |alive|) == len
    decreases len
  {
    if len == 0 {
      NothingServed(alive, c, |alive|);
    } else {
      TotalServedStep(alive, c, len, |alive|);
      FlatFound(alive, c + len - 1);
      EveryPickServesOne(alive, c, len - 1);
    }
  }

  lemma {:induction false} TotalsAgree(alive: seq<bool>, upTo: nat)
    requires alive != [] && upTo <= |alive|
    ensures TotalShares(alive, upTo) == TotalServed(alive, 0, |alive|, upTo)
    decreases upTo
  {
    if upTo > 0 {
      TotalsAgree(alive, upTo - 1);
      FlatShares(alive, 0, upTo - 1);
    }
  }

  /** The shares 1 + g of the live backends sum to the number of backends. */
  lemma SharesSumToAll(alive: seq<bool>)
    requires SomeAlive(alive)
    ensures TotalShares(alive, |alive|) == |alive|
  {
    TotalsAgree(alive, |alive|);
    EveryPickServesOne(alive, 0, |alive|);
  }

  // ----- Balance when every backend is alive -----

  predicate AllAlive(alive: seq<bool>) {
    forall b :: 0 <= b < |alive| ==> alive[b]
  }

  lemma FlatOnceEach(alive: seq<bool>, c: nat, b: nat)
    requires AllAlive(alive) && b < |alive|
    ensures Served(alive, c, |alive|, b) == 1
  {
    FlatShares(alive, c, b);
    GapFacts(alive, b, 1);
  }

  lemma {:induction false} ServedGrows(alive: seq<bool>, c: nat, len: nat, more: nat, b: nat)
    requires alive != [] && len <= more
    ensures Served(alive, c, len, b) <= Served(alive, c, more, b)
    decreases more
  {
    if len < more {
      ServedGrows(alive, c, len, more - 1, b);
    }
  }

  lemma {:induction false} FlatBalance(alive: seq<bool>, c: nat, len: nat, a: nat, b: nat)
    requires AllAlive(alive) && a < |alive| && b < |alive|
    ensures Served(alive, c, len, a) <= Served(alive, c, len, b) + 1
    decreases len
  {
    var n := |alive|;
    if len < n {
      ServedGrows(alive, c, len, n, a);
      FlatOnceEach(alive, c, a);
    } else {
      ServedSplit(alive, c, n, len - n, a);
      ServedSplit(alive, c, n, len - n, b);
      FlatOnceEach(alive, c, a);
      FlatOnceEach(alive, c, b);
      FlatBalance(alive, c + n, len - n, a, b);
    }
  }

  /** When every backend is alive the first position decides, so only the counter itself can wrap. */
  lemma AllAlivePick(alive: seq<bool>, x: nat)
    requires AllAlive(alive) && 0 < |alive| && x < WORD
    ensures Pick(alive, x) == Flat(alive, x) == Some(x % |alive|)
  {
    ModSmall(x, WORD);
  }

  lemma {:induction false} AllAliveClaims(alive: seq<bool>, c: nat, len: nat, b: nat)
    requires AllAlive(alive) && 0 < |alive| && c < WORD && c + len <= 2 * WORD
    ensures Claims(alive, c, len, b) ==
      if c + len <= WORD then Served(alive, c, len, b)
      else Served(alive, c, WORD - c, b) + Served(alive, 0, c + len - WORD, b)
    decreases len
  {
    if len > 0 {
      AllAliveClaims(alive, c, len - 1, b);
      var x := c + len - 1;
      ModOnce(x, WORD);
      if x < WORD {
        AllAlivePick(alive, x);
      } else {
        AllAlivePick(alive, x - WORD);
        assert 0 + (c + len - WORD) - 1 == x - WORD;
      }
    }
  }

  /** With all backends alive, n consecutive claims select each of them exactly once, unless they cross the wrap
      (or even then if n divides 2^64). */
  lemma OnceEach(alive: seq<bool>, c: nat, b: nat)
    requires AllAlive(alive) && b < |alive| <= WORD && c < WORD
    requires c + |alive| <= WORD || WORD % |alive| == 0
    ensures Claims(alive, c, |alive|, b) == 1
  {
    FlatOnceEach(alive, c, b);
    if c + |alive| <= WORD {
      AllAliveClaims(alive, c, |alive|, b);
    } else {
      ClaimsAreFlat(alive, c, |alive|, b);
    }
  }

  /** With all backends alive, the pick counts of any two differ by at most 1 in a run of claims that does
      not wrap, and by at most 2 in a run that wraps once. */
  lemma {:induction false} RoundRobinBalance(alive: seq<bool>, c: nat, len: nat, a: nat, b: nat)
    requires AllAlive(alive) && a < |alive| && b < |alive| && c < WORD && c + len <= 2 * WORD
    ensures Claims(alive, c, len, a) <= Claims(alive, c, len, b) + (if c + len <= WORD then 1 else 2)
  {
    AllAliveClaims(alive, c, len, a);
    AllAliveClaims(alive, c, len, b);
    if c + len <= WORD {
      FlatBalance(alive, c, len, a, b);
    } else {
      FlatBalance(alive, c, WORD - c, a, b);
      FlatBalance(alive, 0, c + len - WORD, a, b);
    }
  }

  /** Both differences occur: three live backends, two claims across the wrap, both go to the first. */
  lemma WrapUnbalances()
    ensures var alive := [true, true, true];
      Claims(alive, WORD - 1, 2, 0) == 2 && Claims(alive, WORD - 1, 2, 1) == 0
  {
    var alive := [true, true, true];
    AllAlivePick(alive, WORD - 1);
    AllAlivePick(alive, 0);
    assert (WORD - 1) % 3 == 0;
    assert Claims(alive, WORD - 1, 1, 0) == 1 && Claims(alive, WORD - 1, 1, 1) == 0;
  }
}
