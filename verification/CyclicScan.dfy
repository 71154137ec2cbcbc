/** Round robin of the pool: claim a uint64 counter, then scan the backends cyclically for a live one. */
module CyclicScan {
  import opened Machine
  import opened Arithmetic

  /** The i-th position looked at; the sum is a uint64 and wraps around. */
  function Index(next: int, i: int, n: nat): nat
    requires 0 < n
  {
    ((next + i) % WORD) % n
  }

  function ScanFrom(alive: seq<bool>, next: int, i: nat): Option<nat>
    requires alive != []
    decreases |alive| - i
  {
    if i >= |alive| then None
    else if alive[Index(next, i, |alive|)] then Some(Index(next, i, |alive|))
    else ScanFrom(alive, next, i + 1)
  }

  /** The backend that the claim `next` selects. */
  function Pick(alive: seq<bool>, next: int): Option<nat>
    requires alive != []
  {
    ScanFrom(alive, next, 0)
  }

  predicate SomeAlive(alive: seq<bool>) {
    exists b :: 0 <= b < |alive| && alive[b]
  }

  /** Positions of the live ones of the first i backends, in order. */
  function LiveList(alive: seq<bool>, i: nat): (live: seq<nat>)
    requires i <= |alive|
    ensures forall k :: 0 <= k < |live| ==> live[k] < i && alive[live[k]]
    ensures forall j, k :: 0 <= j < k < |live| ==> live[j] < live[k]
    ensures forall b :: 0 <= b < i && alive[b] ==> b in live
  {
    if i == 0 then [] else LiveList(alive, i - 1) + (if alive[i - 1] then [i - 1] else [])
  }

  /** Positions of all live backends. */
  function LivePositions(alive: seq<bool>): (live: seq<nat>)
    ensures live == [] <==> !SomeAlive(alive)
  {
    var live := LiveList(alive, |alive|);
    assert live != [] ==> alive[live[0]];
    live
  }

  /** A scan result is a live backend; without one, no position looked at was live. */
  lemma {:induction false} ScanFinds(alive: seq<bool>, next: int, i: nat)
    requires alive != []
    ensures var r := ScanFrom(alive, next, i);
      && (r.Some? ==> r.value < |alive| && alive[r.value])
      && (r.None? <==> forall j :: i <= j < |alive| ==> !alive[Index(next, j, |alive|)])
    decreases |alive| - i
  {
    if i < |alive| && !alive[Index(next, i, |alive|)] {
      ScanFinds(alive, next, i + 1);
    }
  }

  // ----- Which claims look at every backend -----

  /** The scan from `next` looks at backend b. */
  predicate Visits(next: int, n: nat, b: int)
    requires 0 < n
  {
    exists i :: 0 <= i < n && Index(next, i, n) == b
  }

  predicate Covers(next: int, n: nat)
    requires 0 < n
  {
    forall b :: 0 <= b < n ==> Visits(next, n, b)
  }

  /** Checkable form: the sum never wraps during the scan, or wrapping is harmless. */
  predicate WrapFree(next: int, n: nat)
    requires 0 < n
  {
    next + n <= WORD || WORD % n == 0
  }

  /** Reducing modulo the word first is harmless below the wrap, and everywhere if n divides the word. */
  lemma IndexIsFlat(next: int, i: nat, n: nat)
    requires 0 < n <= WORD && 0 <= next < WORD && i < n
    requires next + i < WORD || WORD % n == 0
    ensures Index(next, i, n) == (next + i) % n
  {
    if next + i >= WORD {
      ModAddMultiple(next + i - WORD, WORD, n);
    }
  }

  /** Steps from counter x forward to the next counter that stands for backend b. */
  function Distance(x: int, b: int, n: nat): (i: nat)
    requires 0 < n && 0 <= b < n
    ensures i < n
  {
    if x % n <= b then b - x % n else b - x % n + n
  }

  lemma DistanceReaches(x: int, b: int, n: nat)
    requires 0 < n && 0 <= b < n
    ensures (x + Distance(x, b, n)) % n == b
  {
    DivMod(x, n);
    if x % n <= b {
      DivModUnique(x + Distance(x, b, n), n, x / n, b);
    } else {
      assert (x / n + 1) * n == (x / n) * n + n;
      DivModUnique(x + Distance(x, b, n), n, x / n + 1, b);
    }
  }

  lemma WrapFreeCovers(next: int, n: nat)
    requires 0 < n <= WORD && 0 <= next < WORD && WrapFree(next, n)
    ensures Covers(next, n)
  {
    forall b | 0 <= b < n ensures Visits(next, n, b) {
      var i := Distance(next, b, n);
      DistanceReaches(next, b, n);
      IndexIsFlat(next, i, n);
    }
  }

  /** The backend that a scan over the wrap never looks at. */
  function Missed(next: int, n: nat): (b: nat)
    requires 0 < n <= WORD && 0 <= next < WORD && !WrapFree(next, n)
    ensures b < n
  {
    var before, r := WORD - next, WORD % n;
    if r <= before then r + n - before - 1 else n - 1
  }

  lemma WrapMisses(next: int, n: nat)
    requires 0 < n <= WORD && 0 <= next < WORD && !WrapFree(next, n)
    ensures !Visits(next, n, Missed(next, n))
  {
    var before, r, b := WORD - next, WORD % n, Missed(next, n);
    forall i | 0 <= i < n ensures Index(next, i, n) != b {
      if i < before {
        // next + i = WORD - (before - i), which stands for r - (before - i), taken modulo n.
        var back := before - i;
        DivMod(WORD, n);
        if back <= r {
          DivModUnique(next + i, n, WORD / n, r - back);
        } else {
          assert (WORD / n - 1) * n == (WORD / n) * n - n;
          DivModUnique(next + i, n, WORD / n - 1, r - back + n);
        }
      } else {
        ModSmall(i - before, n);
      }
    }
  }

  /** The scan looks at every backend exactly when the claim is at most 2^64 - n or n divides 2^64. */
  lemma CoversExactly(next: int, n: nat)
    requires 0 < n <= WORD && 0 <= next < WORD
    ensures Covers(next, n) <==> next <= WORD - n || WORD % n == 0
  {
    if WrapFree(next, n) {
      WrapFreeCovers(next, n);
    } else {
      WrapMisses(next, n);
    }
  }

  lemma FoundWhenCovered(alive: seq<bool>, next: int)
    requires alive != [] && Covers(next, |alive|)
    ensures Pick(alive, next).Some? <==> SomeAlive(alive)
  {
    ScanFinds(alive, next, 0);
    forall b | 0 <= b < |alive| && alive[b] ensures Pick(alive, next).Some? {
      assert Visits(next, |alive|, b);
    }
  }

  /** A claim finds a live backend whenever there is one, for every liveness pattern,
      exactly when it is at most 2^64 - n or n divides 2^64. */
  lemma FoundExactly(next: int, n: nat)
    requires 0 < n <= WORD && 0 <= next < WORD
    ensures (forall alive: seq<bool> {:trigger Pick(alive, next)} :: |alive| == n ==>
              (Pick(alive, next).Some? <==> SomeAlive(alive)))
       <==> next <= WORD - n || WORD % n == 0
  {
    CoversExactly(next, n);
    if WrapFree(next, n) {
      forall alive: seq<bool> | |alive| == n ensures Pick(alive, next).Some? <==> SomeAlive(alive) {
        FoundWhenCovered(alive, next);
      }
    } else {
      var b := Missed(next, n);
      var only := seq(n, i => i == b);
      WrapMisses(next, n);
      ScanFinds(only, next, 0);
      assert only[b];
      forall j | 0 <= j < n ensures !only[Index(next, j, n)] {
        assert Index(next, j, n) != b;
      }
      assert Pick(only, next).None? && SomeAlive(only);
    }
  }
}
