/** The round-robin strategy over a list of backends, the simple form of the pool's scan. */
module Balancing {
  import opened Machine
  import opened Arithmetic
  import opened CyclicScan
  import opened Shares

  class RoundRobinStrategy {
    var current: uint64

    constructor ()
      ensures current == 0
    {
      current := 0;
    }

    /** None stands for ErrNoHealthyBackends; the counter moves only when a backend is selected. */
    method SelectBackend<T>(backends: seq<T>) returns (r: Option<T>)
      modifies this
      ensures backends == [] ==> r == None && current == old(current)
      ensures backends != [] ==>
        r == Some(backends[Selected(old(current), |backends|)]) && current == (old(current) + 1) % WORD
    {
      if backends == [] {
        return None;
      }
      var idx := current;
      current := (current + 1) % WORD;
      return Some(backends[idx % |backends|]);
    }
  }

  function Selected(counter: nat, n: nat): (b: nat)
    requires 0 < n
    ensures b < n
  {
    counter % n
  }

  /** With all backends alive the pool's scan selects what the strategy selects for the same counter. */
  lemma PoolIsStrategyWhenAllAlive(alive: seq<bool>, counter: nat)
    requires AllAlive(alive) && 0 < |alive| && counter < WORD
    ensures Pick(alive, counter) == Some(Selected(counter, |alive|))
  {
    AllAlivePick(alive, counter);
  }

  /** How many of the strategy's counters c, ..., c + len - 1 select backend b from the list. */
  function Selections(live: seq<nat>, c: nat, len: nat, b: nat): nat
    requires live != []
    decreases len
  {
    if len == 0 then 0
    else Selections(live, c, len - 1, b) + (if live[Selected((c + len - 1) % WORD, |live|)] == b then 1 else 0)
  }

  lemma {:induction false} SelectionsAreServed(live: seq<nat>, all: seq<bool>, c: nat, len: nat, p: nat)
    requires 0 < |live| == |all| && AllAlive(all) && p < |live| && c + len <= WORD
    requires forall j, k :: 0 <= j < k < |live| ==> live[j] < live[k]
    ensures Selections(live, c, len, live[p]) == Served(all, c, len, p)
    decreases len
  {
    if len > 0 {
      SelectionsAreServed(live, all, c, len - 1, p);
      ModSmall(c + len - 1, WORD);
      AllAlivePick(all, c + len - 1);
      var q := Selected(c + len - 1, |live|);
      assert live[q] == live[p] <==> q == p;
    }
  }

  /** On the list of the h live backends the strategy picks each of them exactly once in any h consecutive calls
      without a counter wrap: equal shares, where the pool's scan gives 1 + g. */
  lemma {:induction false} StrategySharesAreEqual(alive: seq<bool>, c: nat, b: nat)
    requires b < |alive| && alive[b]
    requires c + |LivePositions(alive)| <= WORD
    ensures LivePositions(alive) != []
    ensures Selections(LivePositions(alive), c, |LivePositions(alive)|, b) == 1
  {
    var live := LivePositions(alive);
    assert b in live;
    var p :| 0 <= p < |live| && live[p] == b;
    var all := seq(|live|, _ => true);
    SelectionsAreServed(live, all, c, |live|, p);
    FlatOnceEach(all, c, p);
  }
}
