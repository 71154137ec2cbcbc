/** The in-memory backend pool: shared liveness flags, a claim counter, connection counters. */
module MemoryPool {
  import opened Machine
  import opened Arithmetic
  import opened CyclicScan
  import opened LeastConnections

  const ROUND_ROBIN := "round-robin"
  const LEAST_CONNECTIONS := "least-connections"
  const RANDOM := "random"

  /** A backend with its atomic liveness flag. */
  class BackendState {
    const url: string
    var alive: bool

    constructor (url: string)
      ensures this.url == url && alive
    {
      this.url := url;
      this.alive := true;
    }
  }

  /** Liveness after every backend with URL `url` was set to `v`. */
  function Marked(urls: seq<string>, alive: seq<bool>, url: string, v: bool): seq<bool>
    requires |alive| == |urls|
  {
    seq(|alive|, i requires 0 <= i < |alive| => if urls[i] == url then v else alive[i])
  }

  /** URLs of the live backends. */
  function LiveUrls(urls: seq<string>, alive: seq<bool>): set<string>
    requires |alive| == |urls|
  {
    set i | 0 <= i < |urls| && alive[i] :: urls[i]
  }

  /** Marking a URL dead takes exactly that URL away, marking it alive adds it if the pool knows it. */
  lemma MarkedLiveUrls(urls: seq<string>, alive: seq<bool>, url: string, v: bool)
    requires |alive| == |urls|
    ensures LiveUrls(urls, Marked(urls, alive, url, v))
         == if v && url in urls then LiveUrls(urls, alive) + {url} else LiveUrls(urls, alive) - {url}
  {
    var marked := Marked(urls, alive, url, v);
    forall u: string
      ensures u in LiveUrls(urls, marked)
         <==> u in if v && url in urls then LiveUrls(urls, alive) + {url} else LiveUrls(urls, alive) - {url}
    {
      if u in LiveUrls(urls, alive) {
        var i :| 0 <= i < |urls| && alive[i] && urls[i] == u;
        if u != url {
          assert marked[i];
        }
      }
      if v && url in urls && u == url {
        var i :| 0 <= i < |urls| && urls[i] == url;
        assert marked[i];
      }
    }
  }

  /** What decides a selection beside the counter and the liveness flags. */
  datatype Setup = Setup(strategy: string, urls: seq<string>, counts: Counters)

  /** Where the counter stands after k selections. */
  function Advance(strategy: string, current: nat, k: nat): nat {
    if strategy == LEAST_CONNECTIONS || strategy == RANDOM then current else (current + k) % WORD
  }

  lemma AdvanceAdds(strategy: string, current: nat, j: nat, k: nat)
    ensures Advance(strategy, Advance(strategy, current, j), k) == Advance(strategy, current, j + k)
  {
    ModOfMod(current + j, k, WORD);
  }

  /** The live backend at the position that the random number points to. */
  function RandomPick(alive: seq<bool>, random: nat): Option<nat> {
    var live := LivePositions(alive);
    if live == [] then None else Some(live[random % |live|])
  }

  lemma RandomPickFinds(alive: seq<bool>, random: nat)
    ensures var r := RandomPick(alive, random);
      (r.Some? <==> SomeAlive(alive)) && (r.Some? ==> r.value < |alive| && alive[r.value])
  {
  }

  /** Every live backend can be chosen: exactly one random number below the number of live backends points to it. */
  lemma RandomPicksEach(alive: seq<bool>, b: nat) returns (k: nat)
    requires b < |alive| && alive[b]
    ensures k < |LivePositions(alive)| && RandomPick(alive, k) == Some(b)
    ensures forall j: nat :: j < |LivePositions(alive)| && RandomPick(alive, j) == Some(b) ==> j == k
  {
    var live := LivePositions(alive);
    assert b in live;
    k :| 0 <= k < |live| && live[k] == b;
    ModSmall(k, |live|);
    forall j: nat | j < |live| && RandomPick(alive, j) == Some(b) ensures j == k {
      ModSmall(j, |live|);
    }
  }

  /** The backend that is selected when the counter stands at `current`; an unknown strategy is round robin. */
  function Select(s: Setup, current: nat, alive: seq<bool>, random: nat): (r: Option<nat>)
    requires |alive| == |s.urls| > 0
    ensures r.Some? ==> r.value < |alive| && alive[r.value]
  {
    LeastPickIsLeast(alive, s.urls, s.counts);
    ScanFinds(alive, current, 0);
    if s.strategy == LEAST_CONNECTIONS then LeastPick(alive, s.urls, s.counts)
    else if s.strategy == RANDOM then RandomPick(alive, random)
    else Pick(alive, current)
  }

  /** What the names mean, and that only round robin, which an unknown name falls back to, moves the counter. */
  lemma SelectsByName(s: Setup, current: nat, alive: seq<bool>, random: nat)
    requires |alive| == |s.urls| > 0
    ensures var b, next := Select(s, current, alive, random), Advance(s.strategy, current, 1);
      if s.strategy == "least-connections" then b == LeastPick(alive, s.urls, s.counts) && next == current
      else if s.strategy == "random" then b == RandomPick(alive, random) && next == current
      else b == Pick(alive, current) && next == (current + 1) % WORD
  {
  }

  /** The guards that decide whether a selection finds a live backend whenever there is one: for round robin that the
      scan does not cross the counter wrap (or n divides 2^64), for least-connections that no count is the
      greatest int. */
  ghost predicate SureToFind(s: Setup, current: nat)
    requires s.urls != []
  {
    if s.strategy == LEAST_CONNECTIONS then forall i :: 0 <= i < |s.urls| ==> Count(s.counts, s.urls[i]) < INT64_MAX
    else s.strategy == RANDOM || WrapFree(current, |s.urls|)
  }

  /** A selection that can be trusted finds a backend iff one is alive. */
  lemma SureSelects(s: Setup, current: nat, alive: seq<bool>, random: nat)
    requires |alive| == |s.urls| && 0 < |s.urls| <= WORD && current < WORD && SureToFind(s, current)
    ensures Select(s, current, alive, random).Some? <==> SomeAlive(alive)
  {
    if s.strategy == LEAST_CONNECTIONS {
      LeastPickIsLeast(alive, s.urls, s.counts);
    } else if s.strategy != RANDOM {
      WrapFreeCovers(current, |alive|);
      FoundWhenCovered(alive, current);
    }
  }

  /** A backend that an untrusted selection does not find even if it is the only one alive. */
  ghost function Overlooked(s: Setup, current: nat): (b: nat)
    requires 0 < |s.urls| <= WORD && current < WORD && !SureToFind(s, current)
    ensures b < |s.urls|
  {
    if s.strategy == LEAST_CONNECTIONS
    then var b: nat :| b < |s.urls| && Count(s.counts, s.urls[b]) == INT64_MAX; b
    else Missed(current, |s.urls|)
  }

  /** Exactly the backend b of n is alive. */
  function Only(n: nat, b: nat): (alive: seq<bool>)
    ensures |alive| == n
  {
    seq(n, i => i == b)
  }

  /** An untrusted selection overlooks a backend, whatever the random numbers are. */
  lemma UnsureOverlooks(s: Setup, current: nat, random: nat)
    requires 0 < |s.urls| <= WORD && current < WORD && !SureToFind(s, current)
    ensures Select(s, current, Only(|s.urls|, Overlooked(s, current)), random).None?
  {
    var n, b := |s.urls|, Overlooked(s, current);
    if s.strategy == LEAST_CONNECTIONS {
      LeastPickIsLeast(Only(n, b), s.urls, s.counts);
    } else {
      WrapMisses(current, n);
      ScanFinds(Only(n, b), current, 0);
      assert forall j :: 0 <= j < n ==> Index(current, j, n) != b;
    }
  }

  /** A selection finds a backend whenever one is alive, for every liveness pattern, exactly if it can be trusted. */
  lemma SelectsExactly(s: Setup, current: nat, random: nat)
    requires 0 < |s.urls| <= WORD && current < WORD
    ensures SureToFind(s, current) <==>
      forall alive: seq<bool> {:trigger Select(s, current, alive, random)} ::
        |alive| == |s.urls| ==> (Select(s, current, alive, random).Some? <==> SomeAlive(alive))
  {
    if SureToFind(s, current) {
      forall alive: seq<bool> | |alive| == |s.urls|
        ensures Select(s, current, alive, random).Some? <==> SomeAlive(alive)
      {
        SureSelects(s, current, alive, random);
      }
    } else {
      UnsureOverlooks(s, current, random);
      assert Only(|s.urls|, Overlooked(s, current))[Overlooked(s, current)];
    }
  }

  class Pool {
    const backends: seq<BackendState>
    var current: nat
    var strategy: string
    var connections: Counters

    ghost predicate Valid()
      reads this
    {
      && 0 < |backends| <= INT64_MAX
      && current < WORD
      && forall i, j :: 0 <= i < j < |backends| ==> backends[i] != backends[j]
    }

    function Urls(): (us: seq<string>)
      ensures |us| == |backends|
    {
      seq(|backends|, i requires 0 <= i < |backends| => backends[i].url)
    }

    ghost function Alive(): (s: seq<bool>)
      reads backends
      ensures |s| == |backends|
    {
      seq(|backends|, i requires 0 <= i < |backends| reads backends => backends[i].alive)
    }

    /** What decides the pool's selections, beside counter and liveness. */
    function View(): Setup
      reads this
    {
      Setup(strategy, Urls(), connections)
    }

    /** A pool over the URLs that parse, in order; every backend starts alive. */
    constructor (states: seq<BackendState>)
      requires 0 < |states| <= INT64_MAX
      requires forall i, j :: 0 <= i < j < |states| ==> states[i] != states[j]
      ensures Valid() && backends == states
      ensures current == 0 && strategy == ROUND_ROBIN && connections == map[]
    {
      backends, current, strategy, connections := states, 0, ROUND_ROBIN, map[];
    }

    /** An unknown name is refused and changes nothing. */
    method SetStrategy(name: string) returns (ok: bool)
      requires Valid()
      modifies this`strategy
      ensures Valid()
      ensures ok <==> name in {"round-robin", "least-connections", "random"}
      ensures strategy == if ok then name else old(strategy)
    {
      ok := name == ROUND_ROBIN || name == LEAST_CONNECTIONS || name == RANDOM;
      if ok {
        strategy := name;
      }
    }

    /** Sets every backend with this URL, and no other. */
    method MarkBackendStatus(url: string, v: bool) returns (found: bool)
      requires Valid()
      modifies backends
      ensures Valid()
      ensures Alive() == Marked(Urls(), old(Alive()), url, v)
      ensures found <==> url in Urls()
    {
      found := false;
      for i := 0 to |backends|
        invariant found <==> url in Urls()[..i]
        invariant forall j :: 0 <= j < |backends| ==>
          backends[j].alive == if j < i && Urls()[j] == url then v else old(Alive())[j]
      {
        var b := backends[i];
        assert Urls()[..i + 1] == Urls()[..i] + [b.url];
        if b.url == url {
          var currentState := b.alive;
          if currentState != v {
            b.alive := v;
          }
          found := true;
        }
      }
      assert Urls()[..|backends|] == Urls();
    }

    method GetRoundRobinBackend() returns (r: Option<nat>)
      requires Valid()
      modifies this`current
      ensures Valid()
      ensures r == Pick(Alive(), old(current)) && current == (old(current) + 1) % WORD
    {
      var n := |backends|;
      var nextIndex := current;
      current := (current + 1) % WORD;
      r := None;
      var i := 0;
      while i < n
        invariant 0 <= i <= n && r == None
        invariant ScanFrom(Alive(), nextIndex, i) == Pick(Alive(), nextIndex)
      {
        var idx := ((nextIndex + i) % WORD) % n;
        assert idx == Index(nextIndex, i, n);
        if backends[idx].alive {
          return Some(idx);
        }
        i := i + 1;
      }
    }

    /** A URL that was never counted has no connections. */
    method GetConnectionCount(url: string) returns (n: int64)
      ensures n == Count(connections, url)
      ensures n == if url in connections then connections[url] else 0
    {
      n := 0;
      if url in connections {
        n := connections[url];
      }
    }

    method GetLeastConnectionsBackend() returns (r: Option<nat>)
      requires Valid()
      ensures r == LeastPick(Alive(), Urls(), connections)
    {
      r := None;
      var min: int64 := INT64_MAX;
      var i := 0;
      while i < |backends|
        invariant 0 <= i <= |backends|
        invariant LeastFrom(Alive(), Urls(), connections, i, r, min) == LeastPick(Alive(), Urls(), connections)
      {
        if backends[i].alive {
          var count := GetConnectionCount(backends[i].url);
          if count < min {
            min, r := count, Some(i);
          }
        }
        i := i + 1;
      }
    }

    /** The live backends are listed, and a random number chooses one of them. */
    method GetRandomBackend(random: nat) returns (r: Option<nat>)
      requires Valid()
      ensures r == RandomPick(Alive(), random)
      ensures r.Some? <==> SomeAlive(Alive())
      ensures r.Some? ==> r.value < |backends| && Alive()[r.value]
    {
      var live: seq<nat> := [];
      ghost var alive := Alive();
      for i := 0 to |backends|
        invariant live == LiveList(alive, i)
      {
        if backends[i].alive {
          live := live + [i];
        }
      }
      if live == [] {
        return None;
      }
      var randomIndex := random % |live|;
      return Some(live[randomIndex]);
    }

    /** The strategy decides; an unknown one falls back to round robin. */
    method GetNextHealthyBackend(random: nat) returns (r: Option<nat>)
      requires Valid()
      modifies this`current
      ensures Valid()
      ensures r == Select(View(), old(current), Alive(), random)
      ensures r.Some? ==> r.value < |backends| && Alive()[r.value]
      ensures current == Advance(strategy, old(current), 1)
    {
      if strategy == LEAST_CONNECTIONS {
        r := GetLeastConnectionsBackend();
      } else if strategy == RANDOM {
        r := GetRandomBackend(random);
      } else {
        r := GetRoundRobinBackend();
      }
    }

    method IncrementConnections(url: string)
      modifies this`connections
      ensures connections == Increment(old(connections), url)
    {
      connections := connections[url := Add64(Count(connections, url), 1)];
    }

    method DecrementConnections(url: string)
      modifies this`connections
      ensures connections == Decrement(old(connections), url)
    {
      if Count(connections, url) > 0 {
        connections := connections[url := Count(connections, url) - 1];
      }
    }
  }

  /** The URLs that parse, in order. */
  function Parsed(rawUrls: seq<string>, parse: string -> Option<string>): seq<string> {
    if rawUrls == [] then []
    else
      var last := |rawUrls| - 1;
      Parsed(rawUrls[..last], parse) + (if parse(rawUrls[last]).Some? then [parse(rawUrls[last]).value] else [])
  }

  /** Parsing goes URL by URL, in order. */
  lemma {:induction false} ParsedInOrder(a: seq<string>, b: seq<string>, parse: string -> Option<string>)
    ensures Parsed(a + b, parse) == Parsed(a, parse) + Parsed(b, parse)
    decreases |b|
  {
    if b == [] {
      assert a + b == a;
    } else {
      var last := |b| - 1;
      assert (a + b)[..|a + b| - 1] == a + b[..last];
      ParsedInOrder(a, b[..last], parse);
    }
  }

  /** One URL gives what it parses to, or nothing. */
  lemma ParsedOne(raw: string, parse: string -> Option<string>)
    ensures Parsed([raw], parse) == if parse(raw).None? then [] else [parse(raw).value]
  {
    assert [raw][..0] == [];
  }

  /** A pool's URLs are exactly those that some raw URL parses to. */
  lemma {:induction false} ParsedExactly(rawUrls: seq<string>, parse: string -> Option<string>, url: string)
    ensures url in Parsed(rawUrls, parse) <==> exists i :: 0 <= i < |rawUrls| && parse(rawUrls[i]) == Some(url)
    decreases |rawUrls|
  {
    if rawUrls != [] {
      var last := |rawUrls| - 1;
      ParsedExactly(rawUrls[..last], parse, url);
      forall i | 0 <= i < |rawUrls| && parse(rawUrls[i]) == Some(url) ensures url in Parsed(rawUrls, parse) {
        if i < last {
          assert rawUrls[..last][i] == rawUrls[i];
        }
      }
    }
  }

  /** The states stand for these URLs, all alive and distinct. */
  ghost predicate StandFor(states: seq<BackendState>, urls: seq<string>)
    reads states
  {
    && |states| == |urls|
    && (forall j :: 0 <= j < |states| ==> states[j].alive && states[j].url == urls[j])
    && forall j, k :: 0 <= j < k < |states| ==> states[j] != states[k]
  }

  /** `NewMemoryPool`: skips URLs that do not parse, and fails when none is left. */
  method NewMemoryPool(rawUrls: seq<string>, parse: string -> Option<string>) returns (r: Option<Pool>)
    requires |rawUrls| <= INT64_MAX
    ensures r.None? <==> Parsed(rawUrls, parse) == []
    ensures r.Some? ==>
      var p := r.value;
      && fresh(p) && fresh(p.backends) && p.Valid()
      && p.current == 0 && p.strategy == "round-robin" && p.connections == map[]
      && StandFor(p.backends, Parsed(rawUrls, parse))
  {
    var states: seq<BackendState> := [];
    for i := 0 to |rawUrls|
      invariant fresh(states) && |states| <= i
      invariant StandFor(states, Parsed(rawUrls[..i], parse))
    {
      var url := parse(rawUrls[i]);
      assert rawUrls[..i + 1][..i] == rawUrls[..i];
      if url.Some? {
        var state := new BackendState(url.value);
        states := states + [state];
      }
    }
    assert rawUrls[..|rawUrls|] == rawUrls;
    if states == [] {
      return None;
    }
    var p := new Pool(states);
    return Some(p);
  }
}
