/** The retry loop over the pool. */
module LoadBalancer {
  import opened Machine
  import opened Arithmetic
  import opened CyclicScan
  import opened LeastConnections
  import opened MemoryPool

  const MAX_RETRIES := 3

  predicate Distinct(urls: seq<string>) {
    forall i, j :: 0 <= i < j < |urls| ==> urls[i] != urls[j]
  }

  lemma LiveUrlsEmpty(urls: seq<string>, alive: seq<bool>)
    requires |alive| == |urls|
    ensures LiveUrls(urls, alive) == {} <==> !SomeAlive(alive)
  {
    if SomeAlive(alive) {
      var b :| 0 <= b < |alive| && alive[b];
      assert urls[b] in LiveUrls(urls, alive);
    }
  }

  /** Liveness after the URLs `gone` were marked dead. */
  function Without(urls: seq<string>, alive: seq<bool>, gone: seq<string>): seq<bool>
    requires |alive| == |urls|
  {
    seq(|alive|, i requires 0 <= i < |alive| => alive[i] && urls[i] !in gone)
  }

  function Elements(urls: seq<string>): set<string> {
    set u | u in urls
  }

  lemma WithoutOneMore(urls: seq<string>, alive: seq<bool>, gone: seq<string>, url: string)
    requires |alive| == |urls|
    ensures Marked(urls, Without(urls, alive, gone), url, false) == Without(urls, alive, gone + [url])
  {
  }

  lemma WithoutLiveUrls(urls: seq<string>, alive: seq<bool>, gone: seq<string>)
    requires |alive| == |urls|
    ensures LiveUrls(urls, Without(urls, alive, gone)) == LiveUrls(urls, alive) - Elements(gone)
  {
    var left := Without(urls, alive, gone);
    forall u | u in LiveUrls(urls, alive) - Elements(gone) ensures u in LiveUrls(urls, left) {
      var i :| 0 <= i < |urls| && alive[i] && urls[i] == u;
      assert left[i];
    }
  }

  lemma {:induction false} DistinctElements(urls: seq<string>)
    requires Distinct(urls)
    ensures |Elements(urls)| == |urls|
  {
    if urls != [] {
      var last := |urls| - 1;
      DistinctElements(urls[..last]);
      assert Elements(urls) == Elements(urls[..last]) + {urls[last]};
    }
  }

  /** Attempt k was made on tried[k], and every one of them failed. */
  predicate AllFailed(forward: (nat, string) -> bool, tried: seq<string>) {
    forall k :: 0 <= k < |tried| ==> !forward(k, tried[k])
  }

  lemma OneMoreTried(forward: (nat, string) -> bool, tried: seq<string>, url: string)
    requires Distinct(tried) && url !in tried && AllFailed(forward, tried)
    ensures Distinct(tried + [url])
    ensures Elements(tried + [url]) == Elements(tried) + {url}
    ensures (tried + [url])[..|tried|] == tried
    ensures AllFailed(forward, tried + [url]) <==> !forward(|tried|, url)
  {
    var more := tried + [url];
    assert more[|tried|] == url;
  }

  /** After trying `gone`, all of it live at the start, this many live URLs are left. */
  lemma LiveLeft(urls: seq<string>, alive: seq<bool>, gone: seq<string>)
    requires |alive| == |urls| && Distinct(gone) && Elements(gone) <= LiveUrls(urls, alive)
    ensures |LiveUrls(urls, Without(urls, alive, gone))| == |LiveUrls(urls, alive)| - |gone|
  {
    WithoutLiveUrls(urls, alive, gone);
    DistinctElements(gone);
  }

  /** What one request does: it tries `tried` in this order, and leaves `after` of the liveness `before`. */
  ghost predicate Handled(
      urls: seq<string>, before: seq<bool>, after: seq<bool>,
      forward: (nat, string) -> bool, ok: bool, tried: seq<string>)
    requires |before| == |urls|
  {
    // At most three backends are tried, none of them twice, all of them alive at the start.
    && |tried| <= 3 && Distinct(tried) && Elements(tried) <= LiveUrls(urls, before)
    // The first success ends the request; without one it is a 503.
    && (ok <==> tried != [] && forward(|tried| - 1, tried[|tried| - 1]))
    && AllFailed(forward, Failures(ok, tried))
    // Each failure marks its own URL dead; nothing else changes.
    && after == Without(urls, before, Failures(ok, tried))
  }

  function Failures(ok: bool, tried: seq<string>): seq<string> {
    if ok && tried != [] then tried[..|tried| - 1] else tried
  }

  /** One attempt on a live backend extends what was handled so far. */
  lemma OneMoreAttempt(
      urls: seq<string>, before: seq<bool>, alive: seq<bool>,
      forward: (nat, string) -> bool, tried: seq<string>, b: nat)
    requires |before| == |urls| && Handled(urls, before, alive, forward, false, tried)
    requires |tried| < MAX_RETRIES && b < |alive| && alive[b]
    ensures var url := urls[b];
      if forward(|tried|, url)
      then Handled(urls, before, alive, forward, true, tried + [url])
      else Handled(urls, before, Marked(urls, alive, url, false), forward, false, tried + [url])
  {
    WithoutLiveUrls(urls, before, tried);
    assert urls[b] in LiveUrls(urls, alive);
    OneMoreTried(forward, tried, urls[b]);
    WithoutOneMore(urls, before, tried, urls[b]);
  }

  /** Each failure takes exactly one URL out of the live set, and nothing else leaves or enters it. */
  lemma FailuresLeaveLiveSet(
      urls: seq<string>, before: seq<bool>, after: seq<bool>,
      forward: (nat, string) -> bool, ok: bool, tried: seq<string>)
    requires |before| == |urls| && Handled(urls, before, after, forward, ok, tried)
    ensures LiveUrls(urls, after) == LiveUrls(urls, before) - Elements(Failures(ok, tried))
    ensures |LiveUrls(urls, after)| == |LiveUrls(urls, before)| - |Failures(ok, tried)|
  {
    WithoutLiveUrls(urls, before, Failures(ok, tried));
    LiveLeft(urls, before, Failures(ok, tried));
  }

  /** If giving up early means that nothing is alive, then the answer is 503 exactly when
      min(3, live at the start) attempts were made and all of them failed. */
  lemma UnavailableExactly(
      urls: seq<string>, before: seq<bool>, after: seq<bool>,
      forward: (nat, string) -> bool, ok: bool, tried: seq<string>)
    requires |before| == |urls| && Handled(urls, before, after, forward, ok, tried)
    requires !ok && |tried| < MAX_RETRIES ==> !SomeAlive(after)
    ensures !ok <==> |tried| == Min(3, |LiveUrls(urls, before)|) && AllFailed(forward, tried)
  {
    FailuresLeaveLiveSet(urls, before, after, forward, ok, tried);
    LiveUrlsEmpty(urls, after);
  }

  // ----- The loop as a function -----

  /** How a request ends: `!ok` is the 503 response, `tried` the URLs it was forwarded to. */
  datatype Attempted = Attempted(ok: bool, tried: seq<string>, alive: seq<bool>, current: nat)

  /** The rest of the loop after the URLs `tried` failed. `forward(k, url)` says whether attempt k, on that URL,
      succeeds, and `random(k)` is its random number. */
  function Retry(
      s: Setup, forward: (nat, string) -> bool, random: nat -> nat,
      alive: seq<bool>, current: nat, tried: seq<string>): (r: Attempted)
    requires |alive| == |s.urls| > 0
    ensures |r.alive| == |s.urls|
    decreases MAX_RETRIES - |tried|
  {
    var next := Advance(s.strategy, current, 1);
    if |tried| >= MAX_RETRIES then Attempted(false, tried, alive, current)
    else
      var b := Select(s, current, alive, random(|tried|));
      if b.None? then Attempted(false, tried, alive, next)
      else
        var url := s.urls[b.value];
        if forward(|tried|, url) then Attempted(true, tried + [url], alive, next)
        else Retry(s, forward, random, Marked(s.urls, alive, url, false), next, tried + [url])
  }

  /** Selections in the loop: one for each attempt, and one more if the last found nothing. */
  function Selections(r: Attempted): nat {
    |r.tried| + if !r.ok && |r.tried| < MAX_RETRIES then 1 else 0
  }

  lemma {:induction false} RetryHandles(
      s: Setup, forward: (nat, string) -> bool, random: nat -> nat,
      before: seq<bool>, alive: seq<bool>, start: nat, tried: seq<string>)
    requires |before| == |s.urls| > 0 && Handled(s.urls, before, alive, forward, false, tried)
    ensures var r := Retry(s, forward, random, alive, Advance(s.strategy, start, |tried|), tried);
      && Handled(s.urls, before, r.alive, forward, r.ok, r.tried)
      && r.current == Advance(s.strategy, start, Selections(r))
    decreases MAX_RETRIES - |tried|
  {
    var current := Advance(s.strategy, start, |tried|);
    if |tried| < MAX_RETRIES {
      AdvanceAdds(s.strategy, start, |tried|, 1);
      var b := Select(s, current, alive, random(|tried|));
      if b.Some? {
        var url := s.urls[b.value];
        OneMoreAttempt(s.urls, before, alive, forward, tried, b.value);
        if !forward(|tried|, url) {
          RetryHandles(s, forward, random, before, Marked(s.urls, alive, url, false), start, tried + [url]);
        }
      }
    }
  }

  lemma AdvanceNone(strategy: string, current: nat)
    requires current < WORD
    ensures Advance(strategy, current, 0) == current
  {
    ModSmall(current, WORD);
  }

  /** What every request does, for any pool, forwarder and random source. */
  lemma RequestIsHandled(
      s: Setup, current: nat, before: seq<bool>, forward: (nat, string) -> bool, random: nat -> nat)
    requires |before| == |s.urls| > 0 && current < WORD
    ensures var r := Retry(s, forward, random, before, current, []);
      && Handled(s.urls, before, r.alive, forward, r.ok, r.tried)
      && r.current == Advance(s.strategy, current, Selections(r))
  {
    assert Without(s.urls, before, []) == before;
    AdvanceNone(s.strategy, current);
    RetryHandles(s, forward, random, before, before, current, []);
  }

  // ----- When 503 means that the live backends ran out -----

  /** The backend at which the scan begins that comes j claims after `start`. */
  function Beginning(start: nat, j: nat, n: nat): (b: nat)
    requires 0 < n
    ensures b < n
  {
    Index((start + j) % WORD, 0, n)
  }

  /** The backends at which the first k scans from `start` began are dead. */
  ghost predicate BeginningsAreDead(alive: seq<bool>, start: nat, k: nat)
    requires alive != []
  {
    forall j: nat :: j < k ==> !alive[Beginning(start, j, |alive|)]
  }

  /** Below the wrap the j-th scan begins at the backend that start + j stands for. */
  lemma BeginningIsFlat(start: nat, j: nat, n: nat)
    requires 0 < n && start + j < WORD
    ensures Beginning(start, j, n) == (start + j) % n
  {
    ModSmall(start + j, WORD);
  }

  /** Up to the wrap the scan that comes k claims later looks where the one from `start` does. */
  lemma LaterScanVisits(start: nat, k: nat, n: nat, b: nat)
    requires 0 < n && start + n <= WORD && b < n && k <= Distance(start, b, n)
    ensures Visits((start + k) % WORD, n, b)
  {
    var i := Distance(start, b, n);
    DistanceReaches(start, b, n);
    ModSmall(start + k, WORD);
    ModSmall(start + i, WORD);
    assert Index(start + k, i - k, n) == b;
  }

  /** Later scans of one request may cross the counter wrap, but what they miss is where earlier scans began. */
  lemma LaterScanFinds(alive: seq<bool>, start: nat, k: nat)
    requires 0 < |alive| <= WORD && start < WORD && WrapFree(start, |alive|)
    requires k < MAX_RETRIES && BeginningsAreDead(alive, start, k)
    ensures Pick(alive, (start + k) % WORD).Some? <==> SomeAlive(alive)
  {
    var n, x := |alive|, (start + k) % WORD;
    if WORD % n == 0 {
      WrapFreeCovers(x, n);
      FoundWhenCovered(alive, x);
    } else {
      ScanFinds(alive, x, 0);
      forall b: nat | b < n && alive[b] ensures Pick(alive, x).Some? {
        var i := Distance(start, b, n);
        DistanceReaches(start, b, n);
        BeginningIsFlat(start, i, n);
        assert Beginning(start, i, n) == b;
        LaterScanVisits(start, k, n, b);
      }
    }
  }

  /** A scan selects where it begins, unless that backend is dead. */
  lemma FirstIsPicked(alive: seq<bool>, current: nat)
    requires alive != []
    ensures var first := Index(current, 0, |alive|); alive[first] ==> Pick(alive, current) == Some(first)
  {
  }

  predicate IsRoundRobin(s: Setup) {
    s.strategy != LEAST_CONNECTIONS && s.strategy != RANDOM
  }

  /** If selections can be trusted at the start of a request, then a selection inside its loop finds a
      backend iff one is left. */
  lemma SelectsInLoop(s: Setup, start: nat, alive: seq<bool>, k: nat, random: nat)
    requires |alive| == |s.urls| && 0 < |s.urls| <= WORD && start < WORD && SureToFind(s, start)
    requires k < MAX_RETRIES && (IsRoundRobin(s) ==> BeginningsAreDead(alive, start, k))
    ensures Select(s, Advance(s.strategy, start, k), alive, random).Some? <==> SomeAlive(alive)
  {
    if IsRoundRobin(s) {
      LaterScanFinds(alive, start, k);
    } else {
      SureSelects(s, start, alive, random);
    }
  }

  /** If selections can be trusted at the start of a request, then it gives up early only when nothing is alive. */
  lemma {:induction false} GivesUpHonestly(
      s: Setup, forward: (nat, string) -> bool, random: nat -> nat,
      alive: seq<bool>, start: nat, tried: seq<string>)
    requires |alive| == |s.urls| && 0 < |s.urls| <= WORD && start < WORD && SureToFind(s, start)
    requires IsRoundRobin(s) ==> BeginningsAreDead(alive, start, |tried|)
    ensures var r := Retry(s, forward, random, alive, Advance(s.strategy, start, |tried|), tried);
      !r.ok && |r.tried| < MAX_RETRIES ==> !SomeAlive(r.alive)
    decreases MAX_RETRIES - |tried|
  {
    var k, current := |tried|, Advance(s.strategy, start, |tried|);
    if k < MAX_RETRIES {
      SelectsInLoop(s, start, alive, k, random(k));
      var b := Select(s, current, alive, random(k));
      if b.Some? && !forward(k, s.urls[b.value]) {
        var url := s.urls[b.value];
        var left := Marked(s.urls, alive, url, false);
        AdvanceAdds(s.strategy, start, k, 1);
        if IsRoundRobin(s) {
          FirstIsPicked(alive, current);
          assert BeginningsAreDead(left, start, k + 1);
        }
        GivesUpHonestly(s, forward, random, left, start, tried + [url]);
      }
    }
  }

  /** A request gets 503 exactly when min(3, live at its start) attempts were made and all of them failed. */
  ghost predicate UnavailableIffExhausted(
      s: Setup, current: nat, before: seq<bool>, forward: (nat, string) -> bool, random: nat -> nat)
    requires |before| == |s.urls| > 0
  {
    var r := Retry(s, forward, random, before, current, []);
    !r.ok <==> |r.tried| == Min(3, |LiveUrls(s.urls, before)|) && AllFailed(forward, r.tried)
  }

  lemma SureExhausts(
      s: Setup, current: nat, before: seq<bool>, forward: (nat, string) -> bool, random: nat -> nat)
    requires |before| == |s.urls| && 0 < |s.urls| <= WORD && current < WORD && SureToFind(s, current)
    ensures UnavailableIffExhausted(s, current, before, forward, random)
  {
    var r := Retry(s, forward, random, before, current, []);
    RequestIsHandled(s, current, before, forward, random);
    AdvanceNone(s.strategy, current);
    GivesUpHonestly(s, forward, random, before, current, []);
    UnavailableExactly(s.urls, before, r.alive, forward, r.ok, r.tried);
  }

  /** When selections cannot be trusted, a request is answered 503 at once although a backend is alive. */
  lemma UnsureGivesUp(s: Setup, current: nat, forward: (nat, string) -> bool, random: nat -> nat)
    requires 0 < |s.urls| <= WORD && current < WORD && !SureToFind(s, current)
    ensures var before := Only(|s.urls|, Overlooked(s, current));
      var r := Retry(s, forward, random, before, current, []);
      && !r.ok && r.tried == [] && r.alive == before && |LiveUrls(s.urls, before)| == 1
      && !UnavailableIffExhausted(s, current, before, forward, random)
  {
    var b := Overlooked(s, current);
    var before := Only(|s.urls|, b);
    UnsureOverlooks(s, current, random(0));
    assert before[b];
    assert LiveUrls(s.urls, before) == {s.urls[b]};
  }

  /** 503 means exhausted live backends, for every liveness pattern, forwarder and random source, exactly if
      selections can be trusted at the start of the request. */
  lemma UnavailableIffExhaustedExactly(s: Setup, current: nat)
    requires 0 < |s.urls| <= WORD && current < WORD
    ensures SureToFind(s, current) <==>
      forall before: seq<bool>, forward: (nat, string) -> bool, random: nat -> nat ::
        |before| == |s.urls| ==> UnavailableIffExhausted(s, current, before, forward, random)
  {
    if SureToFind(s, current) {
      forall before: seq<bool>, forward: (nat, string) -> bool, random: nat -> nat | |before| == |s.urls|
        ensures UnavailableIffExhausted(s, current, before, forward, random)
      {
        SureExhausts(s, current, before, forward, random);
      }
    } else {
      UnsureGivesUp(s, current, (_, _) => false, _ => 0);
    }
  }

  /** One attempt of the loop. */
  lemma RetryStep(
      s: Setup, forward: (nat, string) -> bool, random: nat -> nat,
      alive: seq<bool>, current: nat, tried: seq<string>)
    requires |alive| == |s.urls| > 0 && |tried| < MAX_RETRIES
    ensures var whole := Retry(s, forward, random, alive, current, tried);
      var b, next := Select(s, current, alive, random(|tried|)), Advance(s.strategy, current, 1);
      if b.None? then whole == Attempted(false, tried, alive, next)
      else
        var url := s.urls[b.value];
        whole == if forward(|tried|, url) then Attempted(true, tried + [url], alive, next)
          else Retry(s, forward, random, Marked(s.urls, alive, url, false), next, tried + [url])
  {
  }

  /** What the service promises of one request. */
  lemma RequestEndsWell(
      s: Setup, current: nat, before: seq<bool>, forward: (nat, string) -> bool, random: nat -> nat)
    requires |before| == |s.urls| && 0 < |s.urls| <= WORD && current < WORD
    ensures var r := Retry(s, forward, random, before, current, []);
      Handled(s.urls, before, r.alive, forward, r.ok, r.tried)
    ensures SureToFind(s, current) ==> UnavailableIffExhausted(s, current, before, forward, random)
  {
    RequestIsHandled(s, current, before, forward, random);
    if SureToFind(s, current) {
      SureExhausts(s, current, before, forward, random);
    }
  }

  lemma FirstSuccessCounts(forward: (nat, string) -> bool, ok: bool, tried: seq<string>, live: nat, k: nat)
    requires |tried| <= 3 && (ok <==> tried != [] && forward(|tried| - 1, tried[|tried| - 1]))
    requires !ok <==> |tried| == Min(3, live) && AllFailed(forward, tried)
    requires AllFailed(forward, Failures(ok, tried))
    requires forall j: nat, url: string :: j < k ==> !forward(j, url)
    ensures (forall url :: forward(k, url)) && k < 3 && k < live ==> ok && |tried| == k + 1
    ensures k >= 3 ==> !ok && |tried| == if live < 3 then live else 3
  {
    if k < |tried| - 1 {
      assert !forward(k, Failures(ok, tried)[k]);
    }
    if !ok && k < |tried| {
      assert !forward(k, tried[k]);
    }
  }

  /** The number of attempts, from a start at which selections can be trusted. If attempt k (0, 1 or 2) is the first
      that succeeds, and more than k URLs are live, then the request is answered after exactly k + 1 attempts;
      if every attempt fails, it makes three, or as many as there are live URLs. */
  lemma AttemptsExactly(
      s: Setup, current: nat, before: seq<bool>, forward: (nat, string) -> bool, random: nat -> nat, k: nat)
    requires |before| == |s.urls| && 0 < |s.urls| <= WORD && current < WORD && SureToFind(s, current)
    requires forall j: nat, url: string :: j < k ==> !forward(j, url)
    ensures var r, live := Retry(s, forward, random, before, current, []), |LiveUrls(s.urls, before)|;
      && ((forall url :: forward(k, url)) && k < 3 && k < live ==> r.ok && |r.tried| == k + 1)
      && (k >= 3 ==> !r.ok && |r.tried| == if live < 3 then live else 3)
  {
    var r := Retry(s, forward, random, before, current, []);
    RequestEndsWell(s, current, before, forward, random);
    FirstSuccessCounts(forward, r.ok, r.tried, |LiveUrls(s.urls, before)|, k);
  }

  class LoadBalancerService {
    const repo: Pool

    constructor (repo: Pool)
      ensures this.repo == repo
    {
      this.repo := repo;
    }

    /** One attempt: a backend is selected, and marked as dead if forwarding to it fails. */
    method Attempt(k: nat, forward: (nat, string) -> bool, random: nat -> nat) returns (url: Option<string>, ok: bool)
      requires repo.Valid()
      modifies repo`current, repo.backends
      ensures repo.Valid()
      ensures repo.current == Advance(repo.strategy, old(repo.current), 1)
      ensures var b := Select(repo.View(), old(repo.current), old(repo.Alive()), random(k));
        && url == (if b.Some? then Some(repo.Urls()[b.value]) else None)
        && ok == (url.Some? && forward(k, url.value))
        && repo.Alive() == if url.Some? && !ok
             then Marked(repo.Urls(), old(repo.Alive()), url.value, false) else old(repo.Alive())
    {
      var backend := repo.GetNextHealthyBackend(random(k));
      if backend.None? {
        return None, false;
      }
      url := Some(repo.backends[backend.value].url);
      assert url.value == repo.Urls()[backend.value];
      ok := forward(k, url.value);
      if !ok {
        var _ := repo.MarkBackendStatus(url.value, false);
      }
    }

    /** The loop over attempts. */
    method TryBackends(forward: (nat, string) -> bool, random: nat -> nat) returns (ok: bool, tried: seq<string>)
      requires repo.Valid()
      modifies repo`current, repo.backends
      ensures repo.Valid()
      ensures Attempted(ok, tried, repo.Alive(), repo.current)
           == Retry(repo.View(), forward, random, old(repo.Alive()), old(repo.current), [])
    {
      ghost var view := repo.View();
      ghost var whole := Retry(view, forward, random, repo.Alive(), repo.current, []);
      tried := [];
      var attempts := 0;
      while attempts < MAX_RETRIES
        invariant attempts == |tried| <= MAX_RETRIES && repo.Valid()
        invariant whole == Retry(view, forward, random, repo.Alive(), repo.current, tried)
      {
        RetryStep(view, forward, random, repo.Alive(), repo.current, tried);
        var url, answered := Attempt(attempts, forward, random);
        attempts := attempts + 1;
        if url.None? {
          return false, tried;
        }
        tried := tried + [url.value];
        if answered {
          return true, tried;
        }
      }
      ok := false;
    }

    /** Forwards a request to live backends until one answers, at most three times; else 503. */
    method HandleRequest(forward: (nat, string) -> bool, random: nat -> nat) returns (ok: bool, tried: seq<string>)
      requires repo.Valid()
      modifies repo`current, repo.backends
      ensures repo.Valid()
      ensures Attempted(ok, tried, repo.Alive(), repo.current)
           == Retry(repo.View(), forward, random, old(repo.Alive()), old(repo.current), [])
      ensures Handled(repo.Urls(), old(repo.Alive()), repo.Alive(), forward, ok, tried)
      ensures old(SureToFind(repo.View(), repo.current)) ==>
        (!ok <==> |tried| == Min(3, |LiveUrls(repo.Urls(), old(repo.Alive()))|) && AllFailed(forward, tried))
    {
      RequestEndsWell(repo.View(), repo.current, repo.Alive(), forward, random);
      ok, tried := TryBackends(forward, random);
    }
  }
}
