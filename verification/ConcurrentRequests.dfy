/** Any number of requests at once, with round robin: claims, looks at flags, forwards and status writes of all of
    them, and the stores of health checks, interleave freely. */
module ConcurrentRequests {
  import opened Machine
  import opened Arithmetic
  import opened CyclicScan
  import opened LeastConnections
  import opened MemoryPool
  import opened LoadBalancer

  /** Where a request stands. `Comparing` and `Storing` are the two halves of marking position j after a failed
      attempt on `url`: the test of the flag and the store. */
  datatype Phase =
    | Claiming
    | Scanning(i: nat)
    | Forwarding(k: nat, url: string)
    | Comparing(url: string, j: nat)
    | Storing(url: string, j: nat)
    | Finished(ok: bool)

  /** `tried` lists the URLs it was forwarded to, `claim` is its latest claim of the counter. */
  datatype Request = Request(tried: seq<string>, claim: nat, phase: Phase)

  datatype State = State(alive: seq<bool>, current: nat, requests: map<nat, Request>)

  /** A request makes its next step, or a health check stores a flag. */
  datatype Step = Move(id: nat) | Check(b: nat, v: bool)

  /** The pool's URLs, and `forward(id, k, url)`: whether attempt k of request id, on that URL, succeeds. */
  datatype World = World(urls: seq<string>, forward: (nat, nat, string) -> bool)

  const NEW := Request([], 0, Claiming)

  function RequestOf(s: State, id: nat): Request {
    if id in s.requests then s.requests[id] else NEW
  }

  /** A request's own step, given the flags and the counter before it. */
  function Moved(w: World, alive: seq<bool>, current: nat, id: nat, r: Request): Request
    requires |alive| == |w.urls| > 0
  {
    var n := |alive|;
    match r.phase
    case Claiming => Request(r.tried, current, Scanning(0))
    case Scanning(i) =>
      if i >= n then r.(phase := Finished(false))
      else
        var b := Index(r.claim, i, n);
        if alive[b] then Request(r.tried + [w.urls[b]], r.claim, Forwarding(|r.tried|, w.urls[b]))
        else r.(phase := Scanning(i + 1))
    case Forwarding(k, url) =>
      r.(phase := if w.forward(id, k, url) then Finished(true) else Comparing(url, 0))
    case Comparing(url, j) =>
      if j >= n then r.(phase := if |r.tried| < MAX_RETRIES then Claiming else Finished(false))
      else if w.urls[j] == url && alive[j] then r.(phase := Storing(url, j))
      else r.(phase := Comparing(url, j + 1))
    case Storing(url, j) => r.(phase := Comparing(url, j + 1))
    case Finished(_) => r
  }

  function Next(w: World, s: State, step: Step): (t: State)
    requires |s.alive| == |w.urls| > 0
    ensures |t.alive| == |w.urls|
  {
    match step
    case Check(b, v) => if b < |s.alive| then s.(alive := s.alive[b := v]) else s
    case Move(id) =>
      var r := RequestOf(s, id);
      State(if r.phase.Storing? && r.phase.j < |s.alive| then s.alive[r.phase.j := false] else s.alive,
            if r.phase.Claiming? then (s.current + 1) % WORD else s.current,
            s.requests[id := Moved(w, s.alive, s.current, id, r)])
  }

  function Exec(w: World, s: State, steps: seq<Step>): (t: State)
    requires |s.alive| == |w.urls| > 0
    ensures |t.alive| == |w.urls|
    decreases |steps|
  {
    if steps == [] then s else Next(w, Exec(w, s, steps[..|steps| - 1]), steps[|steps| - 1])
  }

  function Start(alive: seq<bool>, current: nat): State {
    State(alive, current, map[])
  }

  // ----- No URL is tried twice -----

  /** No health check revives a backend with this URL. */
  predicate NeverRevived(w: World, steps: seq<Step>, url: string) {
    forall k :: 0 <= k < |steps| ==>
      !(steps[k].Check? && steps[k].v && steps[k].b < |w.urls| && w.urls[steps[k].b] == url)
  }

  /** The first `upTo` positions hold no live backend with this URL. */
  ghost predicate DeadUpTo(w: World, alive: seq<bool>, url: string, upTo: nat)
    requires |alive| == |w.urls|
  {
    forall p :: 0 <= p < |alive| && p < upTo && w.urls[p] == url ==> !alive[p]
  }

  predicate AtMostOnce(tried: seq<string>, url: string) {
    forall i, k :: 0 <= i < k < |tried| ==> !(tried[i] == url && tried[k] == url)
  }

  /** The request is forwarded to `url`, or marks it after a failure, or was answered by its latest backend. */
  predicate Occupied(r: Request, url: string) {
    match r.phase
    case Forwarding(_, u) => u == url
    case Comparing(u, _) => u == url
    case Storing(u, _) => u == url
    case Finished(ok) => ok
    case _ => false
  }

  /** How many positions the request has passed in marking `url`. */
  function MarkedUpTo(r: Request, url: string): nat {
    match r.phase
    case Comparing(u, j) => if u == url then j else 0
    case Storing(u, j) => if u == url then j else 0
    case _ => 0
  }

  /** A URL that the request is done with is dead everywhere. */
  ghost predicate Settled(w: World, alive: seq<bool>, r: Request, url: string)
    requires |alive| == |w.urls|
  {
    && AtMostOnce(r.tried, url)
    && (url in r.tried && !Occupied(r, url) ==> DeadUpTo(w, alive, url, |alive|))
    && DeadUpTo(w, alive, url, MarkedUpTo(r, url))
    && (r.phase.Storing? ==> r.phase.j < |alive| && w.urls[r.phase.j] == r.phase.url)
  }

  lemma MoveSettles(w: World, s: State, id: nat, url: string)
    requires |s.alive| == |w.urls| > 0 && Settled(w, s.alive, RequestOf(s, id), url)
    ensures var t := Next(w, s, Move(id)); Settled(w, t.alive, RequestOf(t, id), url)
  {
    var r := RequestOf(s, id);
    if r.phase.Scanning? && r.phase.i < |s.alive| && s.alive[Index(r.claim, r.phase.i, |s.alive|)] {
      assert w.urls[Index(r.claim, r.phase.i, |s.alive|)] == url ==> url !in r.tried;
    }
  }

  lemma OthersKeepSettled(w: World, s: State, step: Step, id: nat, url: string)
    requires |s.alive| == |w.urls| > 0 && Settled(w, s.alive, RequestOf(s, id), url)
    requires step != Move(id) && NeverRevived(w, [step], url)
    ensures var t := Next(w, s, step); Settled(w, t.alive, RequestOf(t, id), url)
  {
    assert [step][0] == step;
  }

  lemma NeverRevivedSplit(w: World, steps: seq<Step>, url: string)
    requires steps != [] && NeverRevived(w, steps, url)
    ensures NeverRevived(w, steps[..|steps| - 1], url) && NeverRevived(w, [steps[|steps| - 1]], url)
  {
  }

  lemma {:induction false} RunSettles(
      w: World, alive: seq<bool>, current: nat, steps: seq<Step>, id: nat, url: string)
    requires |alive| == |w.urls| > 0 && NeverRevived(w, steps, url)
    ensures var s := Exec(w, Start(alive, current), steps); Settled(w, s.alive, RequestOf(s, id), url)
    decreases |steps|
  {
    if steps != [] {
      var init, last := steps[..|steps| - 1], steps[|steps| - 1];
      var s := Exec(w, Start(alive, current), init);
      NeverRevivedSplit(w, steps, url);
      RunSettles(w, alive, current, init, id, url);
      if last == Move(id) {
        MoveSettles(w, s, id, url);
      } else {
        OthersKeepSettled(w, s, last, id, url);
      }
    }
  }

  /** Whatever other requests and health checks do, a request is forwarded to a URL a second time only if some
      health check revives that URL. */
  lemma TriedOnceUnlessRevived(
      w: World, alive: seq<bool>, current: nat, steps: seq<Step>, id: nat, url: string)
    requires |alive| == |w.urls| > 0 && NeverRevived(w, steps, url)
    ensures AtMostOnce(RequestOf(Exec(w, Start(alive, current), steps), id).tried, url)
  {
    RunSettles(w, alive, current, steps, id, url);
  }

  predicate StaysDown(steps: seq<Step>, b: nat) {
    forall k :: 0 <= k < |steps| ==> steps[k] != Check(b, true)
  }

  lemma {:induction false} DeadIsNotTried(w: World, s: State, steps: seq<Step>, id: nat, b: nat)
    requires b < |s.alive| == |w.urls| && (forall p :: 0 <= p < |w.urls| && w.urls[p] == w.urls[b] ==> p == b)
    requires !s.alive[b] && id !in s.requests && StaysDown(steps, b)
    ensures var t := Exec(w, s, steps); !t.alive[b] && w.urls[b] !in RequestOf(t, id).tried
    decreases |steps|
  {
    if steps != [] {
      DeadIsNotTried(w, s, steps[..|steps| - 1], id, b);
      assert steps[|steps| - 1] != Check(b, true);
    }
  }

  /** Once a health check has failed, requests that begin later are not forwarded to that backend, until a health
      check succeeds again. */
  lemma FailedCheckStopsTraffic(w: World, s: State, steps: seq<Step>, id: nat, b: nat)
    requires b < |s.alive| == |w.urls| && (forall p :: 0 <= p < |w.urls| && w.urls[p] == w.urls[b] ==> p == b)
    requires id !in s.requests && StaysDown(steps, b)
    ensures w.urls[b] !in RequestOf(Exec(w, Next(w, s, Check(b, false)), steps), id).tried
  {
    DeadIsNotTried(w, Next(w, s, Check(b, false)), steps, id, b);
  }

  // ----- What 503 means -----

  predicate NoRevival(steps: seq<Step>) {
    forall k :: 0 <= k < |steps| ==> !(steps[k].Check? && steps[k].v)
  }

  /** At most three attempts, none with a retry left unused but for a scan that found nothing. */
  predicate CountsAttempts(r: Request) {
    && |r.tried| <= MAX_RETRIES
    && (r.phase.Claiming? || r.phase.Scanning? ==> |r.tried| < MAX_RETRIES)
    && r.claim < WORD
  }

  /** The scan, or the scan that found nothing, has looked at backend b without luck. */
  ghost predicate LookedInVain(alive: seq<bool>, r: Request, b: nat)
    requires b < |alive|
  {
    var n := |alive|;
    && (r.phase.Scanning? ==> forall j :: 0 <= j < n && j < r.phase.i && Index(r.claim, j, n) == b ==> !alive[b])
    && (r.phase == Finished(false) && |r.tried| < MAX_RETRIES ==>
          forall j :: 0 <= j < n && Index(r.claim, j, n) == b ==> !alive[b])
  }

  lemma {:induction false} AttemptsAreCounted(
      w: World, alive: seq<bool>, current: nat, steps: seq<Step>, id: nat)
    requires |alive| == |w.urls| > 0 && current < WORD
    ensures var s := Exec(w, Start(alive, current), steps); s.current < WORD && CountsAttempts(RequestOf(s, id))
    decreases |steps|
  {
    if steps != [] {
      AttemptsAreCounted(w, alive, current, steps[..|steps| - 1], id);
    }
  }

  lemma MoveLooksInVain(w: World, alive: seq<bool>, current: nat, id: nat, r: Request, b: nat)
    requires b < |alive| == |w.urls| && LookedInVain(alive, r, b) && CountsAttempts(r)
    ensures LookedInVain(alive, Moved(w, alive, current, id, r), b)
  {
  }

  lemma DeathKeepsVain(alive: seq<bool>, after: seq<bool>, r: Request, b: nat)
    requires b < |alive| == |after| && LookedInVain(alive, r, b) && (after[b] ==> alive[b])
    ensures LookedInVain(after, r, b)
  {
  }

  lemma StepLooksInVain(w: World, s: State, step: Step, id: nat, b: nat)
    requires b < |s.alive| == |w.urls| && step != Check(b, true)
    requires LookedInVain(s.alive, RequestOf(s, id), b) && CountsAttempts(RequestOf(s, id))
    ensures var t := Next(w, s, step); LookedInVain(t.alive, RequestOf(t, id), b)
  {
    var t := Next(w, s, step);
    if step == Move(id) {
      MoveLooksInVain(w, s.alive, s.current, id, RequestOf(s, id), b);
    }
    DeathKeepsVain(s.alive, t.alive, RequestOf(t, id), b);
  }

  lemma {:induction false} ScansLookInVain(
      w: World, alive: seq<bool>, current: nat, steps: seq<Step>, id: nat, b: nat)
    requires b < |alive| == |w.urls| && StaysDown(steps, b) && current < WORD
    ensures var s := Exec(w, Start(alive, current), steps); LookedInVain(s.alive, RequestOf(s, id), b)
    decreases |steps|
  {
    if steps != [] {
      var init := steps[..|steps| - 1];
      ScansLookInVain(w, alive, current, init, id, b);
      AttemptsAreCounted(w, alive, current, init, id);
      StepLooksInVain(w, Exec(w, Start(alive, current), init), steps[|steps| - 1], id, b);
    }
  }

  /** A 503 before the third attempt means that every backend which no health check revived is dead, whatever
      interleaves, if the request's last claim is at most 2^64 - n or n divides 2^64. */
  lemma GaveUpMeansDead(
      w: World, alive: seq<bool>, current: nat, steps: seq<Step>, id: nat, b: nat)
    requires b < |alive| == |w.urls| <= WORD && current < WORD && StaysDown(steps, b)
    requires var r := RequestOf(Exec(w, Start(alive, current), steps), id);
      r.phase == Finished(false) && |r.tried| < 3 && WrapFree(r.claim, |alive|)
    ensures !Exec(w, Start(alive, current), steps).alive[b]
  {
    var s := Exec(w, Start(alive, current), steps);
    var r := RequestOf(s, id);
    ScansLookInVain(w, alive, current, steps, id, b);
    AttemptsAreCounted(w, alive, current, steps, id);
    WrapFreeCovers(r.claim, |alive|);
    assert Visits(r.claim, |alive|, b);
  }

  /** Without revivals, whatever any number of requests and failing health checks do: a request tries at most three
      URLs, all different; and when it gets 503, all of them are dead, and they are three or nothing is alive. */
  lemma UnavailableUnderConcurrency(w: World, alive: seq<bool>, current: nat, steps: seq<Step>, id: nat)
    requires 0 < |alive| == |w.urls| <= WORD && current < WORD
    requires NoRevival(steps)
    ensures var s := Exec(w, Start(alive, current), steps);
      var r := RequestOf(s, id);
      && |r.tried| <= 3 && Distinct(r.tried)
      && (r.phase == Finished(false) ==>
            && (forall p :: 0 <= p < |s.alive| && w.urls[p] in r.tried ==> !s.alive[p])
            && (|r.tried| == 3 || (WrapFree(r.claim, |alive|) ==> !SomeAlive(s.alive))))
  {
    var s := Exec(w, Start(alive, current), steps);
    var r := RequestOf(s, id);
    AttemptsAreCounted(w, alive, current, steps, id);
    forall i, k | 0 <= i < k < |r.tried| ensures r.tried[i] != r.tried[k] {
      TriedOnceUnlessRevived(w, alive, current, steps, id, r.tried[i]);
    }
    if r.phase == Finished(false) {
      forall p | 0 <= p < |s.alive| && w.urls[p] in r.tried ensures !s.alive[p] {
        RunSettles(w, alive, current, steps, id, w.urls[p]);
      }
      if |r.tried| < MAX_RETRIES && WrapFree(r.claim, |alive|) {
        forall b | 0 <= b < |s.alive| ensures !s.alive[b] {
          GaveUpMeansDead(w, alive, current, steps, id, b);
        }
      }
    }
  }

  // ----- Requests end -----

  /** Bounds the moves that a request still makes, in a pool of n backends. */
  function MovesLeft(r: Request, n: nat): int {
    (MAX_RETRIES - |r.tried|) * (3 * n + 5) +
    match r.phase
    case Claiming => n + 3
    case Scanning(i) => Max(n - i, 0) + 2
    case Forwarding(_, _) => 3 * n + 5
    case Comparing(_, j) => 2 * Max(n - j, 0) + n + 4
    case Storing(_, j) => 2 * Max(n - j, 0) + n + 3
    case Finished(_) => 0
  }

  lemma MoveComesCloser(w: World, s: State, id: nat)
    requires |s.alive| == |w.urls| > 0
    requires var r := RequestOf(s, id); CountsAttempts(r) && !r.phase.Finished?
    requires RequestOf(s, id).phase.Storing? ==> RequestOf(s, id).phase.j < |s.alive|
    ensures MovesLeft(RequestOf(Next(w, s, Move(id)), id), |s.alive|) < MovesLeft(RequestOf(s, id), |s.alive|)
  {
    var r, n := RequestOf(s, id), |s.alive|;
    if r.phase.Scanning? && r.phase.i < n && s.alive[Index(r.claim, r.phase.i, n)] {
      var left := MAX_RETRIES - |r.tried|;
      assert (left - 1) * (3 * n + 5) == left * (3 * n + 5) - (3 * n + 5);
    }
  }

  function OwnMoves(steps: seq<Step>, id: nat): nat
    decreases |steps|
  {
    if steps == [] then 0
    else OwnMoves(steps[..|steps| - 1], id) + if steps[|steps| - 1] == Move(id) then 1 else 0
  }

  lemma MovesLeftIsPositive(r: Request, n: nat)
    requires |r.tried| <= MAX_RETRIES
    ensures 0 <= MovesLeft(r, n) && (!r.phase.Finished? ==> 0 < MovesLeft(r, n))
  {
    MulNonNegative(MAX_RETRIES - |r.tried|, 3 * n + 5);
  }

  lemma {:induction false} MovesAddUp(w: World, alive: seq<bool>, current: nat, steps: seq<Step>, id: nat)
    requires |alive| == |w.urls| > 0 && current < WORD
    ensures var r := RequestOf(Exec(w, Start(alive, current), steps), id);
      r.phase.Finished? || MovesLeft(r, |alive|) + OwnMoves(steps, id) <= MovesLeft(NEW, |alive|)
    decreases |steps|
  {
    if steps != [] {
      var init, last := steps[..|steps| - 1], steps[|steps| - 1];
      var s := Exec(w, Start(alive, current), init);
      MovesAddUp(w, alive, current, init, id);
      if last == Move(id) && !RequestOf(s, id).phase.Finished? {
        AttemptsAreCounted(w, alive, current, init, id);
        StoresAreInRange(w, alive, current, init, id);
        MoveComesCloser(w, s, id);
      }
    }
  }

  lemma {:induction false} StoresAreInRange(w: World, alive: seq<bool>, current: nat, steps: seq<Step>, id: nat)
    requires |alive| == |w.urls| > 0
    ensures var r := RequestOf(Exec(w, Start(alive, current), steps), id);
      r.phase.Storing? ==> r.phase.j < |alive|
    decreases |steps|
  {
    if steps != [] {
      StoresAreInRange(w, alive, current, steps[..|steps| - 1], id);
    }
  }

  /** Whatever interleaves, a request has its answer after at most 10 n + 18 steps of its own. */
  lemma EveryRequestFinishes(w: World, alive: seq<bool>, current: nat, steps: seq<Step>, id: nat)
    requires |alive| == |w.urls| > 0 && current < WORD && OwnMoves(steps, id) >= 10 * |alive| + 18
    ensures RequestOf(Exec(w, Start(alive, current), steps), id).phase.Finished?
  {
    MovesAddUp(w, alive, current, steps, id);
    AttemptsAreCounted(w, alive, current, steps, id);
    MovesLeftIsPositive(RequestOf(Exec(w, Start(alive, current), steps), id), |alive|);
  }

  // ----- A request alone -----

  function SetupOf(w: World): Setup {
    Setup(ROUND_ROBIN, w.urls, map[])
  }

  function ForwardOf(w: World, id: nat): (nat, string) -> bool {
    (k: nat, url: string) => w.forward(id, k, url)
  }

  /** The sequential loop of the load balancer. */
  function Sequential(w: World, id: nat, alive: seq<bool>, current: nat, tried: seq<string>): Attempted
    requires |alive| == |w.urls| > 0
  {
    Retry(SetupOf(w), ForwardOf(w, id), (_: nat) => 0, alive, current, tried)
  }

  /** From here the sequential loop ends with `whole`. */
  ghost predicate Leads(w: World, s: State, id: nat, whole: Attempted)
    requires |s.alive| == |w.urls| > 0
  {
    var r, n := RequestOf(s, id), |s.alive|;
    match r.phase
    case Claiming => |r.tried| < MAX_RETRIES && Sequential(w, id, s.alive, s.current, r.tried) == whole
    case Scanning(i) =>
      && |r.tried| < MAX_RETRIES && s.current == (r.claim + 1) % WORD
      && Sequential(w, id, s.alive, r.claim, r.tried) == whole
      && ScanFrom(s.alive, r.claim, i) == Pick(s.alive, r.claim)
    case Forwarding(k, url) =>
      whole == if w.forward(id, k, url) then Attempted(true, r.tried, s.alive, s.current)
        else Sequential(w, id, Marked(w.urls, s.alive, url, false), s.current, r.tried)
    case Comparing(url, j) =>
      && whole == Sequential(w, id, Marked(w.urls, s.alive, url, false), s.current, r.tried)
      && DeadUpTo(w, s.alive, url, j)
    case Storing(url, j) =>
      && whole == Sequential(w, id, Marked(w.urls, s.alive, url, false), s.current, r.tried)
      && DeadUpTo(w, s.alive, url, j) && j < n && w.urls[j] == url
    case Finished(ok) => whole == Attempted(ok, r.tried, s.alive, s.current)
  }

  lemma PickIsSequential(w: World, id: nat, alive: seq<bool>, claim: nat, tried: seq<string>)
    requires |alive| == |w.urls| > 0 && |tried| < MAX_RETRIES
    ensures var whole, next := Sequential(w, id, alive, claim, tried), (claim + 1) % WORD;
      var b := Pick(alive, claim);
      if b.None? then whole == Attempted(false, tried, alive, next)
      else
        && b.value < |alive|
        && var url := w.urls[b.value];
        whole == if w.forward(id, |tried|, url) then Attempted(true, tried + [url], alive, next)
          else Sequential(w, id, Marked(w.urls, alive, url, false), next, tried + [url])
  {
    ScanFinds(alive, claim, 0);
  }

  /** Marking one more position changes nothing in what marking all of them gives. */
  lemma MarkingKeepsTheGoal(w: World, alive: seq<bool>, url: string, j: nat)
    requires |alive| == |w.urls| > 0
    ensures j < |alive| && w.urls[j] == url ==>
      Marked(w.urls, alive[j := false], url, false) == Marked(w.urls, alive, url, false)
    ensures j >= |alive| && DeadUpTo(w, alive, url, j) ==> Marked(w.urls, alive, url, false) == alive
  {
  }

  lemma ScanLeads(w: World, s: State, id: nat, whole: Attempted)
    requires |s.alive| == |w.urls| > 0 && Leads(w, s, id, whole) && RequestOf(s, id).phase.Scanning?
    ensures Leads(w, Next(w, s, Move(id)), id, whole)
  {
    var r := RequestOf(s, id);
    PickIsSequential(w, id, s.alive, r.claim, r.tried);
  }

  lemma MarkLeads(w: World, s: State, id: nat, whole: Attempted)
    requires |s.alive| == |w.urls| > 0 && Leads(w, s, id, whole)
    requires RequestOf(s, id).phase.Comparing? || RequestOf(s, id).phase.Storing?
    ensures Leads(w, Next(w, s, Move(id)), id, whole)
  {
    var phase := RequestOf(s, id).phase;
    MarkingKeepsTheGoal(w, s.alive, phase.url, phase.j);
  }

  lemma AloneMoveLeads(w: World, s: State, id: nat, whole: Attempted)
    requires |s.alive| == |w.urls| > 0 && Leads(w, s, id, whole)
    ensures Leads(w, Next(w, s, Move(id)), id, whole)
  {
    var phase := RequestOf(s, id).phase;
    if phase.Scanning? {
      ScanLeads(w, s, id, whole);
    } else if phase.Comparing? || phase.Storing? {
      MarkLeads(w, s, id, whole);
    }
  }

  lemma {:induction false} AloneLeads(w: World, alive: seq<bool>, current: nat, steps: seq<Step>, id: nat)
    requires |alive| == |w.urls| > 0
    requires forall k :: 0 <= k < |steps| ==> steps[k] == Move(id)
    ensures Leads(w, Exec(w, Start(alive, current), steps), id, Sequential(w, id, alive, current, []))
    decreases |steps|
  {
    if steps != [] {
      var init := steps[..|steps| - 1];
      AloneLeads(w, alive, current, init, id);
      AloneMoveLeads(w, Exec(w, Start(alive, current), init), id, Sequential(w, id, alive, current, []));
    }
  }

  /** A request that runs alone ends as the sequential retry loop does: same answer, same URLs tried in the same
      order, same flags and counter. */
  lemma AloneIsSequential(w: World, alive: seq<bool>, current: nat, steps: seq<Step>, id: nat)
    requires |alive| == |w.urls| > 0 && current < WORD
    requires forall k :: 0 <= k < |steps| ==> steps[k] == Move(id)
    requires |steps| >= 10 * |alive| + 18
    ensures var s := Exec(w, Start(alive, current), steps);
      var r := RequestOf(s, id);
      && r.phase.Finished?
      && Attempted(r.phase.ok, r.tried, s.alive, s.current) == Sequential(w, id, alive, current, [])
  {
    AloneLeads(w, alive, current, steps, id);
    AllOwn(steps, id);
    EveryRequestFinishes(w, alive, current, steps, id);
  }

  lemma {:induction false} AllOwn(steps: seq<Step>, id: nat)
    requires forall k :: 0 <= k < |steps| ==> steps[k] == Move(id)
    ensures OwnMoves(steps, id) == |steps|
    decreases |steps|
  {
    if steps != [] {
      AllOwn(steps[..|steps| - 1], id);
    }
  }

  // ----- The conditions are needed -----

  /** The request gets 503 before the third attempt, because of its claim x. */
  predicate GivesUp(w: World, alive: seq<bool>, current: nat, steps: seq<Step>, id: nat, x: nat)
    requires |alive| == |w.urls| > 0
  {
    var r := RequestOf(Exec(w, Start(alive, current), steps), id);
    r.phase == Finished(false) && |r.tried| < 3 && r.claim == x
  }

  function Alone(k: nat): (steps: seq<Step>)
    ensures |steps| == k
  {
    seq(k, _ => Move(0))
  }

  /** The request has not been forwarded yet, and scans from where the counter stood. */
  predicate ScansFrom(r: Request, counter: nat, current: nat) {
    match r.phase
    case Claiming => r.tried == [] ==> counter == current
    case Scanning(_) => r.tried == [] ==> r.claim == current
    case Finished(ok) => r.tried == [] ==> r.claim == current
    case _ => r.tried != []
  }

  lemma {:induction false} FirstClaim(w: World, alive: seq<bool>, current: nat, k: nat)
    requires |alive| == |w.urls| > 0
    ensures var s := Exec(w, Start(alive, current), Alone(k)); ScansFrom(RequestOf(s, 0), s.current, current)
    decreases k
  {
    if k > 0 {
      FirstClaim(w, alive, current, k - 1);
      assert Alone(k)[..k - 1] == Alone(k - 1);
      var s := Exec(w, Start(alive, current), Alone(k - 1));
      assert Exec(w, Start(alive, current), Alone(k)) == Next(w, s, Move(0));
      MoveScansFrom(w, s, current);
    }
  }

  lemma MoveScansFrom(w: World, s: State, current: nat)
    requires |s.alive| == |w.urls| > 0 && ScansFrom(RequestOf(s, 0), s.current, current)
    ensures var t := Next(w, s, Move(0)); ScansFrom(RequestOf(t, 0), t.current, current)
  {
  }

  lemma EndsWithoutAttempt(s: State, r: Request, whole: Attempted, x: nat)
    requires r.phase.Finished? && ScansFrom(r, s.current, x)
    requires Attempted(r.phase.ok, r.tried, s.alive, s.current) == whole && !whole.ok && whole.tried == []
    ensures r.phase == Finished(false) && |r.tried| < MAX_RETRIES && r.claim == x && s.alive == whole.alive
  {
  }

  /** The sequential loop makes no attempt. */
  predicate LoopGivesUp(w: World, alive: seq<bool>, x: nat)
    requires |alive| == |w.urls| > 0
  {
    var whole := Sequential(w, 0, alive, x, []);
    !whole.ok && whole.tried == [] && whole.alive == alive
  }

  lemma NearWrapLoopGivesUp(w: World, alive: seq<bool>, x: nat)
    requires 0 < |w.urls| <= WORD && x < WORD && !WrapFree(x, |w.urls|) && alive == Only(|w.urls|, Missed(x, |w.urls|))
    ensures LoopGivesUp(w, alive, x)
  {
    UnsureGivesUp(SetupOf(w), x, ForwardOf(w, 0), (_: nat) => 0);
  }

  lemma LoneRunGivesUp(w: World, alive: seq<bool>, x: nat, steps: seq<Step>)
    requires |alive| == |w.urls| > 0 && x < WORD && steps == Alone(10 * |alive| + 18) && LoopGivesUp(w, alive, x)
    ensures GivesUp(w, alive, x, steps, 0, x) && Exec(w, Start(alive, x), steps).alive == alive
  {
    AloneIsSequential(w, alive, x, steps, 0);
    FirstClaim(w, alive, x, |steps|);
    var s := Exec(w, Start(alive, x), steps);
    EndsWithoutAttempt(s, RequestOf(s, 0), Sequential(w, 0, alive, x, []), x);
  }

  /** From any claim near the wrap a request gives up at once although a backend is alive throughout. */
  lemma NearWrapGivesUp(w: World, x: nat) returns (alive: seq<bool>, steps: seq<Step>)
    requires 0 < |w.urls| <= WORD && x < WORD && !WrapFree(x, |w.urls|)
    ensures |alive| == |w.urls| && NoRevival(steps) && SomeAlive(alive)
    ensures Exec(w, Start(alive, x), steps).alive == alive && GivesUp(w, alive, x, steps, 0, x)
  {
    alive, steps := Only(|w.urls|, Missed(x, |w.urls|)), Alone(10 * |w.urls| + 18);
    NearWrapLoopGivesUp(w, alive, x);
    LoneRunGivesUp(w, alive, x, steps);
    assert alive[Missed(x, |w.urls|)];
  }

  /** Without revivals, giving up early means that nothing is alive, for every liveness pattern and interleaving,
      exactly if the claim of the last scan is at most 2^64 - n or n divides 2^64. */
  lemma GaveUpMeansDeadExactly(w: World, x: nat)
    requires 0 < |w.urls| <= WORD && x < WORD
    ensures x <= WORD - |w.urls| || WORD % |w.urls| == 0 <==>
      forall alive: seq<bool>, current: nat, steps: seq<Step>, id: nat
        {:trigger GivesUp(w, alive, current, steps, id, x)} ::
        |alive| == |w.urls| && current < WORD && NoRevival(steps) && GivesUp(w, alive, current, steps, id, x)
        ==> !SomeAlive(Exec(w, Start(alive, current), steps).alive)
  {
    var n := |w.urls|;
    if WrapFree(x, n) {
      forall alive: seq<bool>, current: nat, steps: seq<Step>, id: nat |
        |alive| == n && current < WORD && NoRevival(steps) && GivesUp(w, alive, current, steps, id, x)
        ensures !SomeAlive(Exec(w, Start(alive, current), steps).alive)
      {
        UnavailableUnderConcurrency(w, alive, current, steps, id);
      }
    } else {
      var alive, steps := NearWrapGivesUp(w, x);
    }
  }

  lemma ExecTake(w: World, s: State, steps: seq<Step>, k: nat)
    requires |s.alive| == |w.urls| > 0 && k < |steps|
    ensures Exec(w, s, steps[..k + 1]) == Next(w, Exec(w, s, steps[..k]), steps[k])
  {
    assert steps[..k + 1][..k] == steps[..k];
  }

  /** The states of a lone run, given one by one. */
  lemma {:induction false} LoneStates(w: World, states: seq<State>, k: nat)
    requires w.urls != [] && k < |states|
    requires forall j :: 0 <= j < |states| ==> |states[j].alive| == |w.urls|
    requires forall j :: 0 <= j < |states| - 1 ==> states[j + 1] == Next(w, states[j], Move(0))
    ensures Exec(w, states[0], Alone(k)) == states[k]
    decreases k
  {
    if k > 0 {
      LoneStates(w, states, k - 1);
      assert Alone(k)[..k - 1] == Alone(k - 1);
      assert states[(k - 1) + 1] == Next(w, states[k - 1], Move(0));
    }
  }

  /** One attempt of a lone request in a pool with one backend: claim, look, forward, test, store, leave. */
  lemma LoneAttempt(w: World, url: string)
    requires w.urls == [url] && !w.forward(0, 0, url)
    ensures Exec(w, Start([true], 0), Alone(6)) == State([false], 1, map[0 := Request([url], 0, Claiming)])
  {
    var phases := [Claiming, Scanning(0), Forwarding(0, url), Comparing(url, 0), Storing(url, 0), Comparing(url, 1),
                   Claiming];
    var state := (j: nat) requires j <= 6 =>
      State([j < 5], if j == 0 then 0 else 1,
            if j == 0 then map[] else map[0 := Request(if j < 2 then [] else [url], 0, phases[j])]);
    var states := seq(7, j requires 0 <= j < 7 => state(j));
    assert Index(0, 0, 1) == 0 && [] + [url] == [url];
    forall j | 0 <= j < 6 ensures states[j + 1] == Next(w, states[j], Move(0)) {
      assert states[j + 1].alive == Next(w, states[j], Move(0)).alive;
    }
    LoneStates(w, states, 6);
  }

  lemma ExecOneMore(w: World, s: State, steps: seq<Step>, step: Step)
    requires |s.alive| == |w.urls| > 0
    ensures Exec(w, s, steps + [step]) == Next(w, Exec(w, s, steps), step)
  {
    assert (steps + [step])[..|steps|] == steps;
  }

  /** With a revival in between a request is forwarded to the same URL twice. */
  lemma RevivalRepeats(url: string)
    ensures var w := World([url], (_, _, _) => false);
      var steps := Alone(6) + [Check(0, true)] + [Move(0)] + [Move(0)];
      RequestOf(Exec(w, Start([true], 0), steps), 0).tried == [url, url]
  {
    var w, s0 := World([url], (_, _, _) => false), Start([true], 0);
    var revived := Alone(6) + [Check(0, true)];
    LoneAttempt(w, url);
    ExecOneMore(w, s0, Alone(6), Check(0, true));
    ExecOneMore(w, s0, revived, Move(0));
    ExecOneMore(w, s0, revived + [Move(0)], Move(0));
    assert Exec(w, s0, revived + [Move(0)]) == State([true], 2, map[0 := Request([url], 1, Scanning(0))]);
    assert Index(1, 0, 1) == 0;
  }
}
