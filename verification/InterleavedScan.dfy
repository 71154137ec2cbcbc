/** Round robin under concurrency: callers and status writers hold only a read lock, so the claim, each look
    at a liveness flag and each status write interleave freely. */
module InterleavedScan {
  import opened Machine
  import opened Arithmetic
  import opened CyclicScan

  /** A call: scanning from its claim, with `i` positions behind it, or finished. */
  datatype Caller = Scanning(next: nat, i: nat) | Done(next: nat, backend: Option<nat>)

  /** `claims` records, in order, who claimed which counter value. */
  datatype State = State(alive: seq<bool>, current: nat, callers: map<nat, Caller>, claims: seq<Claimed>)
  datatype Claimed = Claimed(id: nat, next: nat)

  /** A caller claims the counter, a caller looks at its next flag, or anybody writes a flag. */
  datatype Step = Claim(id: nat) | Look(id: nat) | Write(b: nat, v: bool)

  function Next(s: State, step: Step): State
    requires s.alive != []
  {
    var n := |s.alive|;
    match step
    case Claim(id) =>
      if id in s.callers then s
      else s.(current := (s.current + 1) % WORD,
              callers := s.callers[id := Scanning(s.current, 0)],
              claims := s.claims + [Claimed(id, s.current)])
    case Look(id) =>
      if id !in s.callers || s.callers[id].Done? then s
      else
        var c := s.callers[id];
        s.(callers := s.callers[id :=
          if c.i >= n then Done(c.next, None)
          else if s.alive[Index(c.next, c.i, n)] then Done(c.next, Some(Index(c.next, c.i, n)))
          else Scanning(c.next, c.i + 1)])
    case Write(b, v) =>
      if b < n then s.(alive := s.alive[b := v]) else s
  }

  /** The state at the end of a run. */
  function Exec(s: State, steps: seq<Step>): (t: State)
    requires s.alive != []
    ensures |t.alive| == |s.alive|
    decreases |steps|
  {
    if steps == [] then s
    else Next(Exec(s, steps[..|steps| - 1]), steps[|steps| - 1])
  }

  function Start(alive: seq<bool>, current: nat): State {
    State(alive, current, map[], [])
  }

  /** The counter after k claims. */
  function ClaimAt(current: nat, k: nat): (next: nat) {
    (current + k) % WORD
  }

  lemma NextClaim(current: nat, k: nat)
    ensures (ClaimAt(current, k) + 1) % WORD == ClaimAt(current, k + 1)
  {
    ModOfMod(current + k, 1, WORD);
  }

  /** The log is about the callers: each of them has exactly one entry, with the claim it holds. */
  ghost predicate Logged(s: State) {
    && (forall k :: 0 <= k < |s.claims| ==> Holds(s, s.claims[k]))
    && (forall j, k :: 0 <= j < k < |s.claims| ==> s.claims[j].id != s.claims[k].id)
    && (forall id :: id in s.callers ==> Claimed(id, s.callers[id].next) in s.claims)
  }

  predicate Holds(s: State, c: Claimed) {
    c.id in s.callers && s.callers[c.id].next == c.next
  }

  lemma StepIsLogged(s: State, step: Step)
    requires s.alive != [] && Logged(s)
    ensures Logged(Next(s, step))
  {
    if step.Claim? && step.id !in s.callers {
      var claim := Claimed(step.id, s.current);
      assert (s.claims + [claim])[|s.claims|] == claim;
    }
  }

  /** The k-th entry of the log claims exactly `current` + k, modulo 2^64. */
  predicate GapFree(s: State, current: nat) {
    && s.current == ClaimAt(current, |s.claims|)
    && forall k :: 0 <= k < |s.claims| ==> s.claims[k].next == ClaimAt(current, k)
  }

  lemma StepIsGapFree(s: State, step: Step, current: nat)
    requires s.alive != [] && GapFree(s, current)
    ensures GapFree(Next(s, step), current)
  {
    NextClaim(current, |s.claims|);
  }

  /** Claims are gap-free: the k-th call claims exactly `current` + k, modulo 2^64, and each caller holds
      the claim of its one log entry. */
  lemma {:induction false} ClaimsAreGapFree(alive: seq<bool>, current: nat, steps: seq<Step>)
    requires alive != [] && current < WORD
    ensures var s := Exec(Start(alive, current), steps); GapFree(s, current) && Logged(s)
    decreases |steps|
  {
    if steps == [] {
      ModSmall(current, WORD);
    } else {
      var s := Exec(Start(alive, current), steps[..|steps| - 1]);
      ClaimsAreGapFree(alive, current, steps[..|steps| - 1]);
      StepIsGapFree(s, steps[|steps| - 1], current);
      StepIsLogged(s, steps[|steps| - 1]);
    }
  }

  lemma ClaimsDiffer(current: nat, j: nat, k: nat)
    requires current < WORD && j < k < j + WORD
    ensures ClaimAt(current, j) != ClaimAt(current, k)
  {
    DivMod(current + j, WORD);
    DivMod(current + k, WORD);
  }

  /** Two callers never hold the same claim, as long as at most 2^64 claims were made. */
  lemma ClaimsAreDistinct(alive: seq<bool>, current: nat, steps: seq<Step>, a: nat, b: nat)
    requires alive != [] && current < WORD && a != b
    requires var s := Exec(Start(alive, current), steps);
      a in s.callers && b in s.callers && |s.claims| <= WORD
    ensures var s := Exec(Start(alive, current), steps); s.callers[a].next != s.callers[b].next
  {
    var s := Exec(Start(alive, current), steps);
    ClaimsAreGapFree(alive, current, steps);
    var j :| 0 <= j < |s.claims| && s.claims[j] == Claimed(a, s.callers[a].next);
    var k :| 0 <= k < |s.claims| && s.claims[k] == Claimed(b, s.callers[b].next);
    ClaimsDiffer(current, if j < k then j else k, if j < k then k else j);
  }

  /** A finished call is never touched again, and a scan never changes its claim. */
  lemma {:induction false} ResultsAreFinal(s: State, steps: seq<Step>, id: nat)
    requires s.alive != [] && id in s.callers
    ensures var t := Exec(s, steps);
      && id in t.callers && t.callers[id].next == s.callers[id].next
      && (s.callers[id].Done? ==> t.callers[id] == s.callers[id])
    decreases |steps|
  {
    if steps != [] {
      ResultsAreFinal(s, steps[..|steps| - 1], id);
    }
  }

  /** A backend that a call returned was alive at some moment between its claim and its end:
      when the call looked at it. */
  lemma {:induction false} ReturnedWasAlive(alive: seq<bool>, current: nat, steps: seq<Step>, id: nat) returns (k: nat)
    requires alive != []
    requires var s := Exec(Start(alive, current), steps);
      id in s.callers && s.callers[id].Done? && s.callers[id].backend.Some?
    ensures k < |steps| && steps[k] == Look(id)
    ensures var at, s := Exec(Start(alive, current), steps[..k]), Exec(Start(alive, current), steps);
      && id in at.callers && at.callers[id].Scanning?
      && s.callers[id].backend.value < |at.alive| && at.alive[s.callers[id].backend.value]
    decreases |steps|
  {
    var last := |steps| - 1;
    var before := Exec(Start(alive, current), steps[..last]);
    if id in before.callers && before.callers[id].Done? {
      k := ReturnedWasAlive(alive, current, steps[..last], id);
      assert steps[..last][..k] == steps[..k];
    } else {
      k := last;
    }
  }

  /** How often the call looks at a flag, after its claim. */
  function Looks(s: State, steps: seq<Step>, id: nat): nat
    requires s.alive != []
    decreases |steps|
  {
    if steps == [] then 0
    else
      var init := steps[..|steps| - 1];
      Looks(s, init, id) + if steps[|steps| - 1] == Look(id) && id in Exec(s, init).callers then 1 else 0
  }

  lemma {:induction false} LooksAreProgress(s: State, steps: seq<Step>, id: nat)
    requires s.alive != [] && id !in s.callers
    ensures var t := Exec(s, steps);
      if id !in t.callers then Looks(s, steps, id) == 0
      else t.callers[id].Scanning? ==> t.callers[id].i == Looks(s, steps, id) <= |s.alive|
    decreases |steps|
  {
    if steps != [] {
      LooksAreProgress(s, steps[..|steps| - 1], id);
    }
  }

  /** Whatever interleaves, a call has its result after n + 1 looks. */
  lemma CallsFinish(s: State, steps: seq<Step>, id: nat)
    requires s.alive != [] && id !in s.callers && Looks(s, steps, id) > |s.alive|
    ensures var t := Exec(s, steps); id in t.callers && t.callers[id].Done?
  {
    LooksAreProgress(s, steps, id);
  }

  /** Backend b is alive in every state of the run. */
  ghost predicate AliveThroughout(s: State, steps: seq<Step>, b: nat)
    requires s.alive != []
  {
    b < |s.alive| && forall k :: 0 <= k <= |steps| ==> Exec(s, steps[..k]).alive[b]
  }

  lemma AliveThroughoutPrefix(s: State, steps: seq<Step>, b: nat)
    requires s.alive != [] && steps != [] && AliveThroughout(s, steps, b)
    ensures AliveThroughout(s, steps[..|steps| - 1], b)
    ensures Exec(s, steps[..|steps| - 1]).alive[b]
  {
    var init := steps[..|steps| - 1];
    forall k | 0 <= k <= |init| ensures Exec(s, init[..k]).alive[b] {
      assert init[..k] == steps[..k];
    }
    assert init == steps[..|init|];
  }

  /** A scan that started after `s` and never saw b has not looked at b's positions yet. */
  lemma {:induction false} NotSeenNotReached(s: State, steps: seq<Step>, id: nat, b: nat)
    requires s.alive != [] && id !in s.callers && AliveThroughout(s, steps, b)
    ensures var t, n := Exec(s, steps), |s.alive|;
      id in t.callers ==>
        && (t.callers[id].Scanning? ==>
              forall j :: 0 <= j < t.callers[id].i && j < n ==> Index(t.callers[id].next, j, n) != b)
        && (t.callers[id] == Done(t.callers[id].next, None) ==>
              forall j :: 0 <= j < n ==> Index(t.callers[id].next, j, n) != b)
    decreases |steps|
  {
    if steps != [] {
      AliveThroughoutPrefix(s, steps, b);
      NotSeenNotReached(s, steps[..|steps| - 1], id, b);
    }
  }

  /** Whatever interleaves, a call during which some backend stays alive has found a backend after n + 1 looks,
      provided its claim is at most 2^64 - n or n divides 2^64. */
  lemma {:induction false} AlwaysFinds(s: State, steps: seq<Step>, id: nat, b: nat)
    requires 0 < |s.alive| <= WORD && id !in s.callers && AliveThroughout(s, steps, b)
    requires Looks(s, steps, id) > |s.alive|
    requires var t := Exec(s, steps);
      id in t.callers ==> t.callers[id].next < WORD && WrapFree(t.callers[id].next, |s.alive|)
    ensures var t := Exec(s, steps); id in t.callers && t.callers[id].Done? && t.callers[id].backend.Some?
  {
    var t := Exec(s, steps);
    CallsFinish(s, steps, id);
    NotSeenNotReached(s, steps, id, b);
    WrapFreeCovers(t.callers[id].next, |s.alive|);
    assert Visits(t.callers[id].next, |s.alive|, b);
  }

  predicate Unwritten(steps: seq<Step>, b: nat, v: bool) {
    forall k :: 0 <= k < |steps| ==> steps[k] != Write(b, v)
  }

  lemma {:induction false} StaysDead(s: State, steps: seq<Step>, id: nat, b: nat)
    requires b < |s.alive| && !s.alive[b] && id !in s.callers && Unwritten(steps, b, true)
    ensures var t := Exec(s, steps);
      !t.alive[b] && (id in t.callers && t.callers[id].Done? ==> t.callers[id].backend != Some(b))
    decreases |steps|
  {
    if steps != [] {
      StaysDead(s, steps[..|steps| - 1], id, b);
    }
  }

  /** Once a writer has taken a backend down, no call that begins later returns it, until a writer revives it. */
  lemma TakenDownIsNotReturned(s: State, steps: seq<Step>, id: nat, b: nat)
    requires b < |s.alive| && id !in s.callers && Unwritten(steps, b, true)
    ensures var t := Exec(Next(s, Write(b, false)), steps);
      id in t.callers && t.callers[id].Done? ==> t.callers[id].backend != Some(b)
  {
    StaysDead(Next(s, Write(b, false)), steps, id, b);
  }

  lemma {:induction false} StaysAlive(s: State, steps: seq<Step>, b: nat)
    requires b < |s.alive| && s.alive[b] && Unwritten(steps, b, false)
    ensures Exec(s, steps).alive[b] && AliveThroughout(s, steps, b)
    decreases |steps|
  {
    if steps != [] {
      var init := steps[..|steps| - 1];
      StaysAlive(s, init, b);
      assert steps[|steps| - 1] != Write(b, false);
      forall k | 0 <= k <= |steps| ensures Exec(s, steps[..k]).alive[b] {
        if k < |steps| {
          assert steps[..k] == init[..k];
        } else {
          assert steps[..k] == steps;
        }
      }
    }
  }

  /** Once a writer has revived a backend, and until one takes it down, every call that begins later finds a
      backend with n + 1 looks, provided its claim is at most 2^64 - n or n divides 2^64. */
  lemma RevivedIsFound(s: State, steps: seq<Step>, id: nat, b: nat)
    requires b < |s.alive| <= WORD && id !in s.callers && Unwritten(steps, b, false)
    requires Looks(Next(s, Write(b, true)), steps, id) > |s.alive|
    requires var t := Exec(Next(s, Write(b, true)), steps);
      id in t.callers ==> t.callers[id].next < WORD && WrapFree(t.callers[id].next, |s.alive|)
    ensures var t := Exec(Next(s, Write(b, true)), steps);
      id in t.callers && t.callers[id].Done? && t.callers[id].backend.Some?
  {
    StaysAlive(Next(s, Write(b, true)), steps, b);
    AlwaysFinds(Next(s, Write(b, true)), steps, id, b);
  }

  lemma {:induction false} NoWriterAgrees(s: State, steps: seq<Step>, id: nat)
    requires s.alive != [] && id !in s.callers
    requires forall k :: 0 <= k < |steps| ==> !steps[k].Write?
    ensures var t := Exec(s, steps);
      && t.alive == s.alive
      && (id in t.callers ==>
            var c := t.callers[id];
            Pick(s.alive, c.next) == if c.Done? then c.backend else ScanFrom(s.alive, c.next, c.i))
    decreases |steps|
  {
    if steps != [] {
      NoWriterAgrees(s, steps[..|steps| - 1], id);
    }
  }

  /** Without a writer every call agrees with the sequential scan of its claim, and after n + 1 looks it has
      returned what that scan selects. */
  lemma {:induction false} NoWriterIsSequential(s: State, steps: seq<Step>, id: nat)
    requires s.alive != [] && id !in s.callers
    requires forall k :: 0 <= k < |steps| ==> !steps[k].Write?
    ensures var t := Exec(s, steps);
      && t.alive == s.alive
      && (id in t.callers ==>
            var c := t.callers[id];
            Pick(s.alive, c.next) == if c.Done? then c.backend else ScanFrom(s.alive, c.next, c.i))
      && (Looks(s, steps, id) > |s.alive| ==>
            id in t.callers && t.callers[id] == Done(t.callers[id].next, Pick(s.alive, t.callers[id].next)))
  {
    NoWriterAgrees(s, steps, id);
    if Looks(s, steps, id) > |s.alive| {
      CallsFinish(s, steps, id);
    }
  }

  /** One claim and then k looks by the same caller. */
  function LoneCall(k: nat): (steps: seq<Step>)
    ensures |steps| == k + 1
  {
    if k == 0 then [Claim(0)] else LoneCall(k - 1) + [Look(0)]
  }

  lemma ExecOneMore(s: State, steps: seq<Step>, step: Step)
    requires s.alive != []
    ensures Exec(s, steps + [step]) == Next(Exec(s, steps), step)
  {
    assert (steps + [step])[..|steps|] == steps;
  }

  lemma LookPasses(s: State, next: nat, i: nat)
    requires i < |s.alive| && 0 in s.callers && s.callers[0] == Scanning(next, i)
    requires !s.alive[Index(next, i, |s.alive|)]
    ensures Next(s, Look(0)) == s.(callers := s.callers[0 := Scanning(next, i + 1)])
  {
  }

  ghost predicate ScanStands(s: State, alive: seq<bool>, next: nat, i: nat) {
    s.alive == alive && 0 in s.callers && s.callers[0] == Scanning(next, i)
  }

  lemma {:induction false} LoneCallScans(alive: seq<bool>, current: nat, k: nat)
    requires alive != [] && k <= |alive|
    requires forall j :: 0 <= j < k ==> !alive[Index(current, j, |alive|)]
    ensures ScanStands(Exec(Start(alive, current), LoneCall(k)), alive, current, k)
    decreases k
  {
    var s0 := Start(alive, current);
    if k == 0 {
      ExecOneMore(s0, [], Claim(0));
      assert [] + [Claim(0)] == LoneCall(0);
    } else {
      LoneCallScans(alive, current, k - 1);
      ExecOneMore(s0, LoneCall(k - 1), Look(0));
      LookPasses(Exec(s0, LoneCall(k - 1)), current, k - 1);
    }
  }

  /** That condition is needed: from any other claim some run, even without a writer, misses a backend
      that stays alive throughout. */
  lemma {:induction false} WrapCanMiss(next: nat, n: nat)
    requires 0 < n <= WORD && next < WORD && !WrapFree(next, n)
    ensures var alive := seq(n, i => i == Missed(next, n));
      var t := Exec(Start(alive, next), LoneCall(n + 1));
      t.alive == alive && alive[Missed(next, n)] && 0 in t.callers && t.callers[0] == Done(next, None)
  {
    var alive := seq(n, i => i == Missed(next, n));
    WrapMisses(next, n);
    forall j | 0 <= j < n ensures !alive[Index(next, j, n)] {
      assert Index(next, j, n) != Missed(next, n);
    }
    LoneCallScans(alive, next, n);
    ExecOneMore(Start(alive, next), LoneCall(n), Look(0));
  }
}
