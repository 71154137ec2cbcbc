/** Concurrent status updates: each `MarkBackendStatus` walks the backends under a read lock and, at every
    backend with its URL, first tests the flag and then, in a separate step, stores it. */
module HealthMonitor {
  import opened MemoryPool

  /** A call `MarkBackendStatus(url, v)`. */
  datatype Mark = Mark(url: string, v: bool)

  /** Where a call stands: about to compare position j, or about to store at j after a failed test. */
  datatype Place = Compare(j: nat) | Store(j: nat)

  /** `log` records, in order, the moment at which each call takes effect on each backend. */
  datatype State = State(alive: seq<bool>, places: seq<Place>, log: seq<Effect>)
  datatype Effect = Effect(call: nat, backend: nat)

  /** One step of call o; finished calls do not move. */
  function Next(urls: seq<string>, calls: seq<Mark>, s: State, o: nat): State
    requires |s.alive| == |urls| && |s.places| == |calls|
  {
    if o >= |calls| then s
    else
      var j, call := s.places[o].j, calls[o];
      if j >= |urls| then s
      else match s.places[o]
        case Compare(_) =>
          if urls[j] != call.url then s.(places := s.places[o := Compare(j + 1)])
          else if s.alive[j] != call.v then s.(places := s.places[o := Store(j)])
          else s.(places := s.places[o := Compare(j + 1)], log := s.log + [Effect(o, j)])
        case Store(_) =>
          State(s.alive[j := call.v], s.places[o := Compare(j + 1)], s.log + [Effect(o, j)])
  }

  function Exec(urls: seq<string>, calls: seq<Mark>, alive: seq<bool>, schedule: seq<nat>): (s: State)
    requires |alive| == |urls|
    ensures |s.alive| == |urls| && |s.places| == |calls|
    decreases |schedule|
  {
    if schedule == [] then State(alive, seq(|calls|, _ => Compare(0)), [])
    else Next(urls, calls, Exec(urls, calls, alive, schedule[..|schedule| - 1]), schedule[|schedule| - 1])
  }

  /** The simple form: every effect is one unconditional atomic store. */
  function Replay(calls: seq<Mark>, alive: seq<bool>, log: seq<Effect>): (after: seq<bool>)
    requires forall k :: 0 <= k < |log| ==> log[k].call < |calls| && log[k].backend < |alive|
    ensures |after| == |alive|
    decreases |log|
  {
    if log == [] then alive
    else
      var e := log[|log| - 1];
      Replay(calls, alive, log[..|log| - 1])[e.backend := calls[e.call].v]
  }

  /** Every call has had its effect exactly once on each backend with its URL that it has passed. */
  ghost predicate OneEffectEach(urls: seq<string>, calls: seq<Mark>, s: State)
    requires |s.places| == |calls|
  {
    && (forall k :: 0 <= k < |s.log| ==> s.log[k].call < |calls| && s.log[k].backend < |urls|)
    && (forall o, j :: 0 <= o < |calls| && 0 <= j < |urls| ==>
          (Effect(o, j) in s.log <==> j < s.places[o].j && urls[j] == calls[o].url))
    && (forall k, l :: 0 <= k < l < |s.log| ==> s.log[k] != s.log[l])
    && (forall o :: 0 <= o < |calls| ==>
          s.places[o].j <= |urls|
          && (s.places[o].Store? ==> s.places[o].j < |urls| && urls[s.places[o].j] == calls[o].url))
  }

  lemma StepHasOneEffect(urls: seq<string>, calls: seq<Mark>, s: State, o: nat)
    requires |s.alive| == |urls| && |s.places| == |calls| && OneEffectEach(urls, calls, s)
    ensures OneEffectEach(urls, calls, Next(urls, calls, s, o))
  {
    var t := Next(urls, calls, s, o);
    if o < |calls| && s.places[o].j < |urls| {
      var j := s.places[o].j;
      if t.log != s.log {
        assert t.log == s.log + [Effect(o, j)];
        assert Effect(o, j) !in s.log;
      }
    }
  }

  lemma ReplayOneMore(calls: seq<Mark>, alive: seq<bool>, log: seq<Effect>, e: Effect)
    requires forall k :: 0 <= k < |log| ==> log[k].call < |calls| && log[k].backend < |alive|
    requires e.call < |calls| && e.backend < |alive|
    ensures Replay(calls, alive, log + [e]) == Replay(calls, alive, log)[e.backend := calls[e.call].v]
  {
    assert (log + [e])[..|log|] == log;
  }

  lemma StepIsAtomicStore(urls: seq<string>, calls: seq<Mark>, alive: seq<bool>, s: State, o: nat)
    requires |s.alive| == |urls| == |alive| && |s.places| == |calls|
    requires forall k :: 0 <= k < |s.log| ==> s.log[k].call < |calls| && s.log[k].backend < |alive|
    requires s.alive == Replay(calls, alive, s.log)
    ensures var t := Next(urls, calls, s, o);
      && (forall k :: 0 <= k < |t.log| ==> t.log[k].call < |calls| && t.log[k].backend < |alive|)
      && t.alive == Replay(calls, alive, t.log)
  {
    if o < |calls| && s.places[o].j < |urls| {
      var j := s.places[o].j;
      ReplayOneMore(calls, alive, s.log, Effect(o, j));
      if s.alive[j] == calls[o].v {
        assert s.alive[j := calls[o].v] == s.alive;
      }
    }
  }

  /** Test-then-store is linearizable: under every schedule the flags are at every moment those of a run of
      unconditional atomic stores, one for each call and backend with its URL, made during the call. */
  lemma {:induction false} MarksAreLinearizable(
      urls: seq<string>, calls: seq<Mark>, alive: seq<bool>, schedule: seq<nat>)
    requires |alive| == |urls|
    ensures var s := Exec(urls, calls, alive, schedule);
      OneEffectEach(urls, calls, s) && s.alive == Replay(calls, alive, s.log)
    decreases |schedule|
  {
    if schedule != [] {
      var last := |schedule| - 1;
      var s := Exec(urls, calls, alive, schedule[..last]);
      MarksAreLinearizable(urls, calls, alive, schedule[..last]);
      StepHasOneEffect(urls, calls, s, schedule[last]);
      StepIsAtomicStore(urls, calls, alive, s, schedule[last]);
    }
  }

  /** Every store of the log happens at a moment of the schedule when its own call moves, while that call stands at
      that backend, so strictly between the call's start and its end. */
  lemma {:induction false} EffectsHappenDuringTheCall(
      urls: seq<string>, calls: seq<Mark>, alive: seq<bool>, schedule: seq<nat>, k: nat) returns (p: nat)
    requires |alive| == |urls| && k < |Exec(urls, calls, alive, schedule).log|
    ensures p < |schedule|
    ensures var e := Exec(urls, calls, alive, schedule).log[k];
      var before, after := Exec(urls, calls, alive, schedule[..p]), Exec(urls, calls, alive, schedule[..p + 1]);
      && schedule[p] == e.call < |calls| && before.places[e.call].j == e.backend < |urls|
      && |before.log| == k && after.log == before.log + [e] && after.places[e.call] == Compare(e.backend + 1)
    decreases |schedule|
  {
    var last := |schedule| - 1;
    var before := Exec(urls, calls, alive, schedule[..last]);
    var s := Exec(urls, calls, alive, schedule);
    if k < |before.log| {
      p := EffectsHappenDuringTheCall(urls, calls, alive, schedule[..last], k);
      assert schedule[..last][..p] == schedule[..p] && schedule[..last][..p + 1] == schedule[..p + 1];
      assert s.log[k] == before.log[k];
    } else {
      p := last;
      assert schedule[..last + 1] == schedule;
    }
  }

  lemma {:induction false} AgreedValueStays(calls: seq<Mark>, alive: seq<bool>, log: seq<Effect>, j: nat, v: bool)
    requires forall k :: 0 <= k < |log| ==> log[k].call < |calls| && log[k].backend < |alive|
    requires forall k :: 0 <= k < |log| && log[k].backend == j ==> calls[log[k].call].v == v
    requires exists k :: 0 <= k < |log| && log[k].backend == j
    ensures j < |alive| && Replay(calls, alive, log)[j] == v
    decreases |log|
  {
    var init, e := log[..|log| - 1], log[|log| - 1];
    if e.backend != j {
      AgreedValueStays(calls, alive, init, j, v);
    }
  }

  /** Steps of the schedule in which call o moves. */
  function Moves(schedule: seq<nat>, o: nat): nat
    decreases |schedule|
  {
    if schedule == [] then 0
    else Moves(schedule[..|schedule| - 1], o) + if schedule[|schedule| - 1] == o then 1 else 0
  }

  lemma {:induction false} MovesAreProgress(
      urls: seq<string>, calls: seq<Mark>, alive: seq<bool>, schedule: seq<nat>, o: nat)
    requires |alive| == |urls| && o < |calls|
    ensures var place := Exec(urls, calls, alive, schedule).places[o];
      place.j >= |urls| || 2 * place.j + (if place.Store? then 1 else 0) >= Moves(schedule, o)
    decreases |schedule|
  {
    if schedule != [] {
      MovesAreProgress(urls, calls, alive, schedule[..|schedule| - 1], o);
    }
  }

  /** Under every schedule a call that has moved twice for each backend has passed all of them. */
  lemma CallsFinish(urls: seq<string>, calls: seq<Mark>, alive: seq<bool>, schedule: seq<nat>, o: nat)
    requires |alive| == |urls| && o < |calls| && Moves(schedule, o) >= 2 * |urls|
    ensures Exec(urls, calls, alive, schedule).places[o] == Compare(|urls|)
  {
    MovesAreProgress(urls, calls, alive, schedule, o);
    MarksAreLinearizable(urls, calls, alive, schedule);
  }

  /** Every one of n calls moves often enough to pass all backends. */
  ghost predicate AllMove(urls: seq<string>, schedule: seq<nat>, n: nat) {
    forall o: nat :: o < n ==> Moves(schedule, o) >= 2 * |urls|
  }

  /** `performChecks`: one call per backend, with the outcome of its check. */
  function Checks(urls: seq<string>, healthy: seq<bool>): (calls: seq<Mark>)
    requires |urls| == |healthy|
    ensures |calls| == |urls|
  {
    seq(|urls|, i requires 0 <= i < |urls| => Mark(urls[i], healthy[i]))
  }

  /** Once each check of a cycle has moved twice for each backend, all of them are joined, and if there was no other
      writer every backend is alive exactly if its check succeeded, whatever the schedule; backends that share
      a URL must have agreeing checks. */
  lemma ChecksDecideLiveness(urls: seq<string>, healthy: seq<bool>, alive: seq<bool>, schedule: seq<nat>)
    requires |urls| == |healthy| == |alive|
    requires forall i, j :: 0 <= i < |urls| && 0 <= j < |urls| && urls[i] == urls[j] ==> healthy[i] == healthy[j]
    requires AllMove(urls, schedule, |urls|)
    ensures Exec(urls, Checks(urls, healthy), alive, schedule).alive == healthy
  {
    var calls := Checks(urls, healthy);
    var s := Exec(urls, calls, alive, schedule);
    MarksAreLinearizable(urls, calls, alive, schedule);
    forall j | 0 <= j < |urls| ensures s.alive[j] == healthy[j] {
      CallsFinish(urls, calls, alive, schedule, j);
      assert Effect(j, j) in s.log;
      forall k | 0 <= k < |s.log| && s.log[k].backend == j ensures calls[s.log[k].call].v == healthy[j] {
        assert Effect(s.log[k].call, j) in s.log;
      }
      AgreedValueStays(calls, alive, s.log, j, healthy[j]);
    }
  }

  /** A call that runs alone leaves the flags that the sequential method leaves, after two moves for each backend. */
  lemma LoneCallIsSequential(urls: seq<string>, call: Mark, alive: seq<bool>, schedule: seq<nat>)
    requires |urls| == |alive|
    requires Moves(schedule, 0) >= 2 * |urls|
    ensures Exec(urls, [call], alive, schedule).alive == Marked(urls, alive, call.url, call.v)
  {
    var s := Exec(urls, [call], alive, schedule);
    MarksAreLinearizable(urls, [call], alive, schedule);
    CallsFinish(urls, [call], alive, schedule, 0);
    forall j | 0 <= j < |urls| ensures s.alive[j] == Marked(urls, alive, call.url, call.v)[j] {
      if urls[j] == call.url {
        assert Effect(0, j) in s.log;
        AgreedValueStays([call], alive, s.log, j, call.v);
      } else {
        assert Effect(0, j) !in s.log;
        UntouchedStays([call], alive, s.log, j);
      }
    }
  }

  lemma {:induction false} UntouchedStays(calls: seq<Mark>, alive: seq<bool>, log: seq<Effect>, j: nat)
    requires forall k :: 0 <= k < |log| ==> log[k].call < |calls| && log[k].backend < |alive|
    requires j < |alive| && forall k :: 0 <= k < |log| ==> log[k].backend != j
    ensures Replay(calls, alive, log)[j] == alive[j]
    decreases |log|
  {
    if log != [] {
      UntouchedStays(calls, alive, log[..|log| - 1], j);
    }
  }
}
