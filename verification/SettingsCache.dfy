/** The hybrid limiter's settings cache for one client: PostgreSQL holds the row, Redis a copy for one hour.
    Filling the copy is a read followed by a write, and invalidating it is a best-effort delete, so the
    steps of concurrent calls interleave. */
module SettingsCache {
  import opened Machine
  import opened RateLimit

  /** Lifetime of a cached copy, in seconds. */
  const HOUR: nat := 3600

  /** A cached copy: what it says, the version of the row it was read from, and when it expires. */
  datatype Entry = Entry(value: Settings, version: nat, until: int)

  /** A `getSettings` call after its cache miss, before and after it read the row. */
  datatype Reader = Missed | Holding(value: Settings, version: nat)

  /** `version` counts the writes of the row, and `written` is the time of the last one. */
  datatype State = State(
    now: int, row: Option<Settings>, version: nat, written: int,
    entry: Option<Entry>, readers: map<nat, Reader>, answers: map<nat, Option<Settings>>)

  datatype Step =
    | Pass(seconds: nat)               // time goes on
    | Upsert(value: Settings)          // SQL of SetRateLimit
    | Delete                           // SQL of RemoveRateLimit
    | Drop                             // a Del of the copy reaches Redis; it may also never come
    | Lookup(call: nat, reached: bool) // Redis GET of getSettings; without an answer it counts as a miss
    | Select(call: nat)                // its SQL SELECT, after a miss
    | Fill(call: nat, stored: bool)    // its Redis SET with expiry, best effort, and its return

  /** The copy that a Redis GET sees. */
  function Cached(s: State): Option<Entry> {
    if s.entry.Some? && s.now < s.entry.value.until then s.entry else None
  }

  function Next(s: State, step: Step): State {
    match step
    case Pass(d) => s.(now := s.now + d)
    case Upsert(v) => s.(row := Some(v), version := s.version + 1, written := s.now)
    case Delete => s.(row := None, version := s.version + 1, written := s.now)
    case Drop => s.(entry := None)
    case Lookup(c, reached) =>
      if c in s.readers || c in s.answers then s
      else if reached && Cached(s).Some? then s.(answers := s.answers[c := Some(Cached(s).value.value)])
      else s.(readers := s.readers[c := Missed])
    case Select(c) =>
      if c !in s.readers || s.readers[c].Holding? then s
      else if s.row.None? then s.(readers := s.readers - {c}, answers := s.answers[c := None])
      else s.(readers := s.readers[c := Holding(s.row.value, s.version)])
    case Fill(c, stored) =>
      if c !in s.readers || s.readers[c].Missed? then s
      else
        var r := s.readers[c];
        s.(readers := s.readers - {c},
           answers := s.answers[c := Some(r.value)],
           entry := if stored then Some(Entry(r.value, r.version, s.now + HOUR)) else s.entry)
  }

  function Exec(s: State, steps: seq<Step>): State
    decreases |steps|
  {
    if steps == [] then s else Next(Exec(s, steps[..|steps| - 1]), steps[|steps| - 1])
  }

  function Start(now: int, row: Option<Settings>): State {
    State(now, row, 0, now, None, map[], map[])
  }

  lemma {:induction false} ExecSplit(s: State, a: seq<Step>, b: seq<Step>)
    ensures Exec(s, a + b) == Exec(Exec(s, a), b)
    decreases |b|
  {
    if b == [] {
      assert a + b == a;
    } else {
      assert (a + b)[..|a + b| - 1] == a + b[..|b| - 1];
      ExecSplit(s, a, b[..|b| - 1]);
    }
  }

  // ----- Bounded staleness -----

  /** The step writes Redis with a row that was read before write number `version`. */
  predicate StaleFill(s: State, step: Step, version: nat) {
    && step.Fill? && step.stored && step.call in s.readers
    && s.readers[step.call].Holding? && s.readers[step.call].version < version
  }

  /** Every fill that read the row before write number `version` and reaches Redis does so by `deadline`. */
  ghost predicate FilledBy(s: State, steps: seq<Step>, version: nat, deadline: int) {
    forall k :: 0 <= k < |steps| ==>
      var at := Exec(s, steps[..k]);
      StaleFill(at, steps[k], version) ==> at.now <= deadline
  }

  /** What is read or cached at the current version is the row; a copy of a version before `last`
      expires an hour after `deadline` at the latest. */
  ghost predicate Inv(s: State, last: nat, deadline: int) {
    && (s.entry.Some? ==>
          var e := s.entry.value;
          && e.version <= s.version
          && (e.version == s.version ==> s.row == Some(e.value))
          && (e.version < last ==> e.until <= deadline + HOUR))
    && (forall c :: c in s.readers && s.readers[c].Holding? ==>
          var r := s.readers[c];
          && r.version <= s.version && (r.version == s.version ==> s.row == Some(r.value)))
  }

  lemma StepKeepsInv(s: State, step: Step, last: nat, deadline: int)
    requires Inv(s, last, deadline) && (StaleFill(s, step, last) ==> s.now <= deadline)
    ensures Inv(Next(s, step), last, deadline)
  {
  }

  lemma FilledByPrefix(s: State, steps: seq<Step>, last: nat, deadline: int, n: nat)
    requires FilledBy(s, steps, last, deadline) && n <= |steps|
    ensures FilledBy(s, steps[..n], last, deadline)
  {
    forall k | 0 <= k < n
      ensures StaleFill(Exec(s, steps[..n][..k]), steps[..n][k], last) ==> Exec(s, steps[..n][..k]).now <= deadline
    {
      assert steps[..n][..k] == steps[..k];
    }
  }

  lemma {:induction false} RunKeepsInv(s: State, steps: seq<Step>, last: nat, deadline: int)
    requires Inv(s, last, deadline) && FilledBy(s, steps, last, deadline)
    ensures Inv(Exec(s, steps), last, deadline)
    decreases |steps|
  {
    if steps != [] {
      var n := |steps| - 1;
      FilledByPrefix(s, steps, last, deadline, n);
      RunKeepsInv(s, steps[..n], last, deadline);
      assert StaleFill(Exec(s, steps[..n]), steps[n], last) ==> Exec(s, steps[..n]).now <= deadline;
      StepKeepsInv(Exec(s, steps[..n]), steps[n], last, deadline);
    }
  }

  /** If every fill that read the row before the last write, at T, has reached Redis by T + d or never does, then
      from T + d + 1h on a cache hit is the current row, whatever earlier writes and fills did and whether or
      not the deletes arrived. */
  lemma {:induction false} HitsAreCurrent(now: int, row: Option<Settings>, steps: seq<Step>, d: nat)
    requires var s := Exec(Start(now, row), steps);
      FilledBy(Start(now, row), steps, s.version, s.written + d)
    ensures var s := Exec(Start(now, row), steps);
      s.now >= s.written + d + HOUR && Cached(s).Some? ==> s.row == Some(Cached(s).value.value)
  {
    var s := Exec(Start(now, row), steps);
    RunKeepsInv(Start(now, row), steps, s.version, s.written + d);
  }

  predicate Quiet(steps: seq<Step>) {
    forall k :: 0 <= k < |steps| ==> !steps[k].Upsert? && !steps[k].Delete?
  }

  /** Whatever the call holds or has answered is the current row. */
  ghost predicate CallIsCurrent(s: State, call: nat) {
    && (call in s.answers ==> s.answers[call] == s.row)
    && (call in s.readers && s.readers[call].Holding? ==> s.row == Some(s.readers[call].value))
  }

  lemma QuietStep(s: State, step: Step, deadline: int, call: nat)
    requires Inv(s, s.version, deadline) && !step.Upsert? && !step.Delete?
    requires s.now >= deadline + HOUR && CallIsCurrent(s, call)
    ensures var t := Next(s, step);
      && t.row == s.row && t.version == s.version && t.written == s.written
      && s.now <= t.now && CallIsCurrent(t, call)
  {
  }

  lemma {:induction false} QuietRun(s: State, steps: seq<Step>, deadline: int, call: nat)
    requires Inv(s, s.version, deadline) && FilledBy(s, steps, s.version, deadline) && Quiet(steps)
    requires s.now >= deadline + HOUR && CallIsCurrent(s, call)
    ensures var t := Exec(s, steps);
      && t.row == s.row && t.version == s.version && t.written == s.written
      && s.now <= t.now && CallIsCurrent(t, call)
    decreases |steps|
  {
    if steps != [] {
      var n := |steps| - 1;
      FilledByPrefix(s, steps, s.version, deadline, n);
      QuietRun(s, steps[..n], deadline, call);
      RunKeepsInv(s, steps[..n], s.version, deadline);
      QuietStep(Exec(s, steps[..n]), steps[n], deadline, call);
    }
  }

  lemma FilledBySplit(s: State, a: seq<Step>, b: seq<Step>, last: nat, deadline: int)
    requires FilledBy(s, a + b, last, deadline)
    ensures FilledBy(s, a, last, deadline) && FilledBy(Exec(s, a), b, last, deadline)
  {
    FilledByPrefix(s, a + b, last, deadline, |a|);
    assert (a + b)[..|a|] == a;
    forall k | 0 <= k < |b|
      ensures StaleFill(Exec(Exec(s, a), b[..k]), b[k], last) ==> Exec(Exec(s, a), b[..k]).now <= deadline
    {
      ExecSplit(s, a, b[..k]);
      assert (a + b)[..|a| + k] == a + b[..k];
      assert (a + b)[|a| + k] == b[k];
    }
  }

  /** Bounded staleness: if the last write of the row was at T and every fill that read before it has reached Redis
      by T + d or never does, then every `getSettings` begun at T + d + 1h or later returns the current row,
      under every interleaving and with any deletes lost. */
  lemma BoundedStaleness(now: int, row: Option<Settings>, pre: seq<Step>, rest: seq<Step>, d: nat, call: nat)
    requires Quiet(rest)
    requires var s := Exec(Start(now, row), pre);
      && FilledBy(Start(now, row), pre + rest, s.version, s.written + d)
      && s.now >= s.written + d + HOUR && call !in s.readers && call !in s.answers
    ensures var s, t := Exec(Start(now, row), pre), Exec(Start(now, row), pre + rest);
      t.row == s.row && (call in t.answers ==> t.answers[call] == t.row)
  {
    var s := Exec(Start(now, row), pre);
    FilledBySplit(Start(now, row), pre, rest, s.version, s.written + d);
    ExecSplit(Start(now, row), pre, rest);
    RunKeepsInv(Start(now, row), pre, s.version, s.written + d);
    QuietRun(s, rest, s.written + d, call);
  }

  lemma ExecTake(s: State, steps: seq<Step>, k: nat)
    requires k < |steps|
    ensures Exec(s, steps[..k + 1]) == Next(Exec(s, steps[..k]), steps[k])
  {
    assert steps[..k + 1][..k] == steps[..k];
  }

  function RacingFill(w: Settings, d: nat): (steps: seq<Step>)
    ensures |steps| == 8
  {
    [Lookup(0, true), Select(0), Upsert(w), Drop, Pass(d), Fill(0, true), Pass(HOUR - 1), Lookup(1, true)]
  }

  /** The states of that run just before and just after the late fill. */
  lemma RacingStates(v: Settings, w: Settings, d: nat)
    ensures var s0, steps := Start(0, Some(v)), RacingFill(w, d);
      && Exec(s0, steps[..5]) == State(d, Some(w), 1, 0, None, map[0 := Holding(v, 0)], map[])
      && Exec(s0, steps[..6])
      == State(d, Some(w), 1, 0, Some(Entry(v, 0, d + HOUR)), map[], map[0 := Some(v)])
  {
    var s0, steps := Start(0, Some(v)), RacingFill(w, d);
    ExecTake(s0, steps, 0);
    ExecTake(s0, steps, 1);
    assert steps[..0] == [];
    assert Exec(s0, steps[..2]) == s0.(readers := map[0 := Holding(v, 0)]);
    ExecTake(s0, steps, 2);
    ExecTake(s0, steps, 3);
    ExecTake(s0, steps, 4);
    ExecTake(s0, steps, 5);
  }

  /** The bound is tight: for every d there is a run, in which the delete does arrive, that still answers
      with the old row one second before T + d + 1h. */
  lemma StalenessIsTight(v: Settings, w: Settings, d: nat)
    requires v != w
    ensures var s := Exec(Start(0, Some(v)), RacingFill(w, d));
      && FilledBy(Start(0, Some(v)), RacingFill(w, d), s.version, s.written + d)
      && s.now == s.written + d + 3600 - 1 && s.row == Some(w)
      && 1 in s.answers && s.answers[1] == Some(v)
  {
    var s0, steps := Start(0, Some(v)), RacingFill(w, d);
    RacingStates(v, w, d);
    ExecTake(s0, steps, 6);
    ExecTake(s0, steps, 7);
    assert steps[..8] == steps;
    var s := Exec(s0, steps);
    assert s.written == 0;
    forall k | 0 <= k < |steps|
      ensures StaleFill(Exec(s0, steps[..k]), steps[k], s.version) ==> Exec(s0, steps[..k]).now <= s.written + d
    {
      assert steps[k].Fill? ==> k == 5;
    }
  }

  // ----- Calls that do not overlap -----

  /** A whole call, with whether its best-effort Redis write arrives. */
  datatype Call =
    | Wait(seconds: nat)
    | GetSettings(call: nat, reached: bool, stored: bool)
    | SetRateLimit(value: Settings, dropped: bool)
    | RemoveRateLimit(dropped: bool)

  function Steps(c: Call): seq<Step> {
    match c
    case Wait(d) => [Pass(d)]
    case GetSettings(call, reached, stored) => [Lookup(call, reached), Select(call), Fill(call, stored)]
    case SetRateLimit(v, dropped) => if dropped then [Upsert(v), Drop] else [Upsert(v)]
    case RemoveRateLimit(dropped) => if dropped then [Delete, Drop] else [Delete]
  }

  function Serial(calls: seq<Call>): seq<Step> {
    if calls == [] then [] else Serial(calls[..|calls| - 1]) + Steps(calls[|calls| - 1])
  }

  /** No call is in progress, and the copy that Redis holds, if any, is equal to the row. */
  predicate Coherent(s: State) {
    s.readers == map[] && (Cached(s).None? || s.row == Some(Cached(s).value.value))
  }

  /** The copy is for sure equal to the row, or gone, after the call. */
  predicate Harmless(s: State, c: Call) {
    match c
    case SetRateLimit(v, dropped) => dropped || Cached(s).None? || Cached(s).value.value == v
    case RemoveRateLimit(dropped) => dropped || Cached(s).None?
    case _ => true
  }

  /** The call, step after step. */
  function Alone(s: State, c: Call): State {
    match c
    case Wait(d) => Next(s, Pass(d))
    case GetSettings(call, reached, stored) =>
      Next(Next(Next(s, Lookup(call, reached)), Select(call)), Fill(call, stored))
    case SetRateLimit(v, dropped) => if dropped then Next(Next(s, Upsert(v)), Drop) else Next(s, Upsert(v))
    case RemoveRateLimit(dropped) => if dropped then Next(Next(s, Delete), Drop) else Next(s, Delete)
  }

  lemma ExecSteps(s: State, c: Call)
    ensures Exec(s, Steps(c)) == Alone(s, c)
  {
    var steps := Steps(c);
    forall k | 0 <= k < |steps| ensures Exec(s, steps[..k + 1]) == Next(Exec(s, steps[..k]), steps[k]) {
      ExecTake(s, steps, k);
    }
    assert steps[..0] == [] && steps[..|steps|] == steps;
    assert Exec(s, steps[..1]) == Next(s, steps[0]);
  }

  lemma LoneGetSettings(s: State, call: nat, reached: bool, stored: bool)
    requires Coherent(s)
    ensures var t := Alone(s, GetSettings(call, reached, stored));
      Coherent(t) && (call !in s.answers ==> call in t.answers && t.answers[call] == s.row)
  {
    var s1 := Next(s, Lookup(call, reached));
    if call !in s.answers && call in s1.readers {
      assert s1.readers[call] == Missed && s1.readers - {call} == map[];
      var s2 := Next(s1, Select(call));
      if s.row.Some? {
        assert s2.readers - {call} == map[];
      }
    }
  }

  /** A call that runs alone keeps the cache coherent exactly if its delete arrives or is not needed,
      and a `getSettings` that runs alone answers with the row. */
  lemma LoneCallKeepsCoherence(s: State, c: Call)
    requires Coherent(s)
    ensures Coherent(Exec(s, Steps(c))) <==> Harmless(s, c)
    ensures c.GetSettings? && c.call !in s.answers ==>
      c.call in Exec(s, Steps(c)).answers && Exec(s, Steps(c)).answers[c.call] == s.row
  {
    ExecSteps(s, c);
    if c.GetSettings? {
      LoneGetSettings(s, c.call, c.reached, c.stored);
    }
  }

  /** In runs without overlap in which every delete arrives, the copy is at every moment between calls
      absent or equal to the row. */
  lemma {:induction false} SerialRunsAreCoherent(now: int, row: Option<Settings>, calls: seq<Call>)
    requires forall k :: 0 <= k < |calls| ==>
      (calls[k].SetRateLimit? || calls[k].RemoveRateLimit? ==> calls[k].dropped)
    ensures Coherent(Exec(Start(now, row), Serial(calls)))
    decreases |calls|
  {
    if calls != [] {
      var last := |calls| - 1;
      SerialRunsAreCoherent(now, row, calls[..last]);
      ExecSplit(Start(now, row), Serial(calls[..last]), Steps(calls[last]));
      LoneCallKeepsCoherence(Exec(Start(now, row), Serial(calls[..last])), calls[last]);
    }
  }
}
