/** The rate-limit service: its settings map mirrors the limiter behind it. */
module RateLimitService {
  import opened Machine
  import opened RateLimit
  import opened MemoryLimiter
  import opened Trace
  import TB = TickerBucket

  datatype Error = EmptyClientId | BadCapacity | BadRate | NotFound
  datatype Outcome = Ok | Err(error: Error)

  function Validate(s: Settings): Outcome {
    if s.clientId == "" then Err(EmptyClientId)
    else if s.capacity <= 0 then Err(BadCapacity)
    else if s.rate <= 0 then Err(BadRate)
    else Ok
  }

  /** The service's list and the limiter's buckets. */
  datatype State = State(settings: map<string, Settings>, buckets: Buckets)

  function Created(st: State, s: Settings, now: int): State {
    if Validate(s).Err? then st
    else State(st.settings[s.clientId := s], st.buckets[s.clientId := TB.Fresh(s.capacity, s.rate, now)])
  }

  function Removed(st: State, client: string): State {
    if client in st.settings then State(st.settings - {client}, st.buckets - {client}) else st
  }

  /** Same clients, and each bucket works with the listed settings, which the service accepted. */
  ghost predicate Mirrored(st: State) {
    && st.settings.Keys == st.buckets.Keys
    && forall c :: c in st.settings ==>
         && st.settings[c].clientId == c && Validate(st.settings[c]) == Ok
         && st.buckets[c].capacity == st.settings[c].capacity
         && st.buckets[c].rate == st.settings[c].rate
         && st.buckets[c].tokens <= st.settings[c].capacity
  }

  class Service {
    const limiter: MemoryRateLimiter
    var settings: map<string, Settings>

    constructor (limiter: MemoryRateLimiter)
      requires limiter.Valid()
      ensures this.limiter == limiter && Valid() && settings == map[]
      ensures limiter.clients == map[] ==> Mirrored(View())
    {
      this.limiter, this.settings := limiter, map[];
    }

    ghost predicate Valid()
      reads this, limiter
    {
      limiter.Valid()
    }

    ghost function View(): State
      reads this, limiter, limiter.Objects()
    {
      State(settings, limiter.View())
    }

    /** Invalid settings are refused, in this order of checks, and change nothing. */
    method CreateOrUpdateClient(s: Settings, now: int) returns (r: Outcome)
      requires Valid()
      modifies this, limiter
      ensures Valid() && fresh(limiter.Objects() - old(limiter.Objects()))
      // The first check that fails decides.
      ensures r == Err(EmptyClientId) <==> s.clientId == ""
      ensures r == Err(BadCapacity) <==> s.clientId != "" && s.capacity <= 0
      ensures r == Err(BadRate) <==> s.clientId != "" && s.capacity > 0 && s.rate <= 0
      ensures r == Ok <==> s.clientId != "" && s.capacity > 0 && s.rate > 0
      ensures r != Ok ==> settings == old(settings) && limiter.View() == old(limiter.View())
      ensures r == Ok ==>
        && settings == old(settings)[s.clientId := s]
        && limiter.View() == old(limiter.View())[s.clientId := TB.Bucket(s.capacity, s.capacity, s.rate, now)]
      ensures r == Validate(s) && View() == Created(old(View()), s, now)
      ensures old(Mirrored(View())) ==> Mirrored(View())
    {
      if s.clientId == "" {
        return Err(EmptyClientId);
      }
      if s.capacity <= 0 {
        return Err(BadCapacity);
      }
      if s.rate <= 0 {
        return Err(BadRate);
      }
      settings := settings[s.clientId := s];
      limiter.SetRateLimit(s.clientId, s, now);
      return Ok;
    }

    /** A listed client leaves both maps, and nobody else does. */
    method RemoveClient(client: string) returns (r: Outcome)
      requires Valid()
      modifies this, limiter
      ensures Valid() && limiter.Objects() <= old(limiter.Objects())
      ensures r == if client in old(settings) then Ok else Err(NotFound)
      ensures settings == old(settings) - {client}
      ensures limiter.View() == if r == Ok then old(limiter.View()) - {client} else old(limiter.View())
      ensures View() == Removed(old(View()), client)
      ensures old(Mirrored(View())) ==> Mirrored(View())
    {
      if client !in settings {
        return Err(NotFound);
      }
      settings := settings - {client};
      limiter.RemoveRateLimit(client);
      return Ok;
    }

    /** In a mirrored state the answer is exactly what the limiter enforces: there are settings if and only if
        the limiter limits the client, and its bucket works with them. */
    method GetClientSettings(client: string) returns (r: Option<Settings>)
      requires Valid()
      ensures r.Some? ==> client in settings && r.value == settings[client]
      ensures Mirrored(View()) ==> (r.Some? <==> client in View().buckets)
      ensures Mirrored(View()) && r.Some? ==>
        var b := View().buckets[client];
        && r.value.clientId == client && Validate(r.value) == Ok
        && b.capacity == r.value.capacity && b.rate == r.value.rate && b.tokens <= r.value.capacity
    {
      r := if client in settings then Some(settings[client]) else None;
    }

    /** Lists every client's settings once, in any order. */
    method ListClients() returns (listed: seq<Settings>)
      ensures |listed| == |settings|
      ensures forall s :: s in listed <==> s in settings.Values
    {
      listed := [];
      var todo := settings.Keys;
      while todo != {}
        invariant todo <= settings.Keys && |listed| + |todo| == |settings|
        invariant forall s :: s in listed <==> exists c :: c in settings && c !in todo && settings[c] == s
        decreases todo
      {
        var c :| c in todo;
        listed := listed + [settings[c]];
        todo := todo - {c};
      }
    }
  }

  // ----- Runs -----

  /** Calls to the service, and what requests and the ticker do to the limiter in between. */
  datatype Call =
    | CreateOrUpdate(s: Settings, now: int)
    | Remove(client: string)
    | Allow(client: string, at: int)
    | Refill(clock: string -> int)

  function Next(st: State, c: Call): State {
    match c
    case CreateOrUpdate(s, now) => Created(st, s, now)
    case Remove(client) => Removed(st, client)
    case Allow(client, _) => st.(buckets := Taken(st.buckets, client))
    case Refill(clock) => st.(buckets := Refilled(st.buckets, clock))
  }

  function Exec(st: State, calls: seq<Call>): State
    decreases |calls|
  {
    if calls == [] then st else Exec(Next(st, calls[0]), calls[1..])
  }

  /** With the limiter changed only through the service, the mirror holds in every state between calls
      of every run of create, update, remove, allow and refill. */
  lemma {:induction false} MirrorOverRuns(st: State, calls: seq<Call>)
    requires Mirrored(st)
    ensures Mirrored(Exec(st, calls))
    decreases |calls|
  {
    if calls != [] {
      StepKeepsMirror(st, calls[0]);
      MirrorOverRuns(Next(st, calls[0]), calls[1..]);
    }
  }

  lemma StepKeepsMirror(st: State, c: Call)
    requires Mirrored(st)
    ensures Mirrored(Next(st, c))
  {
  }

  // ----- One client, end to end -----

  /** No call changes this client's settings. */
  predicate Untouched(calls: seq<Call>, client: string) {
    forall k :: 0 <= k < |calls| ==>
      !(calls[k].CreateOrUpdate? && calls[k].s.clientId == client) && !(calls[k].Remove? && calls[k].client == client)
  }

  /** What a call, and what a run, means for the client's bucket. */
  function EventOf(c: Call, client: string): seq<TB.Event> {
    if c.Allow? && c.client == client then [TB.Request(c.at)]
    else if c.Refill? then [TB.Tick(c.clock(client))]
    else []
  }

  function Events(calls: seq<Call>, client: string): seq<TB.Event>
    decreases |calls|
  {
    if calls == [] then [] else EventOf(calls[0], client) + Events(calls[1..], client)
  }

  predicate LetsThrough(st: State, c: Call, client: string) {
    c.Allow? && c.client == client && Allowed(st.buckets, client)
  }

  /** Requests of the client that the run lets through. */
  function AdmittedOf(st: State, calls: seq<Call>, client: string): nat
    decreases |calls|
  {
    if calls == [] then 0
    else (if LetsThrough(st, calls[0], client) then 1 else 0) + AdmittedOf(Next(st, calls[0]), calls[1..], client)
  }

  lemma CallOnBucket(st: State, c: Call, client: string)
    requires client in st.buckets && Untouched([c], client)
    ensures var st', b, es := Next(st, c), st.buckets[client], EventOf(c, client);
      && client in st'.buckets
      && st'.buckets[client] == Final(TB.Step, b, es)
      && (if LetsThrough(st, c, client) then 1 else 0) == Admits(TB.Step, b, es)
  {
    assert !([c][0].CreateOrUpdate? && c.s.clientId == client) && !([c][0].Remove? && c.client == client);
    var es := EventOf(c, client);
    if es != [] {
      assert es[1..] == [];
      AdmitsCons(TB.Step, st.buckets[client], es);
    }
  }

  /** While its settings are untouched, a client sees exactly a run of its own bucket. */
  lemma {:induction false} ClientSeesItsBucket(st: State, calls: seq<Call>, client: string)
    requires client in st.buckets && Untouched(calls, client)
    ensures client in Exec(st, calls).buckets
    ensures Exec(st, calls).buckets[client] == Final(TB.Step, st.buckets[client], Events(calls, client))
    ensures AdmittedOf(st, calls, client) == Admits(TB.Step, st.buckets[client], Events(calls, client))
    decreases |calls|
  {
    if calls != [] {
      var c, b := calls[0], st.buckets[client];
      var es, rest := EventOf(c, client), Events(calls[1..], client);
      CallOnBucket(st, c, client);
      ClientSeesItsBucket(Next(st, c), calls[1..], client);
      RunSplit(TB.Step, b, es, rest);
      AdmissionsSplit(Verdicts(TB.Step, b, es), Verdicts(TB.Step, Final(TB.Step, b, es), rest));
    }
  }

  /** No call creates this client. */
  predicate NotCreated(calls: seq<Call>, client: string) {
    forall k :: 0 <= k < |calls| ==> !(calls[k].CreateOrUpdate? && calls[k].s.clientId == client)
  }

  lemma {:induction false} UnknownStaysUnknown(st: State, calls: seq<Call>, client: string)
    requires client !in st.settings && client !in st.buckets && NotCreated(calls, client)
    ensures client !in Exec(st, calls).settings && client !in Exec(st, calls).buckets
    decreases |calls|
  {
    if calls != [] {
      assert !(calls[0].CreateOrUpdate? && calls[0].s.clientId == client);
      UnknownStaysUnknown(Next(st, calls[0]), calls[1..], client);
    }
  }

  /** A client that was removed is neither listed nor limited, in any run, until it is created again:
      all its requests pass. */
  lemma RemovedStaysAway(st: State, client: string, calls: seq<Call>)
    requires Mirrored(st) && NotCreated(calls, client)
    ensures var after := Exec(Next(st, Remove(client)), calls);
      && client !in after.settings && client !in after.buckets && Allowed(after.buckets, client)
  {
    UnknownStaysUnknown(Next(st, Remove(client)), calls, client);
  }

  /** Until the next change the settings listed for a client are those that were last accepted for it. */
  lemma {:induction false} LastAcceptedIsListed(st: State, calls: seq<Call>, client: string)
    requires Untouched(calls, client)
    ensures client in Exec(st, calls).settings <==> client in st.settings
    ensures client in st.settings ==> Exec(st, calls).settings[client] == st.settings[client]
    decreases |calls|
  {
    if calls != [] {
      assert !(calls[0].CreateOrUpdate? && calls[0].s.clientId == client);
      assert !(calls[0].Remove? && calls[0].client == client);
      LastAcceptedIsListed(Next(st, calls[0]), calls[1..], client);
    }
  }

  /** So a create or update followed by any run that leaves the client alone can be read back. */
  lemma CreatedIsReadBack(st: State, s: Settings, now: int, calls: seq<Call>)
    requires Validate(s) == Ok && Untouched(calls, s.clientId)
    ensures var after := Exec(Created(st, s, now), calls);
      s.clientId in after.settings && after.settings[s.clientId] == s
  {
    LastAcceptedIsListed(Created(st, s, now), calls, s.clientId);
  }

  /** End to end: after an accepted create or update at t0, in any run that leaves the client's settings alone,
      whatever the other clients do, the requests of the client let through in a window [s, t] number
      at most 2 * capacity + rate * (t - s). */
  lemma ServiceWindow(st: State, c: Settings, t0: int, pre: seq<Call>, win: seq<Call>, s: int, t: int)
    requires Validate(c) == Ok && s <= t
    requires Untouched(pre, c.clientId) && Untouched(win, c.clientId)
    requires TB.Within(Events(win, c.clientId), s, t)
    ensures NANOS * AdmittedOf(Exec(Created(st, c, t0), pre), win, c.clientId)
         <= 2 * NANOS * c.capacity + c.rate * (t - s)
  {
    var st0, id := Created(st, c, t0), c.clientId;
    var b := TB.Fresh(c.capacity, c.rate, t0);
    ClientSeesItsBucket(st0, pre, id);
    ClientSeesItsBucket(Exec(st0, pre), win, id);
    TB.RunKeepsSettings(b, Events(pre, id));
    TB.WindowFrom(Final(TB.Step, b, Events(pre, id)), Events(win, id), s, t);
  }

  // ----- A limiter that can fail -----

  /** What any limiter enforces: capacity and rate of each client. */
  type Limits = map<string, (int64, int64)>

  ghost predicate Enforced(settings: map<string, Settings>, limits: Limits) {
    && settings.Keys == limits.Keys
    && forall c :: c in settings ==> limits[c] == (settings[c].capacity, settings[c].rate)
  }

  /** The service writes its own map first and keeps it when the limiter fails: an accepted update keeps the
      mirror exactly if the limiter took it, or already enforced the same. */
  lemma FailedUpdateBreaksMirror(settings: map<string, Settings>, limits: Limits, s: Settings, taken: bool)
    requires Enforced(settings, limits) && Validate(s) == Ok
    ensures var limits' := if taken then limits[s.clientId := (s.capacity, s.rate)] else limits;
      Enforced(settings[s.clientId := s], limits')
      <==> taken || (s.clientId in limits && limits[s.clientId] == (s.capacity, s.rate))
  {
    var settings' := settings[s.clientId := s];
    assert settings'[s.clientId] == s;
    if s.clientId in settings {
      assert settings'.Keys == settings.Keys;
    } else {
      assert s.clientId in settings'.Keys;
    }
  }

  /** A removal forgets the client even if the limiter fails, and then the mirror is broken. */
  lemma FailedRemovalBreaksMirror(settings: map<string, Settings>, limits: Limits, client: string, taken: bool)
    requires Enforced(settings, limits) && client in settings
    ensures Enforced(settings - {client}, if taken then limits - {client} else limits) <==> taken
  {
    assert client !in (settings - {client}).Keys;
  }
}
