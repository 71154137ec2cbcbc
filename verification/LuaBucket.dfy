/** The hybrid bucket: a Lua script over two Redis keys, refilled lazily in whole seconds. */
module LuaBucket {
  import opened Machine
  import opened RateLimit
  import opened Trace
  import opened Arithmetic
  import Clock

  /** The `:tokens` and `:last_refill` keys of one client. */
  datatype Keys = Keys(tokens: Option<int>, last: Option<int>)

  const NO_KEYS := Keys(None, None)

  /** One evaluation of the script, or the deletion of both keys by `RemoveRateLimit`. */
  datatype Event = Request(now: int) | Remove

  predicate Accepted(c: Settings) {
    0 < c.capacity && 0 < c.rate
  }

  /** The script. Tokens without `:last_refill` would be a Lua error, on which `Allow` lets the request through. */
  function Script(c: Settings, keys: Keys, now: int): (Keys, Verdict) {
    if keys.tokens.Some? && keys.last.None? then (keys, Admitted)
    else
      var (tokens, last) := if keys.tokens.None? then (c.capacity, now) else (keys.tokens.value, keys.last.value);
      var filled := Min(c.capacity, tokens + (now - last) * c.rate);
      if filled > 0
      then (Keys(Some(filled - 1), Some(now)), Admitted)
      else (keys, Denied)
  }

  function Step(c: Settings): (Keys, Event) -> (Keys, Verdict) {
    (keys: Keys, e: Event) =>
      if e.Request? then Script(c, keys, e.now) else (NO_KEYS, Silent)
  }

  /** Request times never go back, and start at `from` or later. */
  predicate Monotone(events: seq<Event>, from: int) {
    events == [] ||
    (if events[0].Request?
     then from <= events[0].now && Monotone(events[1..], events[0].now)
     else Monotone(events[1..], from))
  }

  // ----- Reachable keys -----

  /** Both keys are there or neither is, and the stored tokens are in [0, capacity). */
  predicate Sound(c: Settings, keys: Keys) {
    (keys.tokens.Some? <==> keys.last.Some?) && (keys.tokens.Some? ==> 0 <= keys.tokens.value < c.capacity)
  }

  /** Every run, whatever the clock does, keeps the two keys together and the tokens in range. */
  lemma {:induction false} KeysStayTogether(c: Settings, keys: Keys, events: seq<Event>)
    requires Sound(c, keys)
    ensures Sound(c, Final(Step(c), keys, events))
    decreases |events|
  {
    if events != [] {
      KeysStayTogether(c, Step(c)(keys, events[0]).0, events[1..]);
    }
  }

  /** The settings may change between evaluations; `cap` is the capacity used at the last write of the keys. */
  datatype Stored = Stored(keys: Keys, cap: int)

  function StepWith(st: Stored, e: (Settings, Event)): (Stored, Verdict) {
    var (keys', verdict) := Step(e.0)(st.keys, e.1);
    (Stored(keys', if verdict == Admitted then e.0.capacity else st.cap), verdict)
  }

  /** For any settings and any clock, even a backward one, the keys stay together and the stored tokens stay
      below the capacity used at the last write, and are never negative. */
  lemma {:induction false} TokensUnderChangingSettings(st: Stored, events: seq<(Settings, Event)>)
    requires (st.keys.tokens.Some? <==> st.keys.last.Some?)
    requires st.keys.tokens.Some? ==> 0 <= st.keys.tokens.value < st.cap
    ensures var f := Final(StepWith, st, events);
      && (f.keys.tokens.Some? <==> f.keys.last.Some?)
      && (f.keys.tokens.Some? ==> 0 <= f.keys.tokens.value < f.cap)
    decreases |events|
  {
    if events != [] {
      TokensUnderChangingSettings(StepWith(st, events[0]).0, events[1..]);
    }
  }

  // ----- Exact refinement -----

  /** The simple form: a bucket that adds `rate` tokens, capped, at every whole second. */
  datatype Eager = Eager(level: int, at: int)

  function Seconds(c: Settings, level: int, n: nat): int {
    if n == 0 then level else Min(c.capacity, Seconds(c, level, n - 1) + c.rate)
  }

  /** Requests advance the eager bucket second by second; a removal leaves a full one. */
  function EagerStep(c: Settings): (Eager, Event) -> (Eager, Verdict) {
    (b: Eager, e: Event) =>
      if e.Remove? then (b.(level := c.capacity), Silent)
      else
        var level := Seconds(c, b.level, Max(e.now - b.at, 0));
        if level > 0 then (Eager(level - 1, e.now), Admitted) else (Eager(level, e.now), Denied)
  }

  lemma {:induction false} SecondsInOneGo(c: Settings, level: int, n: nat)
    requires Accepted(c) && level <= c.capacity
    ensures Seconds(c, level, n) == Min(c.capacity, level + n * c.rate)
  {
    if n > 0 {
      SecondsInOneGo(c, level, n - 1);
      assert n * c.rate == (n - 1) * c.rate + c.rate;
    } else {
      assert 0 * c.rate == 0;
    }
  }

  lemma {:induction false} SecondsAdd(c: Settings, level: int, m: nat, n: nat)
    ensures Seconds(c, level, m + n) == Seconds(c, Seconds(c, level, m), n)
    decreases n
  {
    if n > 0 {
      SecondsAdd(c, level, m, n - 1);
    }
  }

  lemma {:induction false} FullStaysFull(c: Settings, n: nat)
    requires Accepted(c)
    ensures Seconds(c, c.capacity, n) == c.capacity
  {
    if n > 0 {
      FullStaysFull(c, n - 1);
    }
  }

  /** The keys stand for the eager bucket: absent keys for a full one, present keys for its level at `last`. */
  predicate Represents(c: Settings, keys: Keys, b: Eager) {
    && Sound(c, keys)
    && (keys.tokens.None? ==> b.level == c.capacity)
    && (keys.tokens.Some? ==>
          keys.last.value <= b.at && b.level == Seconds(c, keys.tokens.value, b.at - keys.last.value))
  }

  lemma ScriptFollowsEager(c: Settings, keys: Keys, b: Eager, now: int)
    requires Accepted(c) && Represents(c, keys, b) && b.at <= now
    ensures var mine, its := Script(c, keys, now), EagerStep(c)(b, Request(now));
      mine.1 == its.1 && Represents(c, mine.0, its.0)
  {
    if keys.tokens.None? {
      FullStaysFull(c, now - b.at);
      assert (now - now) * c.rate == 0;
    } else {
      SecondsAdd(c, keys.tokens.value, b.at - keys.last.value, now - b.at);
      SecondsInOneGo(c, keys.tokens.value, now - keys.last.value);
    }
  }

  lemma {:induction false} LuaFollowsEager(c: Settings, keys: Keys, b: Eager, events: seq<Event>)
    requires Accepted(c) && Represents(c, keys, b) && Monotone(events, b.at)
    ensures Verdicts(Step(c), keys, events) == Verdicts(EagerStep(c), b, events)
    ensures Represents(c, Final(Step(c), keys, events), Final(EagerStep(c), b, events))
    decreases |events|
  {
    if events != [] {
      var e := events[0];
      if e.Request? {
        ScriptFollowsEager(c, keys, b, e.now);
      }
      LuaFollowsEager(c, Step(c)(keys, e).0, EagerStep(c)(b, e).0, events[1..]);
    }
  }

  /** With constant settings and non-decreasing seconds the script decides exactly as the bucket that
      starts full and adds `rate`, capped, at every whole second; removals included. */
  lemma LuaIsEager(c: Settings, t0: int, events: seq<Event>)
    requires Accepted(c) && Monotone(events, t0)
    ensures Verdicts(Step(c), NO_KEYS, events) == Verdicts(EagerStep(c), Eager(c.capacity, t0), events)
  {
    LuaFollowsEager(c, NO_KEYS, Eager(c.capacity, t0), events);
  }

  // ----- Admission bound -----

  predicate NoRemoval(events: seq<Event>) {
    forall i :: 0 <= i < |events| ==> events[i].Request?
  }

  predicate ReadingsWithin(events: seq<Event>, s: int, t: int) {
    NoRemoval(events) && forall i :: 0 <= i < |events| ==> s <= events[i].now <= t
  }

  /** What the stored tokens are worth at `t`: going back in time costs exactly what going forward earns. */
  function Worth(c: Settings, keys: Keys, t: int): int
    requires keys.tokens.Some? && keys.last.Some?
  {
    keys.tokens.value + (t - keys.last.value) * c.rate
  }

  lemma ScriptPays(c: Settings, keys: Keys, now: int, t: int)
    requires Accepted(c) && (keys.tokens.Some? <==> keys.last.Some?)
    requires Script(c, keys, now).1 == Admitted
    ensures var keys' := Script(c, keys, now).0;
      && keys'.tokens.Some? && 0 <= keys'.tokens.value && keys'.last == Some(now)
      && Worth(c, keys', t) + 1 <= c.capacity + (t - now) * c.rate
      && (keys.tokens.Some? ==> Worth(c, keys', t) + 1 <= Worth(c, keys, t))
  {
    if keys.tokens.Some? {
      var last := keys.last.value;
      assert (t - last) * c.rate == (t - now) * c.rate + (now - last) * c.rate;
    }
  }

  /** Once the keys are written at a reading up to t, later admissions with readings up to t are paid by their worth. */
  lemma {:induction false} AdmissionsArePaid(c: Settings, keys: Keys, events: seq<Event>, s: int, t: int)
    requires Accepted(c) && ReadingsWithin(events, s, t)
    requires keys.tokens.Some? && keys.last.Some? && 0 <= keys.tokens.value && keys.last.value <= t
    ensures Admits(Step(c), keys, events) <= Worth(c, keys, t)
    decreases |events|
  {
    if events == [] {
      MulNonNegative(t - keys.last.value, c.rate);
    } else {
      var now := events[0].now;
      AdmitsCons(Step(c), keys, events);
      if Script(c, keys, now).1 == Admitted {
        ScriptPays(c, keys, now, t);
      }
      AdmissionsArePaid(c, Step(c)(keys, events[0]).0, events[1..], s, t);
    }
  }

  /** The first admission finds at most a full bucket; from then on time pays. */
  lemma {:induction false} BoundInWindow(c: Settings, keys: Keys, win: seq<Event>, s: int, t: int)
    requires Accepted(c) && (keys.tokens.Some? <==> keys.last.Some?)
    requires s <= t && ReadingsWithin(win, s, t)
    ensures Admits(Step(c), keys, win) <= c.capacity + (t - s) * c.rate
    decreases |win|
  {
    MulNonNegative(t - s, c.rate);
    if win != [] {
      var now, keys' := win[0].now, Step(c)(keys, win[0]).0;
      AdmitsCons(Step(c), keys, win);
      if Script(c, keys, now).1 == Admitted {
        ScriptPays(c, keys, now, t);
        AdmissionsArePaid(c, keys', win[1..], s, t);
        MulMonotone(t - now, t - s, c.rate);
      } else {
        BoundInWindow(c, keys', win[1..], s, t);
      }
    }
  }

  /** Between removals, any window of any run, with settings that changed before it and whatever the clock does,
      admits at most capacity + rate * (t - s) when the readings in it lie in [s, t]. */
  lemma LuaWindow(c: Settings, pre: seq<(Settings, Event)>, win: seq<Event>, s: int, t: int)
    requires Accepted(c) && s <= t && ReadingsWithin(win, s, t)
    ensures Admits(Step(c), Final(StepWith, Stored(NO_KEYS, 0), pre).keys, win) <= c.capacity + (t - s) * c.rate
  {
    TokensUnderChangingSettings(Stored(NO_KEYS, 0), pre);
    BoundInWindow(c, Final(StepWith, Stored(NO_KEYS, 0), pre).keys, win, s, t);
  }

  /** Evaluations with these settings, or with accepted settings of at most this capacity and rate. */
  predicate AllWith(evaluations: seq<(Settings, Event)>, c: Settings) {
    forall i :: 0 <= i < |evaluations| ==> evaluations[i].0 == c
  }

  predicate AllUpTo(evaluations: seq<(Settings, Event)>, capacity: int, rate: int) {
    forall i :: 0 <= i < |evaluations| ==>
      var (c, e) := evaluations[i];
      e.Request? && Accepted(c) && c.capacity <= capacity && c.rate <= rate
  }

  function Events(evaluations: seq<(Settings, Event)>): seq<Event> {
    if evaluations == [] then [] else [evaluations[0].1] + Events(evaluations[1..])
  }

  function Readings(evaluations: seq<(Settings, Event)>): seq<int> {
    if evaluations == [] then []
    else (if evaluations[0].1.Request? then [evaluations[0].1.now] else []) + Readings(evaluations[1..])
  }

  lemma {:induction false} ConstantSettings(st: Stored, evaluations: seq<(Settings, Event)>, c: Settings)
    requires AllWith(evaluations, c)
    ensures Admits(StepWith, st, evaluations) == Admits(Step(c), st.keys, Events(evaluations))
    decreases |evaluations|
  {
    if evaluations != [] {
      var events := Events(evaluations);
      AdmitsCons(StepWith, st, evaluations);
      AdmitsCons(Step(c), st.keys, events);
      assert events[1..] == Events(evaluations[1..]);
      ConstantSettings(StepWith(st, evaluations[0]).0, evaluations[1..], c);
    }
  }

  lemma EarnsAtMost(elapsed: int, slow: nat, fast: nat)
    requires slow <= fast
    ensures elapsed * slow <= fast * Max(elapsed, 0)
  {
    if elapsed >= 0 {
      MulMonotone(slow, fast, elapsed);
    } else {
      MulNonNegative(-elapsed, slow);
      assert fast * 0 == 0;
    }
  }

  /** The stored tokens and what the greatest rate earns up to `at`. */
  function Cover(keys: Keys, rate: nat, at: int): int
    requires keys.tokens.Some? && keys.last.Some?
  {
    keys.tokens.value + rate * Max(at - keys.last.value, 0)
  }

  lemma CoverPays(c: Settings, keys: Keys, rate: nat, from: int, now: int)
    requires Accepted(c) && c.rate <= rate && keys.tokens.Some? && keys.last.Some?
    ensures var (keys', verdict) := Script(c, keys, now);
      Cover(keys', rate, now) + (if verdict == Admitted then 1 else 0)
      <= Cover(keys, rate, from) + rate * Max(now - from, 0)
  {
    var last := keys.last.value;
    var before, more := Max(from - last, 0), Max(now - from, 0);
    EarnsAtMost(now - last, c.rate, rate);
    MulMonotone(Max(now - last, 0), before + more, rate);
    Distribute(rate, before, more);
    assert rate * Max(now - now, 0) == 0;
  }

  /** Once the keys are written, later admissions are paid by what they cover and by the way that the clock goes
      forward, at the greatest rate. */
  lemma {:induction false} ChangesArePaid(
      st: Stored, evaluations: seq<(Settings, Event)>, capacity: int, rate: nat, from: int)
    requires AllUpTo(evaluations, capacity, rate)
    requires st.keys.tokens.Some? && st.keys.last.Some? && 0 <= st.keys.tokens.value
    ensures Admits(StepWith, st, evaluations)
         <= Cover(st.keys, rate, from) + rate * Clock.Forward(from, Readings(evaluations))
    decreases |evaluations|
  {
    if evaluations == [] {
      MulNonNegative(rate, Max(from - st.keys.last.value, 0));
      assert rate * 0 == 0;
    } else {
      var now, rest := evaluations[0].1.now, evaluations[1..];
      AdmitsCons(StepWith, st, evaluations);
      CoverPays(evaluations[0].0, st.keys, rate, from, now);
      ChangesArePaid(StepWith(st, evaluations[0]).0, rest, capacity, rate, now);
      assert Readings(evaluations)[1..] == Readings(rest);
      Distribute(rate, Max(now - from, 0), Clock.Forward(now, Readings(rest)));
    }
  }

  /** The first admission finds at most the greatest capacity; from then on the clock pays. */
  lemma {:induction false} ChangesBound(
      st: Stored, evaluations: seq<(Settings, Event)>, capacity: nat, rate: nat, from: int)
    requires AllUpTo(evaluations, capacity, rate)
    requires (st.keys.tokens.Some? <==> st.keys.last.Some?)
    ensures Admits(StepWith, st, evaluations) <= capacity + rate * Clock.Forward(from, Readings(evaluations))
    decreases |evaluations|
  {
    if evaluations != [] {
      var (c, e) := evaluations[0];
      var now, rest := e.now, evaluations[1..];
      var st' := StepWith(st, evaluations[0]).0;
      AdmitsCons(StepWith, st, evaluations);
      assert Readings(evaluations)[1..] == Readings(rest);
      MulMonotone(Clock.Forward(now, Readings(rest)), Clock.Forward(from, Readings(evaluations)), rate);
      if Script(c, st.keys, now).1 == Admitted {
        ChangesArePaid(st', rest, capacity, rate, now);
        assert rate * Max(now - now, 0) == 0;
      } else {
        ChangesBound(st', rest, capacity, rate, now);
      }
    }
  }

  /** Across changes of the settings: a window without removals, in any run, in which requests are decided by
      accepted settings of at most this capacity and rate, old and new ones in any mixture, admits at most the
      capacity plus what the rate earns while the clock goes forward: rate * (t - s) if it never goes back. */
  lemma LuaWindowAcrossChanges(
      pre: seq<(Settings, Event)>, win: seq<(Settings, Event)>, capacity: nat, rate: nat, s: int)
    requires AllUpTo(win, capacity, rate)
    ensures var st, times := Final(StepWith, Stored(NO_KEYS, 0), pre), Readings(win);
      && Admits(StepWith, st, win) <= capacity + rate * Clock.Forward(s, times)
      && (times != [] && Clock.Monotone(times, s) ==>
            Admits(StepWith, st, win) <= capacity + rate * (times[|times| - 1] - s))
  {
    TokensUnderChangingSettings(Stored(NO_KEYS, 0), pre);
    ChangesBound(Final(StepWith, Stored(NO_KEYS, 0), pre), win, capacity, rate, s);
    if Clock.Monotone(Readings(win), s) {
      Clock.ForwardWhenMonotone(Readings(win), s);
    }
  }

  /** Erasing every denied request changes no other verdict and not the stored keys. */
  lemma DeniedAreInvisible(c: Settings, keys: Keys, events: seq<Event>)
    ensures var kept := Kept(Step(c), keys, events);
      && Final(Step(c), keys, kept) == Final(Step(c), keys, events)
      && Verdicts(Step(c), keys, kept) == WithoutDenied(Verdicts(Step(c), keys, events))
  {
    DeniedErased(Step(c), keys, events);
  }
}
