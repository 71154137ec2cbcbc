/** The bucket of one client of the hybrid limiter, end to end: which requests pass, given the operations on the
    store, with a cache that may be out of date. */
module HybridBucket {
  import opened Machine
  import opened Arithmetic
  import opened RateLimit
  import opened Trace
  import opened HybridStore
  import Clock
  import LuaBucket
  import SettingsCache

  // ----- The token keys of a client -----

  /** Both token keys are there, as numbers, or neither is. */
  predicate Paired(acc: Account) {
    || (acc.tokens.None? && acc.last.None?)
    || (ToNumber(acc.tokens).Some? && ToNumber(acc.last).Some? && 0 <= acc.tokens.value.n)
  }

  function KeysOf(acc: Account): LuaBucket.Keys {
    LuaBucket.Keys(ToNumber(acc.tokens), ToNumber(acc.last))
  }

  lemma ServeKeepsPaired(acc: Account, op: Op)
    requires Paired(acc)
    ensures Paired(Serve(acc, op).0)
  {
  }

  lemma {:induction false} ServeAllKeepsPaired(acc: Account, ops: seq<Op>)
    requires Paired(acc)
    ensures Paired(ServeAll(acc, ops))
    decreases |ops|
  {
    if ops != [] {
      ServeKeepsPaired(acc, ops[0]);
      ServeAllKeepsPaired(Serve(acc, ops[0]).0, ops[1..]);
    }
  }

  /** In every run whose other clients have other keys, a client's token keys are both there or both absent,
      so that its script never fails. */
  lemma TokenKeysStayPaired(ops: seq<Op>, client: string)
    requires Undisturbed(ops, client)
    ensures var acc := View(Exec(EMPTY, ops), client);
      Paired(acc) && forall now :: !ScriptFails(Live(acc.tokens, now), Live(acc.last, now))
  {
    ClientSeesItsAccount(EMPTY, ops, client);
    ServeAllKeepsPaired(View(EMPTY, client), Own(ops, client));
  }

  // ----- Requests as evaluations of the script -----

  function LetThrough(outcomes: seq<Outcome>): nat {
    if outcomes == [] then 0 else (if outcomes[0] == Decided(true) then 1 else 0) + LetThrough(outcomes[1..])
  }

  /** The settings and readings with which a client's operations evaluate the script. */
  function Evaluations(acc: Account, ops: seq<Op>): seq<(Settings, LuaBucket.Event)>
    decreases |ops|
  {
    if ops == [] then []
    else EvaluationOf(acc, ops[0]) + Evaluations(Serve(acc, ops[0]).0, ops[1..])
  }

  function EvaluationOf(acc: Account, op: Op): seq<(Settings, LuaBucket.Event)> {
    if op.Allow? && Effective(acc, op.now, op.reached).Some?
    then [(Effective(acc, op.now, op.reached).value, LuaBucket.Request(op.now))]
    else []
  }

  /** Whatever numbers are stored, even tokens without a last refill, the script on the store decides and writes as
      the bucket's script does on these keys. */
  lemma ScriptAgrees(acc: Account, c: Settings, now: int)
    requires (acc.tokens.Some? ==> acc.tokens.value.Number?) && (acc.last.Some? ==> acc.last.value.Number?)
    ensures var (keys, verdict) := LuaBucket.Script(c, KeysOf(acc), now);
      var (acc', allowed) := Evaluated(acc, c, now);
      allowed == (verdict == Admitted) && acc' == acc.(tokens := acc'.tokens, last := acc'.last) && KeysOf(acc') == keys
  {
  }

  predicate NoRemoval(ops: seq<Op>) {
    forall k :: 0 <= k < |ops| ==> !ops[k].RemoveRateLimit?
  }

  function StoredOf(acc: Account, cap: int): LuaBucket.Stored {
    LuaBucket.Stored(KeysOf(acc), cap)
  }

  lemma OperationIsEvaluation(acc: Account, op: Op, cap: int)
    requires Paired(acc) && !op.RemoveRateLimit?
    ensures var (acc', outcome) := Serve(acc, op);
      var evaluations := EvaluationOf(acc, op);
      && Paired(acc')
      && KeysOf(acc') == Final(LuaBucket.StepWith, StoredOf(acc, cap), evaluations).keys
      && LetThrough([outcome]) == Admits(LuaBucket.StepWith, StoredOf(acc, cap), evaluations)
  {
    var evaluations := EvaluationOf(acc, op);
    if evaluations != [] {
      AdmitsCons(LuaBucket.StepWith, StoredOf(acc, cap), evaluations);
      assert evaluations[1..] == [];
    }
  }

  /** Between removals a client's operations run its bucket with the settings that they find. */
  lemma {:induction false} OperationsRunTheBucket(acc: Account, ops: seq<Op>, cap: int)
    requires Paired(acc) && NoRemoval(ops)
    ensures LetThrough(Answers(acc, ops)) == Admits(LuaBucket.StepWith, StoredOf(acc, cap), Evaluations(acc, ops))
    decreases |ops|
  {
    if ops != [] {
      var op, next, rest := ops[0], Serve(acc, ops[0]).0, ops[1..];
      var first, st := EvaluationOf(acc, ops[0]), StoredOf(acc, cap);
      var mid := Final(LuaBucket.StepWith, st, first);
      OperationIsEvaluation(acc, op, cap);
      assert mid == StoredOf(next, mid.cap);
      OperationsRunTheBucket(next, rest, mid.cap);
      RunSplit(LuaBucket.StepWith, st, first, Evaluations(next, rest));
      AdmissionsSplit(Verdicts(LuaBucket.StepWith, st, first),
                      Verdicts(LuaBucket.StepWith, mid, Evaluations(next, rest)));
      assert Answers(acc, ops)[1..] == Answers(next, rest);
    }
  }

  // ----- Windows with known settings -----

  /** The row is c, and from time s on no copy says otherwise. */
  predicate Agrees(acc: Account, c: Settings, s: int) {
    && acc.row == Some(c)
    && (acc.copy.Some? && acc.copy.value.Json? ==> acc.copy.value.settings == c || acc.copy.value.until <= s)
  }

  predicate OnlyRequests(ops: seq<Op>, s: int, t: int) {
    forall k :: 0 <= k < |ops| ==> ops[k].Allow? && s <= ops[k].now <= t
  }

  /** While the settings stay, every request in the window is decided by them. */
  lemma {:induction false} RequestsUseTheSettings(acc: Account, ops: seq<Op>, c: Settings, s: int, t: int)
    requires Agrees(acc, c, s) && OnlyRequests(ops, s, t)
    ensures var evaluations := Evaluations(acc, ops);
      LuaBucket.AllWith(evaluations, c) && LuaBucket.ReadingsWithin(LuaBucket.Events(evaluations), s, t)
    decreases |ops|
  {
    if ops != [] {
      var next := Serve(acc, ops[0]).0;
      RequestsUseTheSettings(next, ops[1..], c, s, t);
      assert EvaluationOf(acc, ops[0]) == [(c, LuaBucket.Request(ops[0].now))];
      assert Evaluations(acc, ops)[1..] == Evaluations(next, ops[1..]);
    }
  }

  /** End to end, from any store with a client's token keys in order: if its row is c and from s on no copy says
      otherwise, then in any continuation that only makes requests for it, with readings in [s, t] in any order,
      at most capacity + rate * (t - s) pass, whatever clients with other keys do in between. */
  lemma WindowFrom(store: Store, c: Settings, client: string, win: seq<Op>, s: int, t: int)
    requires LuaBucket.Accepted(c) && s <= t && Undisturbed(win, client)
    requires Paired(View(store, client)) && Agrees(View(store, client), c, s)
    requires OnlyRequests(Own(win, client), s, t)
    ensures LetThrough(Outcomes(store, win, client)) <= c.capacity + (t - s) * c.rate
  {
    var acc, own := View(store, client), Own(win, client);
    var evaluations := Evaluations(acc, own);
    ClientSeesItsAccount(store, win, client);
    OperationsRunTheBucket(acc, own, 0);
    RequestsUseTheSettings(acc, own, c, s, t);
    LuaBucket.ConstantSettings(StoredOf(acc, 0), evaluations, c);
    LuaBucket.BoundInWindow(c, KeysOf(acc), LuaBucket.Events(evaluations), s, t);
  }

  /** So after any run that ends with such a copy and row. */
  lemma HybridWindow(c: Settings, client: string, pre: seq<Op>, win: seq<Op>, s: int, t: int)
    requires LuaBucket.Accepted(c) && s <= t
    requires Undisturbed(pre, client) && Undisturbed(win, client)
    requires Agrees(View(Exec(EMPTY, pre), client), c, s) && OnlyRequests(Own(win, client), s, t)
    ensures LetThrough(Outcomes(Exec(EMPTY, pre), win, client)) <= c.capacity + (t - s) * c.rate
  {
    TokenKeysStayPaired(pre, client);
    WindowFrom(Exec(EMPTY, pre), c, client, win, s, t);
  }

  // ----- The hour after an update -----

  /** No copy of the account outlives `until`. */
  predicate CopyExpiresBy(acc: Account, until: int) {
    acc.copy.Some? && acc.copy.value.Json? ==> acc.copy.value.until <= until
  }

  /** Copies are stored at `time` or before. */
  predicate FillsUpTo(ops: seq<Op>, time: int) {
    forall k :: 0 <= k < |ops| ==> (ops[k].Allow? && ops[k].stored ==> ops[k].now <= time)
  }

  lemma {:induction false} CopiesExpire(acc: Account, ops: seq<Op>, time: int)
    requires CopyExpiresBy(acc, time + SettingsCache.HOUR) && FillsUpTo(ops, time)
    ensures CopyExpiresBy(ServeAll(acc, ops), time + SettingsCache.HOUR)
    decreases |ops|
  {
    if ops != [] {
      CopiesExpire(Serve(acc, ops[0]).0, ops[1..], time);
    }
  }

  lemma {:induction false} RequestsKeepAgreement(acc: Account, ops: seq<Op>, c: Settings, s: int)
    requires Agrees(acc, c, s) && forall k :: 0 <= k < |ops| ==> ops[k].Allow?
    ensures Agrees(ServeAll(acc, ops), c, s)
    decreases |ops|
  {
    if ops != [] {
      RequestsKeepAgreement(Serve(acc, ops[0]).0, ops[1..], c, s);
    }
  }

  /** An hour after the last settings change the new settings bound every window, although the delete of the old
      copy may be lost: c was saved when no copy had been stored after `time`, then requests were made. */
  lemma WindowAfterUpdate(
      c: Settings, client: string, pre: seq<Op>, dropped: bool, mid: seq<Op>, win: seq<Op>,
      time: int, s: int, t: int)
    requires LuaBucket.Accepted(c) && time + SettingsCache.HOUR <= s <= t
    requires Undisturbed(pre, client) && Undisturbed(mid, client) && Undisturbed(win, client)
    requires FillsUpTo(Own(pre, client), time)
    requires forall k :: 0 <= k < |Own(mid, client)| ==> Own(mid, client)[k].Allow?
    requires OnlyRequests(Own(win, client), s, t)
    ensures var saved := Do(Exec(EMPTY, pre), SetRateLimit(client, c, true, dropped)).0;
      LetThrough(Outcomes(Exec(saved, mid), win, client)) <= c.capacity + (t - s) * c.rate
  {
    var before, op := Exec(EMPTY, pre), SetRateLimit(client, c, true, dropped);
    var saved := Do(before, op).0;
    TokenKeysStayPaired(pre, client);
    ClientSeesItsAccount(EMPTY, pre, client);
    CopiesExpire(View(EMPTY, client), Own(pre, client), time);
    ViewOfUpdate(before, client, Serve(View(before, client), op).0);
    ClientSeesItsAccount(saved, mid, client);
    ServeAllKeepsPaired(View(saved, client), Own(mid, client));
    RequestsKeepAgreement(View(saved, client), Own(mid, client), c, s);
    WindowFrom(Exec(saved, mid), c, client, win, s, t);
  }

  // ----- Windows across changes -----

  /** Accepted settings of at most this capacity and rate. */
  predicate UpTo(c: Settings, capacity: int, rate: int) {
    LuaBucket.Accepted(c) && c.capacity <= capacity && c.rate <= rate
  }

  /** The account can only answer with such settings. */
  predicate AccountUpTo(acc: Account, capacity: int, rate: int) {
    && (acc.row.Some? ==> UpTo(acc.row.value, capacity, rate))
    && (acc.copy.Some? && acc.copy.value.Json? ==> UpTo(acc.copy.value.settings, capacity, rate))
  }

  predicate SettingsUpTo(ops: seq<Op>, capacity: int, rate: int) {
    forall k :: 0 <= k < |ops| ==> (ops[k].SetRateLimit? ==> UpTo(ops[k].settings, capacity, rate))
  }

  lemma OperationStaysUpTo(acc: Account, op: Op, capacity: int, rate: int)
    requires AccountUpTo(acc, capacity, rate) && (op.SetRateLimit? ==> UpTo(op.settings, capacity, rate))
    ensures AccountUpTo(Serve(acc, op).0, capacity, rate)
    ensures LuaBucket.AllUpTo(EvaluationOf(acc, op), capacity, rate)
  {
  }

  lemma {:induction false} AccountStaysUpTo(acc: Account, ops: seq<Op>, capacity: int, rate: int)
    requires AccountUpTo(acc, capacity, rate) && SettingsUpTo(ops, capacity, rate)
    ensures AccountUpTo(ServeAll(acc, ops), capacity, rate)
    decreases |ops|
  {
    if ops != [] {
      OperationStaysUpTo(acc, ops[0], capacity, rate);
      AccountStaysUpTo(Serve(acc, ops[0]).0, ops[1..], capacity, rate);
    }
  }

  /** Clock readings of the requests. */
  function Times(ops: seq<Op>): seq<int> {
    if ops == [] then [] else (if ops[0].Allow? then [ops[0].now] else []) + Times(ops[1..])
  }

  lemma {:induction false} EvaluationsUpTo(acc: Account, ops: seq<Op>, capacity: int, rate: int)
    requires AccountUpTo(acc, capacity, rate) && SettingsUpTo(ops, capacity, rate)
    ensures LuaBucket.AllUpTo(Evaluations(acc, ops), capacity, rate)
    decreases |ops|
  {
    if ops != [] {
      OperationStaysUpTo(acc, ops[0], capacity, rate);
      EvaluationsUpTo(Serve(acc, ops[0]).0, ops[1..], capacity, rate);
    }
  }

  lemma ReadingsAdd(
      first: seq<(Settings, LuaBucket.Event)>, others: seq<(Settings, LuaBucket.Event)>)
    requires |first| <= 1
    ensures LuaBucket.Readings(first + others) == LuaBucket.Readings(first) + LuaBucket.Readings(others)
  {
    if first == [] {
      assert first + others == others;
    } else {
      assert (first + others)[1..] == others && first[1..] == [];
    }
  }

  /** Requests that crash evaluate nothing, which only shortens the way of the clock. */
  lemma {:induction false} EvaluationsAreSooner(acc: Account, ops: seq<Op>, from: int)
    ensures Clock.Forward(from, LuaBucket.Readings(Evaluations(acc, ops))) <= Clock.Forward(from, Times(ops))
    decreases |ops|
  {
    if ops != [] {
      var op, next, rest := ops[0], Serve(acc, ops[0]).0, ops[1..];
      var first, others := EvaluationOf(acc, op), Evaluations(next, rest);
      EvaluationsAreSooner(next, rest, if op.Allow? then op.now else from);
      var later := LuaBucket.Readings(others);
      ReadingsAdd(first, others);
      assert Evaluations(acc, ops) == first + others;
      if op.Allow? {
        assert Times(ops) == [op.now] + Times(rest);
        Clock.ForwardCons(from, op.now, Times(rest));
        Clock.ForwardCons(from, op.now, later);
        Clock.ForwardSkips(from, op.now, later);
        assert first + others == others || LuaBucket.Readings(first) == [op.now];
      } else {
        assert first == [] && first + others == others;
        assert Times(ops) == [] + Times(rest) == Times(rest);
      }
    }
  }

  /** The bound for one account. */
  lemma AnswersAcrossUpdates(acc: Account, ops: seq<Op>, capacity: nat, rate: nat, s: int)
    requires Paired(acc) && NoRemoval(ops) && AccountUpTo(acc, capacity, rate) && SettingsUpTo(ops, capacity, rate)
    ensures LetThrough(Answers(acc, ops)) <= capacity + rate * Clock.Forward(s, Times(ops))
  {
    var evaluations := Evaluations(acc, ops);
    OperationsRunTheBucket(acc, ops, 0);
    EvaluationsUpTo(acc, ops, capacity, rate);
    EvaluationsAreSooner(acc, ops, s);
    LuaBucket.ChangesBound(StoredOf(acc, 0), evaluations, capacity, rate, s);
    MulMonotone(Clock.Forward(s, LuaBucket.Readings(evaluations)), Clock.Forward(s, Times(ops)), rate);
  }

  /** End to end across changes: as long as all settings saved for a client are accepted and of at most this capacity
      and rate, a window of requests and updates lets at most capacity + rate * (forward moves of the clock) through,
      whichever copies are out of date, and capacity + rate * (last - s) if the clock does not go back. */
  lemma WindowAcrossUpdates(client: string, pre: seq<Op>, win: seq<Op>, capacity: nat, rate: nat, s: int)
    requires Undisturbed(pre, client) && Undisturbed(win, client) && NoRemoval(Own(win, client))
    requires SettingsUpTo(Own(pre, client), capacity, rate) && SettingsUpTo(Own(win, client), capacity, rate)
    ensures var passed, times := LetThrough(Outcomes(Exec(EMPTY, pre), win, client)), Times(Own(win, client));
      && passed <= capacity + rate * Clock.Forward(s, times)
      && (times != [] && Clock.Monotone(times, s) ==> passed <= capacity + rate * (times[|times| - 1] - s))
  {
    TokenKeysStayPaired(pre, client);
    ClientSeesItsAccount(EMPTY, pre, client);
    AccountStaysUpTo(View(EMPTY, client), Own(pre, client), capacity, rate);
    ClientSeesItsAccount(Exec(EMPTY, pre), win, client);
    AnswersAcrossUpdates(View(Exec(EMPTY, pre), client), Own(win, client), capacity, rate, s);
    if Clock.Monotone(Times(Own(win, client)), s) {
      Clock.ForwardWhenMonotone(Times(Own(win, client)), s);
    }
  }

  // ----- Concurrent lookups -----

  /** The script is evaluated with what the lookups `calls` answered in state `s`. */
  predicate EvaluatedWith(evaluations: seq<(Settings, LuaBucket.Event)>, calls: seq<nat>, s: SettingsCache.State) {
    && |evaluations| == |calls|
    && forall i :: 0 <= i < |calls| ==> calls[i] in s.answers && s.answers[calls[i]] == Some(evaluations[i].0)
  }

  /** The staleness bound carried to the bucket, with lookups, fills, writes and deletes of one client interleaved:
      if the last write of the row, c, was at T, and every fill that read before it has reached Redis by T + d or
      never does, then requests whose lookups begin at T + d + 1h or later pass at most capacity + rate * (t - s)
      times in a window, in whatever order the script evaluates them. */
  lemma WindowOnceCurrent(
      now: int, row: Option<Settings>, pre: seq<SettingsCache.Step>, rest: seq<SettingsCache.Step>, d: nat,
      c: Settings, calls: seq<nat>, st: LuaBucket.Stored, win: seq<(Settings, LuaBucket.Event)>, s: int, t: int)
    requires LuaBucket.Accepted(c) && s <= t && (st.keys.tokens.Some? <==> st.keys.last.Some?)
    requires LuaBucket.ReadingsWithin(LuaBucket.Events(win), s, t)
    requires var start := SettingsCache.Start(now, row);
      var written := SettingsCache.Exec(start, pre);
      && SettingsCache.Quiet(rest) && written.row == Some(c)
      && SettingsCache.FilledBy(start, pre + rest, written.version, written.written + d)
      && written.now >= written.written + d + SettingsCache.HOUR
      && (forall i :: 0 <= i < |calls| ==> calls[i] !in written.readers && calls[i] !in written.answers)
      && EvaluatedWith(win, calls, SettingsCache.Exec(start, pre + rest))
    ensures Admits(LuaBucket.StepWith, st, win) <= c.capacity + (t - s) * c.rate
  {
    forall i | 0 <= i < |win| ensures win[i].0 == c {
      SettingsCache.BoundedStaleness(now, row, pre, rest, d, calls[i]);
    }
    LuaBucket.ConstantSettings(st, win, c);
    LuaBucket.BoundInWindow(c, st.keys, LuaBucket.Events(win), s, t);
  }
}
