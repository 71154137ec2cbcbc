/** The in-memory bucket: requests take tokens, a ticker pays in the tokens earned since the last refill. */
module TickerBucket {
  import opened Machine
  import opened Trace
  import opened Arithmetic

  datatype Bucket = Bucket(tokens: int64, capacity: int64, rate: int64, last: int)

  /** A request, or a tick of the refill loop; both carry the clock reading (a request does not look at it). */
  datatype Event = Request(at: int) | Tick(at: int)

  /** Settings that the rate-limit service lets through. */
  predicate Accepted(b: Bucket) {
    0 < b.capacity && 0 < b.rate
  }

  function Fresh(capacity: int64, rate: int64, now: int): Bucket {
    Bucket(capacity, capacity, rate, now)
  }

  /** Whole tokens a tick finds to pay in, as the code computes them. */
  function Due(b: Bucket, now: int): int64 {
    ToInt64(Credit(now - b.last, b.rate))
  }

  function Take(b: Bucket): (Bucket, Verdict) {
    if b.tokens > 0 then (b.(tokens := b.tokens - 1), Admitted) else (b, Denied)
  }

  function Refill(b: Bucket, now: int): Bucket {
    if Due(b, now) > 0
    then b.(tokens := Min(b.capacity, Add64(b.tokens, Due(b, now))), last := now)
    else b
  }

  function Step(b: Bucket, e: Event): (Bucket, Verdict) {
    match e
    case Request(_) => Take(b)
    case Tick(now) => (Refill(b, now), Silent)
  }

  predicate Within(events: seq<Event>, s: int, t: int) {
    forall i :: 0 <= i < |events| ==> s <= events[i].at <= t
  }

  // ----- Reachable states -----

  /** What every run keeps, for any clock readings: the settings, and never more tokens than the capacity. */
  lemma {:induction false} RunKeepsSettings(b: Bucket, events: seq<Event>)
    requires b.tokens <= b.capacity
    ensures var f := Final(Step, b, events);
      f.tokens <= f.capacity && f.capacity == b.capacity && f.rate == b.rate
    decreases |events|
  {
    if events != [] {
      RunKeepsSettings(Step(b, events[0]).0, events[1..]);
    }
  }

  // ----- Admission bounds -----

  /** One refill never pays in more than was earned between its old and new `last`, wrap-around included. */
  lemma RefillEarned(b: Bucket, now: int)
    requires Accepted(b)
    ensures var b' := Refill(b, now);
      && b.last <= b'.last
      && NANOS * (Max(b'.tokens, 0) - Max(b.tokens, 0)) <= b.rate * (b'.last - b.last)
  {
    if Due(b, now) > 0 {
      var due := Credit(now - b.last, b.rate);
      PositiveCredit(now - b.last, b.rate);
      MulNonNegative(now - b.last, b.rate);
      CreditBounds(now - b.last, b.rate);
      assert NANOS * due <= b.rate * (now - b.last);
      assert Max(Refill(b, now).tokens, 0) - Max(b.tokens, 0) <= due;
    } else {
      assert b.rate * (b.last - b.last) == 0;
    }
  }

  /** Admissions are paid by the tokens at the start and by the time `last` has moved over. */
  lemma {:induction false} AdmissionsArePaid(b: Bucket, events: seq<Event>)
    requires Accepted(b)
    ensures var f := Final(Step, b, events);
      && b.last <= f.last
      && NANOS * Admits(Step, b, events) <= NANOS * Max(b.tokens, 0) + b.rate * (f.last - b.last)
    decreases |events|
  {
    if events != [] {
      var e, b' := events[0], Step(b, events[0]).0;
      AdmitsCons(Step, b, events);
      AdmissionsArePaid(b', events[1..]);
      if e.Tick? {
        RefillEarned(b, e.at);
      }
      var f := Final(Step, b, events);
      SplitProduct(b.rate, b.last, b'.last, f.last);
    }
  }

  lemma {:induction false} LastNeverPasses(b: Bucket, events: seq<Event>, t: int)
    requires b.last <= t
    requires forall i :: 0 <= i < |events| ==> events[i].at <= t
    ensures Final(Step, b, events).last <= t
    decreases |events|
  {
    if events != [] {
      LastNeverPasses(Step(b, events[0]).0, events[1..], t);
    }
  }

  /** Bound by the age of the last refill: at most capacity + rate * (t - last). */
  lemma {:induction false} BoundSinceRefill(b: Bucket, events: seq<Event>, t: int)
    requires Accepted(b) && b.tokens <= b.capacity && b.last <= t
    requires forall i :: 0 <= i < |events| ==> events[i].at <= t
    ensures NANOS * Admits(Step, b, events) <= NANOS * b.capacity + b.rate * (t - b.last)
  {
    AdmissionsArePaid(b, events);
    LastNeverPasses(b, events, t);
    var f := Final(Step, b, events);
    MulNonNegative(b.rate, t - f.last);
    SplitProduct(b.rate, b.last, f.last, t);
  }

  /** Bound by the length of the window: until the first effective tick only stored tokens are spent,
      and from then on the bucket counts as refilled inside the window. */
  lemma {:induction false} BoundInWindow(b: Bucket, events: seq<Event>, s: int, t: int)
    requires Accepted(b) && b.tokens <= b.capacity && s <= t
    requires Within(events, s, t)
    ensures NANOS * Admits(Step, b, events) <= NANOS * Max(b.tokens, 0) + NANOS * b.capacity + b.rate * (t - s)
    decreases |events|
  {
    MulNonNegative(b.rate, t - s);
    if events != [] {
      var e, b' := events[0], Step(b, events[0]).0;
      AdmitsCons(Step, b, events);
      if e.Tick? && b' != b {
        BoundSinceRefill(b', events[1..], t);
        MulNonNegative(b.rate, e.at - s);
        SplitProduct(b.rate, s, e.at, t);
      } else {
        BoundInWindow(b', events[1..], s, t);
      }
    }
  }

  lemma {:induction false} WindowFrom(b: Bucket, win: seq<Event>, s: int, t: int)
    requires Accepted(b) && b.tokens <= b.capacity && s <= t
    requires Within(win, s, t)
    ensures NANOS * Admits(Step, b, win) <= 2 * NANOS * b.capacity + b.rate * (t - s)
    ensures b.last <= t ==> NANOS * Admits(Step, b, win) <= NANOS * b.capacity + b.rate * (t - b.last)
  {
    BoundInWindow(b, win, s, t);
    if b.last <= t {
      BoundSinceRefill(b, win, t);
    }
  }

  /** A window of a run since the settings were stored is a run from a bucket with these settings. */
  lemma WindowIsRun(capacity: int64, rate: int64, t0: int, pre: seq<Event>, win: seq<Event>)
    ensures var b := Fresh(capacity, rate, t0);
      var mid := Final(Step, b, pre);
      && mid.tokens <= mid.capacity == capacity && mid.rate == rate
      && Admissions(Verdicts(Step, b, pre + win)[|pre|..]) == Admits(Step, mid, win)
  {
    var b := Fresh(capacity, rate, t0);
    RunSplit(Step, b, pre, win);
    RunKeepsSettings(b, pre);
    assert Verdicts(Step, b, pre + win)[|pre|..] == Verdicts(Step, Final(Step, b, pre), win);
  }

  /** Any window [s, t] of any run since the settings were stored admits at most 2 * capacity + rate * (t - s). */
  lemma {:induction false} TickerWindow(
      capacity: int64, rate: int64, t0: int, pre: seq<Event>, win: seq<Event>, s: int, t: int)
    requires 0 < capacity && 0 < rate && s <= t
    requires Within(win, s, t)
    ensures NANOS * Admissions(Verdicts(Step, Fresh(capacity, rate, t0), pre + win)[|pre|..])
         <= 2 * NANOS * capacity + rate * (t - s)
  {
    WindowIsRun(capacity, rate, t0, pre, win);
    WindowFrom(Final(Step, Fresh(capacity, rate, t0), pre), win, s, t);
  }

  /** And at most capacity + rate * (t - last), with `last` the refill time at the start of the window. */
  lemma {:induction false} TickerWindowSinceRefill(
      capacity: int64, rate: int64, t0: int, pre: seq<Event>, win: seq<Event>, s: int, t: int)
    requires 0 < capacity && 0 < rate && s <= t
    requires Within(win, s, t) && Final(Step, Fresh(capacity, rate, t0), pre).last <= t
    ensures NANOS * Admissions(Verdicts(Step, Fresh(capacity, rate, t0), pre + win)[|pre|..])
         <= NANOS * capacity + rate * (t - Final(Step, Fresh(capacity, rate, t0), pre).last)
  {
    WindowIsRun(capacity, rate, t0, pre, win);
    WindowFrom(Final(Step, Fresh(capacity, rate, t0), pre), win, s, t);
  }

  function Requests(n: nat, at: int): (es: seq<Event>)
    ensures |es| == n
  {
    seq(n, _ => Request(at))
  }

  /** `n` requests with no refill in between admit exactly min(n, tokens), and take as many. */
  lemma {:induction false} BurstTakesWhatIsThere(b: Bucket, n: nat, at: int)
    ensures Admits(Step, b, Requests(n, at)) == Min(n, Max(b.tokens, 0))
    ensures Final(Step, b, Requests(n, at)) == b.(tokens := b.tokens - Min(n, Max(b.tokens, 0)))
    decreases n
  {
    if n > 0 {
      var es := Requests(n, at);
      assert es[1..] == Requests(n - 1, at);
      AdmitsCons(Step, b, es);
      BurstTakesWhatIsThere(Take(b).0, n - 1, at);
    }
  }

  /** Nanoseconds after which an empty bucket has earned its capacity: ceil(10^9 * capacity / rate). */
  function FillTime(capacity: int64, rate: int64): int
    requires 0 < capacity && 0 < rate
  {
    (NANOS * capacity + rate - 1) / rate
  }

  lemma FillTimeFills(capacity: int64, rate: int64)
    requires 0 < capacity && 0 < rate
    ensures capacity <= Credit(FillTime(capacity, rate), rate) <= capacity + rate / NANOS
  {
    var e := FillTime(capacity, rate);
    DivMod(NANOS * capacity + rate - 1, rate);
    assert NANOS * capacity <= e * rate < NANOS * capacity + rate;
    CreditBounds(e, rate);
  }

  /** The window bound is reached: for every capacity and rate, as long as the credit fits an int64, a tick
      schedule exists in which 2 * capacity requests pass at one instant. */
  lemma TickerWindowIsTight(capacity: int64, rate: int64, t0: int)
    requires 0 < capacity && 0 < rate && capacity + rate / NANOS <= INT64_MAX
    ensures var now := t0 + FillTime(capacity, rate);
      var events := Requests(capacity, now) + ([Tick(now)] + Requests(capacity, now));
      && Within(events, now, now)
      && Admits(Step, Fresh(capacity, rate, t0), events) == 2 * capacity
  {
    var now := t0 + FillTime(capacity, rate);
    var b, burst := Fresh(capacity, rate, t0), Requests(capacity, now);
    var second := [Tick(now)] + burst;
    var events := burst + second;
    forall i | 0 <= i < |events| ensures events[i].at == now {
      if i < capacity {
        assert events[i] == burst[i];
      } else if i > capacity {
        assert events[i] == burst[i - capacity - 1];
      }
    }
    var drained := b.(tokens := 0);
    BurstTakesWhatIsThere(b, capacity, now);
    FillTimeFills(capacity, rate);
    assert Refill(drained, now) == Fresh(capacity, rate, now);
    BurstTakesWhatIsThere(Fresh(capacity, rate, now), capacity, now);
    assert second[1..] == burst;
    AdmitsCons(Step, drained, second);
    RunSplit(Step, b, burst, second);
    AdmissionsSplit(Verdicts(Step, b, burst), Verdicts(Step, drained, second));
  }

  // ----- Accuracy of the ticker -----

  /** Whole tokens earned by an event, before the capacity cuts them. */
  function Earned(b: Bucket, e: Event): nat {
    if e.Tick? then Max(Due(b, e.at), 0) else 0
  }

  function TotalEarned(b: Bucket, events: seq<Event>): nat
    decreases |events|
  {
    if events == [] then 0 else Earned(b, events[0]) + TotalEarned(Step(b, events[0]).0, events[1..])
  }

  /** Number of ticks that moved `last`. */
  function Refills(b: Bucket, events: seq<Event>): nat
    decreases |events|
  {
    if events == [] then 0
    else (if Earned(b, events[0]) > 0 then 1 else 0) + Refills(Step(b, events[0]).0, events[1..])
  }

  /** One effective refill earns at most the time it takes over, and misses less than one token of it. */
  lemma RefillStep(b: Bucket, now: int)
    requires Accepted(b)
    ensures var gain := Earned(b, Tick(now));
      var span := b.rate * (Refill(b, now).last - b.last);
      && NANOS * gain <= span
      && (gain > 0 ==> span < NANOS * (gain + 1))
      && (gain == 0 ==> span == 0)
  {
    if Due(b, now) > 0 {
      CreditBounds(now - b.last, b.rate);
      PositiveCredit(now - b.last, b.rate);
      MulNonNegative(now - b.last, b.rate);
    }
  }

  lemma {:induction false} RefillsAddUp(b: Bucket, events: seq<Event>)
    requires Accepted(b)
    ensures var k, credit := Refills(b, events), TotalEarned(b, events);
      var span := b.rate * (Final(Step, b, events).last - b.last);
      && k <= credit && NANOS * credit <= span
      && (if k > 0 then span < NANOS * (credit + k) else span == 0)
    decreases |events|
  {
    if events != [] {
      var e, b' := events[0], Step(b, events[0]).0;
      RefillsAddUp(b', events[1..]);
      var f := Final(Step, b, events);
      SplitProduct(b.rate, b.last, b'.last, f.last);
      if e.Tick? {
        RefillStep(b, e.at);
      }
    }
  }

  /** Over k >= 1 effective refills spanning T of `last`, the credit is at most rate * T, more than rate * T - k
      and more than half of rate * T, whatever the tick schedule. */
  lemma {:induction false} RefillAccuracy(b: Bucket, events: seq<Event>)
    requires Accepted(b) && Refills(b, events) > 0
    ensures var k, credit := Refills(b, events), TotalEarned(b, events);
      var span := b.rate * (Final(Step, b, events).last - b.last);
      NANOS * credit <= span < NANOS * (credit + k) && span < 2 * NANOS * credit
  {
    RefillsAddUp(b, events);
  }

  /** After a tick at `now` the time not yet paid is worth less than one token,
      exactly unless the credit does not fit an int64. */
  lemma TickLeavesLessThanOneToken(b: Bucket, now: int)
    requires Accepted(b) && b.last <= now
    ensures b.rate * (now - Refill(b, now).last) < NANOS <==> Credit(now - b.last, b.rate) <= INT64_MAX
  {
    MulNonNegative(now - b.last, b.rate);
    CreditBounds(now - b.last, b.rate);
  }

  // ----- Overflow -----

  /** The tick whose sum leaves int64 although the credit itself fits. */
  predicate Overflows(b: Bucket, e: Event) {
    e.Tick? && Due(b, e.at) > 0 && b.tokens + Due(b, e.at) > INT64_MAX
  }

  predicate Clean(b: Bucket, events: seq<Event>)
    decreases |events|
  {
    events == [] || (!Overflows(b, events[0]) && Clean(Step(b, events[0]).0, events[1..]))
  }

  predicate NeverNegative(b: Bucket, events: seq<Event>)
    decreases |events|
  {
    0 <= b.tokens && (events == [] || NeverNegative(Step(b, events[0]).0, events[1..]))
  }

  /** Stored tokens stay in [0, capacity] through a run exactly when no tick of it overflows, for any clock. */
  lemma {:induction false} TokensStayInRange(b: Bucket, events: seq<Event>)
    requires 0 <= b.tokens <= b.capacity
    ensures NeverNegative(b, events) <==> Clean(b, events)
    decreases |events|
  {
    if events != [] {
      var b' := Step(b, events[0]).0;
      if 0 <= b'.tokens {
        TokensStayInRange(b', events[1..]);
      }
    }
  }

  predicate ReadingsUpTo(events: seq<Event>, until: int) {
    forall i :: 0 <= i < |events| ==> events[i].at <= until
  }

  lemma {:induction false} NothingOverflows(b: Bucket, events: seq<Event>, t0: int, d: nat)
    requires Accepted(b) && 0 <= b.tokens <= b.capacity && t0 <= b.last && ReadingsUpTo(events, t0 + d)
    requires NANOS * b.capacity + b.rate * d <= NANOS * INT64_MAX
    ensures Clean(b, events)
    decreases |events|
  {
    if events != [] {
      var e, b' := events[0], Step(b, events[0]).0;
      var credit := Credit(e.at - b.last, b.rate);
      if e.Tick? && credit > 0 {
        PositiveCredit(e.at - b.last, b.rate);
        CreditBounds(e.at - b.last, b.rate);
        MulNonNegative(e.at - b.last, b.rate);
        MulMonotone(e.at - b.last, d, b.rate);
        assert credit + b.capacity <= INT64_MAX;
      }
      NothingOverflows(b', events[1..], t0, d);
    }
  }

  /** A guard on the settings alone: if the capacity and what the rate earns in d nanoseconds fit an int64 together,
      then no tick overflows within d of the time the settings were stored, so that tokens stay in range. */
  lemma SmallSettingsNeverOverflow(capacity: int64, rate: int64, t0: int, d: nat, events: seq<Event>)
    requires 0 < capacity && 0 < rate && NANOS * capacity + rate * d <= NANOS * INT64_MAX
    requires ReadingsUpTo(events, t0 + d)
    ensures Clean(Fresh(capacity, rate, t0), events) && NeverNegative(Fresh(capacity, rate, t0), events)
  {
    NothingOverflows(Fresh(capacity, rate, t0), events, t0, d);
    TokensStayInRange(Fresh(capacity, rate, t0), events);
  }

  /** The same refill over unbounded integers. */
  function UnboundedTokens(b: Bucket, now: int): int {
    var credit := Credit(now - b.last, b.rate);
    if credit > 0 then Min(b.capacity, b.tokens + credit) else b.tokens
  }

  function UnboundedLast(b: Bucket, now: int): int {
    if Credit(now - b.last, b.rate) > 0 then now else b.last
  }

  /** int64 arithmetic refills like unbounded arithmetic exactly while tokens + credit stays below 2^63. */
  lemma MachineRefillIsExact(b: Bucket, now: int)
    requires Accepted(b) && 0 <= b.tokens <= b.capacity
    ensures Refill(b, now).tokens == UnboundedTokens(b, now) && Refill(b, now).last == UnboundedLast(b, now)
       <==> b.tokens + Credit(now - b.last, b.rate) <= INT64_MAX
  {
    if Credit(now - b.last, b.rate) > 0 {
      PositiveCredit(now - b.last, b.rate);
    }
  }

  /** Tokens actually paid in, after the capacity cut. */
  function Paid(b: Bucket, events: seq<Event>): int
    decreases |events|
  {
    if events == [] then 0
    else Min(Earned(b, events[0]), b.capacity - b.tokens) + Paid(Step(b, events[0]).0, events[1..])
  }

  /** Conservation: without overflow, tokens left + admissions = tokens at the start + capped credits. */
  lemma {:induction false} TokensAreConserved(b: Bucket, events: seq<Event>)
    requires b.tokens <= b.capacity && Clean(b, events)
    ensures Final(Step, b, events).tokens + Admits(Step, b, events) == b.tokens + Paid(b, events)
    decreases |events|
  {
    if events != [] {
      AdmitsCons(Step, b, events);
      TokensAreConserved(Step(b, events[0]).0, events[1..]);
    }
  }

  /** Accepted settings can overflow: one second at the largest rate turns a full bucket into a closed one. */
  lemma OverflowShutsAFullBucket()
    ensures var b := Fresh(INT64_MAX, INT64_MAX, 0);
      Accepted(b) && Take(b).1 == Admitted && Take(Refill(b, NANOS)).1 == Denied
  {
    assert Credit(NANOS, INT64_MAX) == INT64_MAX;
  }

  // ----- Denied requests -----

  /** Erasing every denied request changes no other verdict and not the final bucket. */
  lemma DeniedAreInvisible(b: Bucket, events: seq<Event>)
    ensures Final(Step, b, Kept(Step, b, events)) == Final(Step, b, events)
    ensures Verdicts(Step, b, Kept(Step, b, events)) == WithoutDenied(Verdicts(Step, b, events))
  {
    DeniedErased(Step, b, events);
  }
}
