/** The PostgreSQL bucket: a row refilled lazily, and written back only when a request is admitted. */
module PostgresBucket {
  import opened Machine
  import opened Trace
  import opened Arithmetic
  import opened Clock

  datatype Row = Row(capacity: int64, rate: int64, tokens: int64, last: int)

  predicate Accepted(row: Row) {
    0 < row.capacity && 0 < row.rate
  }

  function Fresh(capacity: int64, rate: int64, now: int): Row {
    Row(capacity, rate, capacity, now)
  }

  /** Tokens a request at `now` finds. */
  function Available(row: Row, now: int): int64 {
    Min(row.capacity, Add64(row.tokens, ToInt64(Credit(now - row.last, row.rate))))
  }

  /** One transaction of `Allow`; the event is the clock reading taken under the row lock. */
  function Step(row: Row, now: int): (Row, Verdict) {
    if Available(row, now) > 0
    then (row.(tokens := Available(row, now) - 1, last := now), Admitted)
    else (row, Denied)
  }

  // ----- Reachable rows -----

  predicate InRange(row: Row) {
    0 <= row.tokens <= row.capacity
  }

  /** Stored tokens stay in [0, capacity] over every run, for any clock and even on overflow. */
  lemma {:induction false} TokensStayInRange(row: Row, times: seq<int>)
    requires InRange(row)
    ensures var f := Final(Step, row, times);
      InRange(f) && f.capacity == row.capacity && f.rate == row.rate
    decreases |times|
  {
    if times != [] {
      TokensStayInRange(Step(row, times[0]).0, times[1..]);
    }
  }

  // ----- The ideal continuous bucket -----

  /** The ideal bucket measures its level in billionths of a token, so that integers hold it exactly. */
  datatype Ideal = Ideal(level: int, at: int)

  function LevelAt(ideal: Ideal, row: Row, now: int): int {
    Min(NANOS * row.capacity, ideal.level + row.rate * (now - ideal.at))
  }

  /** What the stored row is worth at `now`, before rounding to whole tokens; a reading before `last` adds nothing. */
  function Worth(row: Row, now: int): int {
    Min(NANOS * row.capacity, NANOS * row.tokens + row.rate * Max(now - row.last, 0))
  }

  lemma AvailableIsWorth(row: Row, now: int)
    requires Accepted(row) && InRange(row)
    ensures NANOS * Available(row, now) <= Worth(row, now)
  {
    if row.last <= now {
      MulNonNegative(now - row.last, row.rate);
    } else {
      MulNonNegative(row.last - now, row.rate);
      assert row.rate * 0 == 0;
    }
    CreditBounds(now - row.last, row.rate);
  }

  /** A request finds the whole tokens of the worth, rounded down, exactly while tokens + credit fits an int64. */
  lemma AvailableIsFloor(row: Row, now: int)
    requires Accepted(row) && InRange(row) && row.last <= now
    ensures NANOS * Available(row, now) <= Worth(row, now) < NANOS * (Available(row, now) + 1)
       <==> row.tokens + Credit(now - row.last, row.rate) <= INT64_MAX
  {
    MulNonNegative(now - row.last, row.rate);
    CreditBounds(now - row.last, row.rate);
  }

  /** A reading before `last` takes away the whole tokens of the time that the clock went back, and no fraction,
      exactly while that credit fits an int64. */
  lemma BackwardReadingTakes(row: Row, now: int)
    requires Accepted(row) && InRange(row) && now <= row.last
    ensures var gone := row.tokens - Available(row, now);
      NANOS * gone <= row.rate * (row.last - now) < NANOS * (gone + 1)
      <==> INT64_MIN <= Credit(now - row.last, row.rate)
  {
    var back := (row.last - now) * row.rate;
    MulNonNegative(row.last - now, row.rate);
    assert (now - row.last) * row.rate == -back;
    assert Credit(now - row.last, row.rate) == -(back / NANOS);
    DivMod(back, NANOS);
  }

  /** Between two readings the worth grows by at most what the clock earns going forward. */
  lemma WorthGrows(row: Row, from: int, now: int)
    requires 0 < row.rate
    ensures Worth(row, now) <= Worth(row, from) + row.rate * Max(now - from, 0)
  {
    var before, more := Max(from - row.last, 0), Max(now - from, 0);
    MulMonotone(Max(now - row.last, 0), before + more, row.rate);
    Distribute(row.rate, before, more);
    MulNonNegative(row.rate, more);
  }

  lemma WorthStaysBelowIdeal(row: Row, ideal: Ideal, debt: nat, now: int)
    requires 0 < row.rate && ideal.at <= now
    requires Worth(row, ideal.at) <= ideal.level + debt
    ensures Worth(row, now) <= LevelAt(ideal, row, now) + debt
  {
    WorthGrows(row, ideal.at, now);
  }

  /** Run the ideal bucket on the same requests, charging it one token for each admission of the code:
      the code never finds more than the ideal level, and never admits what the ideal could not pay. */
  ghost predicate Simulated(row: Row, ideal: Ideal, times: seq<int>)
    decreases |times|
  {
    times == [] ||
    (var now := times[0]; var (row', verdict) := Step(row, now);
     var level := LevelAt(ideal, row, now);
     && NANOS * Available(row, now) <= level
     && (verdict == Admitted ==> NANOS <= level)
     && Simulated(row', Ideal(if verdict == Admitted then level - NANOS else level, now), times[1..]))
  }

  lemma {:induction false} IdealSimulates(row: Row, ideal: Ideal, times: seq<int>)
    requires Accepted(row) && InRange(row) && row.last <= ideal.at
    requires Worth(row, ideal.at) <= ideal.level
    requires Monotone(times, ideal.at)
    ensures Simulated(row, ideal, times)
    decreases |times|
  {
    if times != [] {
      var now := times[0]; var (row', verdict) := Step(row, now);
      AvailableIsWorth(row, now);
      WorthStaysBelowIdeal(row, ideal, 0, now);
      var level := LevelAt(ideal, row, now);
      var ideal' := Ideal(if verdict == Admitted then level - NANOS else level, now);
      IdealSimulates(row', ideal', times[1..]);
    }
  }

  /** Every run since the settings were stored is simulated by the ideal bucket that starts full. */
  lemma {:induction false} PostgresIsSimulated(capacity: int64, rate: int64, t0: int, times: seq<int>)
    requires 0 < capacity && 0 < rate && Monotone(times, t0)
    ensures Simulated(Fresh(capacity, rate, t0), Ideal(NANOS * capacity, t0), times)
  {
    IdealSimulates(Fresh(capacity, rate, t0), Ideal(NANOS * capacity, t0), times);
  }

  /** The ideal bucket deciding for itself: it admits whenever a whole token is there. */
  function IdealStep(row: Row): (Ideal, int) -> (Ideal, Verdict) {
    (ideal: Ideal, now: int) =>
      var level := LevelAt(ideal, row, now);
      if level >= NANOS then (Ideal(level - NANOS, now), Admitted) else (Ideal(level, now), Denied)
  }

  lemma IdealStaysAheadStep(row: Row, ideal: Ideal, lead: nat, now: int)
    requires Accepted(row) && InRange(row) && row.last <= ideal.at <= now
    requires Worth(row, ideal.at) <= ideal.level + NANOS * lead
    ensures var mine, its := Step(row, now), IdealStep(row)(ideal, now);
      var lead' := lead + (if its.1 == Admitted then 1 else 0) - (if mine.1 == Admitted then 1 else 0);
      0 <= lead' && Worth(mine.0, now) <= its.0.level + NANOS * lead'
  {
    AvailableIsWorth(row, now);
    WorthStaysBelowIdeal(row, ideal, NANOS * lead, now);
    if Available(row, now) > 0 {
      WorthWhenWritten(row, now);
    }
  }

  lemma WorthWhenWritten(row: Row, now: int)
    requires Available(row, now) > 0
    ensures Worth(Step(row, now).0, now) <= NANOS * Available(row, now) - NANOS
  {
    assert row.rate * (now - now) == 0;
  }

  /** `lead` is how many admissions the ideal bucket is ahead; it can always pay for them. */
  lemma {:induction false} IdealStaysAhead(row0: Row, row: Row, ideal: Ideal, lead: nat, times: seq<int>)
    requires Accepted(row) && InRange(row) && row.last <= ideal.at
    requires row0.capacity == row.capacity && row0.rate == row.rate
    requires Worth(row, ideal.at) <= ideal.level + NANOS * lead
    requires Monotone(times, ideal.at)
    ensures Admits(Step, row, times) <= Admits(IdealStep(row0), ideal, times) + lead
    decreases |times|
  {
    if times != [] {
      var now := times[0];
      var mine, its := Step(row, now), IdealStep(row0)(ideal, now);
      assert its == IdealStep(row)(ideal, now);
      IdealStaysAheadStep(row, ideal, lead, now);
      AdmitsCons(Step, row, times);
      AdmitsCons(IdealStep(row0), ideal, times);
      var lead' := lead + (if its.1 == Admitted then 1 else 0) - (if mine.1 == Admitted then 1 else 0);
      IdealStaysAhead(row0, mine.0, its.0, lead', times[1..]);
    }
  }

  /** At every moment of every run the code has admitted at most as many requests as the ideal bucket
      of the same capacity and rate would have. */
  lemma PostgresNeverBeatsIdeal(capacity: int64, rate: int64, t0: int, times: seq<int>, k: nat)
    requires 0 < capacity && 0 < rate && Monotone(times, t0) && k <= |times|
    ensures var row := Fresh(capacity, rate, t0);
      Admits(Step, row, times[..k]) <= Admits(IdealStep(row), Ideal(NANOS * capacity, t0), times[..k])
  {
    var row := Fresh(capacity, rate, t0);
    MonotonePrefix(times, t0, k);
    IdealStaysAhead(row, row, Ideal(NANOS * capacity, t0), 0, times[..k]);
  }

  // ----- Nor does it fall far behind -----

  /** Nothing overflows up to time `until`. */
  predicate Roomy(row: Row, until: int) {
    NANOS * row.capacity + row.rate * (until - row.last) <= NANOS * INT64_MAX
  }

  lemma RoomyCredit(row: Row, now: int, until: int)
    requires Accepted(row) && row.last <= now <= until && Roomy(row, until)
    ensures Credit(now - row.last, row.rate) <= INT64_MAX - row.capacity
  {
    var earned := (now - row.last) * row.rate;
    MulMonotone(now - row.last, until - row.last, row.rate);
    MulNonNegative(now - row.last, row.rate);
    CreditBounds(now - row.last, row.rate);
    assert NANOS * Credit(now - row.last, row.rate) <= earned <= NANOS * (INT64_MAX - row.capacity);
  }

  lemma RoomyFloor(row: Row, now: int, until: int)
    requires Accepted(row) && InRange(row) && row.last <= now <= until && Roomy(row, until)
    ensures NANOS * Available(row, now) <= Worth(row, now) < NANOS * (Available(row, now) + 1)
  {
    RoomyCredit(row, now, until);
    AvailableIsFloor(row, now);
  }

  /** The worth grows as the ideal level does, so that the distance between them does not grow. */
  lemma IdealStaysNear(row: Row, ideal: Ideal, distance: nat, now: int)
    requires Accepted(row) && row.last <= ideal.at <= now && ideal.level <= Worth(row, ideal.at) + distance
    ensures LevelAt(ideal, row, now) <= Worth(row, now) + distance
  {
    SplitProduct(row.rate, row.last, ideal.at, now);
    MulNonNegative(row.rate, now - ideal.at);
  }

  /** The credit of the code is twice its admissions minus those of the ideal bucket. */
  function CreditAfter(credit: nat, mine: Verdict, its: Verdict): int {
    credit + (if mine == Admitted then 2 else 0) - (if its == Admitted then 1 else 0)
  }

  lemma CodeKeepsUpStep(row: Row, ideal: Ideal, credit: nat, now: int, until: int)
    requires Accepted(row) && InRange(row) && row.last <= ideal.at <= now <= until && Roomy(row, until)
    requires ideal.level <= Worth(row, ideal.at) + NANOS * credit
    ensures var mine, its := Step(row, now), IdealStep(row)(ideal, now);
      var credit' := CreditAfter(credit, mine.1, its.1);
      && 0 <= credit' && its.0.level <= Worth(mine.0, now) + NANOS * credit'
      && Accepted(mine.0) && InRange(mine.0) && mine.0.last <= now && Roomy(mine.0, until)
  {
    RoomyFloor(row, now, until);
    IdealStaysNear(row, ideal, NANOS * credit, now);
    if Available(row, now) > 0 {
      TakenToken(row, now, until);
    }
  }

  /** What one admission leaves: a whole token less of the rounded worth. */
  lemma TakenToken(row: Row, now: int, until: int)
    requires Accepted(row) && InRange(row) && row.last <= now <= until && Roomy(row, until) && Available(row, now) > 0
    ensures var row' := Step(row, now).0;
      && Worth(row', now) == NANOS * Available(row, now) - NANOS
      && Accepted(row') && InRange(row') && row'.last == now && Roomy(row', until)
  {
    assert row.rate * (now - now) == 0;
    MulMonotone(until - now, until - row.last, row.rate);
  }

  lemma {:induction false} CodeKeepsUp(row0: Row, row: Row, ideal: Ideal, credit: nat, times: seq<int>, until: int)
    requires Accepted(row) && InRange(row) && row.last <= ideal.at && Roomy(row, until)
    requires row0.capacity == row.capacity && row0.rate == row.rate
    requires ideal.level <= Worth(row, ideal.at) + NANOS * credit
    requires Monotone(times, ideal.at) && UpTo(times, until)
    ensures Admits(IdealStep(row0), ideal, times) <= 2 * Admits(Step, row, times) + credit
    decreases |times|
  {
    if times != [] {
      var now := times[0];
      var mine, its := Step(row, now), IdealStep(row0)(ideal, now);
      assert its == IdealStep(row)(ideal, now);
      CodeKeepsUpStep(row, ideal, credit, now, until);
      AdmitsCons(Step, row, times);
      AdmitsCons(IdealStep(row0), ideal, times);
      CodeKeepsUp(row0, mine.0, its.0, CreditAfter(credit, mine.1, its.1), times[1..], until);
    }
  }

  /** The other side: although every admission drops a fraction of a token, the code admits at least half as many
      requests as the ideal bucket, in every run that ends before the credit can overflow an int64. */
  lemma PostgresAdmitsHalf(capacity: int64, rate: int64, t0: int, times: seq<int>, d: nat)
    requires 0 < capacity && 0 < rate && Monotone(times, t0) && UpTo(times, t0 + d)
    requires NANOS * capacity + rate * d <= NANOS * INT64_MAX
    ensures var row := Fresh(capacity, rate, t0);
      Admits(IdealStep(row), Ideal(NANOS * capacity, t0), times) <= 2 * Admits(Step, row, times)
  {
    var row := Fresh(capacity, rate, t0);
    assert row.rate * (t0 - t0) == 0;
    CodeKeepsUp(row, row, Ideal(NANOS * capacity, t0), 0, times, t0 + d);
  }

  /** `n` requests at one reading. */
  function Burst(now: int, n: nat): (times: seq<int>)
    ensures |times| == n
  {
    seq(n, _ => now)
  }

  /** An admission takes one token of those that the request found. */
  lemma OneTokenLess(row: Row, now: int)
    requires InRange(row) && Available(row, now) > 0
    ensures var row' := Step(row, now).0; InRange(row') && Available(row', now) == Available(row, now) - 1
  {
    NothingEarned(now, row.rate);
  }

  lemma NothingEarned(now: int, rate: int)
    ensures Credit(now - now, rate) == 0
  {
    assert (now - now) * rate == 0;
  }

  /** They pass as long as there are whole tokens, and take one each. */
  lemma {:induction false} BurstTakesWhatIsThere(row: Row, now: int, n: nat)
    requires InRange(row)
    ensures var there := Max(Available(row, now), 0);
      && Admits(Step, row, Burst(now, n)) == Min(n, there)
      && Final(Step, row, Burst(now, n))
      == if n > 0 && there > 0 then row.(tokens := there - Min(n, there), last := now) else row
    decreases n
  {
    if n > 0 {
      var times, row' := Burst(now, n), Step(row, now).0;
      assert times[1..] == Burst(now, n - 1);
      AdmitsCons(Step, row, times);
      if Available(row, now) > 0 {
        OneTokenLess(row, now);
      }
      BurstTakesWhatIsThere(row', now, n - 1);
    }
  }

  /** Fresh settings pay for a burst of exactly the capacity. */
  lemma FreshTakesCapacity(capacity: int64, rate: int64, now: int, n: nat)
    requires 0 < capacity
    ensures Admits(Step, Fresh(capacity, rate, now), Burst(now, n)) == Min(n, capacity)
  {
    BurstTakesWhatIsThere(Fresh(capacity, rate, now), now, n);
    NothingEarned(now, rate);
  }

  // ----- Admission bound -----

  /** An admission costs a whole token of the worth, which grows only while the clock goes forward. */
  lemma WorthPays(row: Row, from: int, now: int)
    requires Accepted(row) && InRange(row)
    ensures var (row', verdict) := Step(row, now);
      Worth(row', now) + (if verdict == Admitted then NANOS else 0) <= Worth(row, from) + row.rate * Max(now - from, 0)
  {
    AvailableIsWorth(row, now);
    WorthGrows(row, from, now);
    if Available(row, now) > 0 {
      WorthWhenWritten(row, now);
    }
  }

  lemma WorthIsNonNegative(row: Row, now: int)
    requires Accepted(row) && InRange(row)
    ensures 0 <= Worth(row, now)
  {
    MulNonNegative(row.rate, Max(now - row.last, 0));
  }

  lemma {:induction false} AdmissionsArePaid(row: Row, times: seq<int>, from: int)
    requires Accepted(row) && InRange(row)
    ensures NANOS * Admits(Step, row, times) <= Worth(row, from) + row.rate * Forward(from, times)
    decreases |times|
  {
    if times == [] {
      WorthIsNonNegative(row, from);
      assert row.rate * 0 == 0;
    } else {
      var now := times[0];
      var row' := Step(row, now).0;
      AdmitsCons(Step, row, times);
      WorthPays(row, from, now);
      AdmissionsArePaid(row', times[1..], now);
      Distribute(row.rate, Max(now - from, 0), Forward(now, times[1..]));
    }
  }

  /** A window of a run since the settings were stored is a run from a row with these settings. */
  lemma WindowIsRun(capacity: int64, rate: int64, t0: int, pre: seq<int>, win: seq<int>)
    requires 0 < capacity
    ensures var row := Fresh(capacity, rate, t0);
      var mid := Final(Step, row, pre);
      && InRange(mid) && mid.capacity == capacity && mid.rate == rate
      && Admissions(Verdicts(Step, row, pre + win)[|pre|..]) == Admits(Step, mid, win)
  {
    var row := Fresh(capacity, rate, t0);
    RunSplit(Step, row, pre, win);
    TokensStayInRange(row, pre);
    assert Verdicts(Step, row, pre + win)[|pre|..] == Verdicts(Step, Final(Step, row, pre), win);
  }

  /** For every clock: any window of any run since the settings were stored admits at most capacity plus what
      the clock earns going forward inside the window. */
  lemma {:induction false} PostgresWindowAnyClock(
      capacity: int64, rate: int64, t0: int, pre: seq<int>, win: seq<int>)
    requires 0 < capacity && 0 < rate && win != []
    ensures NANOS * Admissions(Verdicts(Step, Fresh(capacity, rate, t0), pre + win)[|pre|..])
         <= NANOS * capacity + rate * Forward(win[0], win)
  {
    WindowIsRun(capacity, rate, t0, pre, win);
    AdmissionsArePaid(Final(Step, Fresh(capacity, rate, t0), pre), win, win[0]);
  }

  /** So with a clock that does not go back inside the window, at most capacity + rate * (t - s),
      where s and t are the first and last readings of the window. */
  lemma {:induction false} PostgresWindow(capacity: int64, rate: int64, t0: int, pre: seq<int>, win: seq<int>)
    requires 0 < capacity && 0 < rate && win != [] && Monotone(win, win[0])
    ensures NANOS * Admissions(Verdicts(Step, Fresh(capacity, rate, t0), pre + win)[|pre|..])
         <= NANOS * capacity + rate * (win[|win| - 1] - win[0])
  {
    PostgresWindowAnyClock(capacity, rate, t0, pre, win);
    ForwardWhenMonotone(win, win[0]);
  }

  /** A clock that goes back: these readings lie between 0 and 1 s and go forward by 3 s in all. */
  const BACKWARD_CLOCK: seq<int> :=
    [NANOS / 2, 0, NANOS, NANOS / 2, 0, NANOS, NANOS / 2, 0, NANOS]

  /** On it the bound for every clock is reached, 6 + 3 * 1 requests, and capacity + rate * (t - s) is exceeded
      for the least and greatest readings s and t: going back by half a token's time costs nothing, because the
      credit is truncated toward zero. */
  lemma BackwardClockBreaksWindow()
    ensures var row, times := Fresh(6, 1, NANOS), BACKWARD_CLOCK;
      && NANOS * Admits(Step, row, times) == NANOS * row.capacity + row.rate * Forward(times[0], times)
      && (forall i :: 0 <= i < |times| ==> 0 <= times[i] <= NANOS)
      && NANOS * Admits(Step, row, times) > NANOS * row.capacity + row.rate * (NANOS - 0)
  {
    var half := NANOS / 2;
    var third := [half, 0, NANOS];
    var second := [half, 0, NANOS, half, 0, NANOS];
    var times := BACKWARD_CLOCK;
    assert times[3..] == second && second[3..] == third && third[3..] == [];
    BackwardRound(2, third);
    BackwardRound(4, second);
    BackwardRound(6, times);
  }

  /** One round of that clock admits three requests for two tokens, while going forward by one second. */
  lemma BackwardRound(tokens: int64, times: seq<int>)
    requires 2 <= tokens <= 6
    requires |times| >= 3 && times[0] == NANOS / 2 && times[1] == 0 && times[2] == NANOS
    ensures Admits(Step, Row(6, 1, tokens, NANOS), times) == 3 + Admits(Step, Row(6, 1, tokens - 2, NANOS), times[3..])
    ensures forall from :: NANOS / 2 <= from <= NANOS ==> Forward(from, times) == NANOS + Forward(NANOS, times[3..])
  {
    var a, b, c := Row(6, 1, tokens, NANOS), Row(6, 1, tokens - 1, NANOS / 2), Row(6, 1, tokens - 2, 0);
    assert Step(a, NANOS / 2) == (b, Admitted);
    assert Step(b, 0) == (c, Admitted);
    assert Step(c, NANOS) == (Row(6, 1, tokens - 2, NANOS), Admitted);
    AdmitsCons(Step, a, times);
    AdmitsCons(Step, b, times[1..]);
    AdmitsCons(Step, c, times[2..]);
    assert times[1..][1..] == times[2..] && times[2..][1..] == times[3..];
    assert Forward(0, times[2..]) == NANOS + Forward(NANOS, times[3..]);
    assert Forward(NANOS / 2, times[1..]) == Forward(0, times[2..]);
  }

  // ----- Saturated client -----

  /** `n` requests, one every `d` nanoseconds, the first at `start`. */
  function Every(start: int, d: nat, n: nat): (times: seq<int>)
    ensures |times| == n
    ensures n > 0 ==> times[0] == start
    decreases n
  {
    if n == 0 then [] else [start] + Every(start + d, d, n - 1)
  }

  /** `k` periods of `gain` billionths are the least number that earns a whole token: ceil(10^9 / gain). */
  ghost predicate Periods(k: nat, gain: int) {
    0 < k && NANOS <= k * gain < NANOS + gain
  }

  /** What a request finds when it arrives in an empty bucket after j periods. */
  lemma EarnedAfter(elapsed: int, rate: int, k: nat, j: nat, gain: int)
    requires 0 < gain <= NANOS && Periods(k, gain) && j <= k
    requires elapsed * rate == j * gain
    ensures Credit(elapsed, rate) == if j == k then 1 else 0
  {
    MulNonNegative(j, gain);
    if j < k {
      MulMonotone(j, k - 1, gain);
      assert (k - 1) * gain == k * gain - gain;
    }
    CreditBounds(elapsed, rate);
  }

  /** The j-th request since the last admission is admitted exactly when it completes the k-th period. */
  lemma SaturatedStep(row: Row, now: int, k: nat, j: nat, gain: int)
    requires Accepted(row) && row.tokens == 0 && 0 < gain <= NANOS
    requires Periods(k, gain) && j <= k && (now - row.last) * row.rate == j * gain
    ensures Step(row, now) == if j == k then (row.(last := now), Admitted) else (row, Denied)
  {
    EarnedAfter(now - row.last, row.rate, k, j, gain);
  }

  /** Verdicts of a bucket that admits exactly each k-th request, j of the current round being over. */
  function EveryKth(k: nat, j: nat, n: nat): (vs: seq<Verdict>)
    requires j < k
    ensures |vs| == n
    decreases n
  {
    if n == 0 then []
    else if j + 1 == k then [Admitted] + EveryKth(k, 0, n - 1)
    else [Denied] + EveryKth(k, j + 1, n - 1)
  }

  /** What is earned one period later, without and with an admission in between. */
  lemma OnePeriodLater(start: int, last: int, d: nat, rate: int, j: nat, gain: int)
    requires gain == d * rate && (start - last) * rate == (j + 1) * gain
    ensures (start + d - last) * rate == (j + 2) * gain && (start + d - start) * rate == 1 * gain
  {
    assert (start + d - last) * rate == (start - last) * rate + d * rate;
    assert (j + 2) * gain == (j + 1) * gain + gain;
  }

  lemma {:induction false} SaturatedRun(row: Row, start: int, d: nat, k: nat, j: nat, gain: int, n: nat)
    requires Accepted(row) && row.tokens == 0 && 0 < gain <= NANOS && gain == d * row.rate
    requires Periods(k, gain) && j < k
    requires (start - row.last) * row.rate == (j + 1) * gain
    ensures Verdicts(Step, row, Every(start, d, n)) == EveryKth(k, j, n)
    decreases n
  {
    if n > 0 {
      var times := Every(start, d, n);
      assert times[1..] == Every(start + d, d, n - 1);
      SaturatedStep(row, start, k, j + 1, gain);
      OnePeriodLater(start, row.last, d, row.rate, j, gain);
      if j + 1 == k {
        SaturatedRun(row.(last := start), start + d, d, k, 0, gain, n - 1);
      } else {
        SaturatedRun(row, start + d, d, k, j + 1, gain, n - 1);
      }
    }
  }

  /** In that pattern request i (from 0) is admitted iff k divides j + i + 1. */
  lemma {:induction false} EveryKthAt(k: nat, j: nat, n: nat, i: nat)
    requires j < k && i < n
    ensures EveryKth(k, j, n)[i] == if (j + i + 1) % k == 0 then Admitted else Denied
    decreases n
  {
    if i == 0 {
      if j + 1 < k {
        ModSmall(j + 1, k);
      } else {
        DivModUnique(k, k, 1, 0);
      }
    } else {
      var j' := if j + 1 == k then 0 else j + 1;
      EveryKthAt(k, j', n - 1, i - 1);
      ModShift(j' + i, k);
    }
  }

  /** And (j + n) / k requests are. */
  lemma {:induction false} EveryKthCount(k: nat, j: nat, n: nat)
    requires j < k
    ensures Admissions(EveryKth(k, j, n)) == (j + n) / k
    decreases n
  {
    if n == 0 {
      ModSmall(j, k);
    } else {
      var j' := if j + 1 == k then 0 else j + 1;
      assert EveryKth(k, j, n)[1..] == EveryKth(k, j', n - 1);
      EveryKthCount(k, j', n - 1);
      ModShift(j' + n - 1, k);
    }
  }

  /** ceil(10^9 / gain) */
  function Rounds(gain: int): (k: nat)
    requires 0 < gain
    ensures 0 < k
  {
    (NANOS + gain - 1) / gain
  }

  lemma RoundsArePeriods(gain: int)
    requires 0 < gain
    ensures Periods(Rounds(gain), gain)
  {
    DivMod(NANOS + gain - 1, gain);
  }

  /** Saturated client: from an empty bucket, with requests every d nanoseconds and d * rate <= 10^9,
      exactly every k-th request is admitted, k = ceil(10^9 / (d * rate)). */
  lemma {:induction false} SaturatedVerdicts(row: Row, d: nat, n: nat)
    requires Accepted(row) && row.tokens == 0 && 0 < d * row.rate <= NANOS
    ensures var vs, k := Verdicts(Step, row, Every(row.last + d, d, n)), Rounds(d * row.rate);
      && (forall i :: 0 <= i < n ==> vs[i] == if (i + 1) % k == 0 then Admitted else Denied)
      && Admissions(vs) == n / k
  {
    var k := Rounds(d * row.rate);
    RoundsArePeriods(d * row.rate);
    assert (row.last + d - row.last) * row.rate == 1 * (d * row.rate);
    SaturatedRun(row, row.last + d, d, k, 0, d * row.rate, n);
    EveryKthCount(k, 0, n);
    var vs := Verdicts(Step, row, Every(row.last + d, d, n));
    forall i | 0 <= i < n ensures vs[i] == if (i + 1) % k == 0 then Admitted else Denied {
      EveryKthAt(k, 0, n, i);
    }
  }

  /** Long-run throughput of a saturated client lies between rate / 2 and rate: n requests take n * d
      nanoseconds, worth n * d * rate billionths of a token, and the admissions use between half and all of it,
      up to the round that is still open. */
  lemma SaturatedThroughput(row: Row, d: nat, n: nat)
    requires Accepted(row) && row.tokens == 0 && 0 < d * row.rate <= NANOS
    ensures var admitted := Admits(Step, row, Every(row.last + d, d, n));
      NANOS * admitted <= n * (d * row.rate) < 2 * NANOS * (admitted + 1)
  {
    SaturatedVerdicts(row, d, n);
    RoundsArePeriods(d * row.rate);
    RoundsBounds(n, Rounds(d * row.rate), d * row.rate);
  }

  lemma RoundsBounds(n: nat, k: nat, gain: int)
    requires 0 < gain <= NANOS && Periods(k, gain)
    ensures NANOS * (n / k) <= n * gain < 2 * NANOS * (n / k + 1)
  {
    var rounds := n / k;
    DivMod(n, k);
    MulMonotone(rounds * k, n, gain);
    assert (rounds * k) * gain == rounds * (k * gain);
    MulMonotone(NANOS, k * gain, rounds);
    MulMonotone(n + 1, (rounds + 1) * k, gain);
    assert ((rounds + 1) * k) * gain == (rounds + 1) * (k * gain);
    assert (n + 1) * gain == n * gain + gain;
    MulMonotone(k * gain, 2 * NANOS, rounds + 1);
  }

  /** Erasing every denied request changes no other verdict and not the stored row. */
  lemma {:induction false} DeniedAreInvisible(row: Row, times: seq<int>)
    ensures Final(Step, row, Kept(Step, row, times)) == Final(Step, row, times)
    ensures Verdicts(Step, row, Kept(Step, row, times)) == WithoutDenied(Verdicts(Step, row, times))
  {
    DeniedErased(Step, row, times);
  }
}
