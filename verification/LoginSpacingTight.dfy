/**
 The spacing of failed logins is exact: what the lag between a stamp and its
 backoff reading may take from the thirty seconds, some run does take.
 */
module LoginSpacingTight {
  import opened Prelude
  import opened Windows
  import opened Tables
  import opened LoginLimiter
  import opened LoginRuns
  import opened LoginBounds
  import opened LoginSpacing
  import LoginTight

  /** A run of single requests with the given failures and none in between. */
  ghost predicate Sound(steps: Trace<Step>, ip: string, lag: Time) {
    Legal(steps) && SweepFree(steps) && OverlapAtMost(steps, ip, 1) && LagAtMost(steps, lag)
  }

  ghost predicate Quiet(steps: Trace<Step>, ip: string, lag: Time, f: seq<Time>, clock: Time) {
    && Sound(steps, ip, lag)
    && Failures(Run(steps).attempts, ip) == f && Run(steps).waiting == map[] && Run(steps).clock == clock
  }

  // ---- One request ---------------------------------------------------------

  lemma Extend(steps: Trace<Step>, s: Step, ip: string, lag: Time, p: Phase)
    requires Sound(steps, ip, lag) && Timely(Run(steps), s) && (s.Count? || s.LookUpLast?)
    requires Apply(Run(steps), s).waiting == map[0 := p]
    ensures Sound(Then(steps, s), ip, lag) && Run(Then(steps, s)) == Apply(Run(steps), s)
  {
    assert PendingOf(Apply(Run(steps), s), ip) == if p.ip == ip then map[0 := p.countedAt] else map[];
  }

  /** The failure, stamped with the count and written at the backoff reading. */
  lemma Fails(steps: Trace<Step>, ip: string, lag: Time, f: seq<Time>, at: Time, measured: Time)
    requires Sound(steps, ip, lag) && Failures(Run(steps).attempts, ip) == f && Run(steps).clock <= measured
    requires Run(steps).waiting == map[0 := Authenticating(ip, at, measured)] && at <= measured <= at + lag
    ensures Quiet(Then(steps, Fail(0, at, measured)), ip, lag, f + [at], measured)
  {
    var after := Apply(Run(steps), Fail(0, at, measured));
    FailuresSnoc(Run(steps).attempts, Row(at, Attempt(ip, false)), ip);
    assert after.waiting == map[] && PendingOf(after, ip) == map[];
  }

  /** A first failure meets no backoff. */
  lemma FailsFirst(steps: Trace<Step>, ip: string, lag: Time, clock: Time, at: Time) returns (longer: Trace<Step>)
    requires Quiet(steps, ip, lag, [], clock) && clock <= at && lag >= 0.0
    ensures Quiet(longer, ip, lag, [at], at)
  {
    assert RecentFailures(Run(steps).attempts, ip, at) == 0;
    Extend(steps, Count(0, ip, at), ip, lag, Authenticating(ip, at, at));
    var counted := Then(steps, Count(0, ip, at));
    Fails(counted, ip, lag, [], at, at);
    assert [] + [at] == [at];
    longer := Then(counted, Fail(0, at, at));
  }

  ghost predicate Ascending(f: seq<Time>) {
    forall i, j :: 0 <= i <= j < |f| ==> f[i] <= f[j]
  }

  lemma LatestIsLast(f: seq<Time>)
    requires |f| > 0 && Ascending(f)
    ensures Latest(f) == Some(f[|f| - 1])
  {
    LatestIsMax(f);
  }

  /** The backoff is over for a request counted at `at` and measured later. */
  lemma BackoffOver(f: seq<Time>, at: Time, measured: Time)
    requires 0 < |f| < 5 && Ascending(f) && f[0] >= at - RATE_LIMIT_WINDOW as Time
    requires measured - f[|f| - 1] >= Pow2(|f|) as Time
    ensures CountAfter(f, at - RATE_LIMIT_WINDOW as Time, Closed) == |f|
    ensures BackoffVerdict(|f|, Latest(f), measured) == None
  {
    CountAfterAll(f, at - RATE_LIMIT_WINDOW as Time, Closed);
    LatestIsLast(f);
    BackoffUncapped(|f|);
  }

  lemma CountsAndClears(l: Logins, ip: string, f: seq<Time>, at: Time, measured: Time)
    requires Failures(l.attempts, ip) == f && l.waiting == map[] && l.clock <= at <= measured && 0 < |f| < 5
    requires CountAfter(f, at - RATE_LIMIT_WINDOW as Time, Closed) == |f|
              && BackoffVerdict(|f|, Latest(f), measured) == None
    ensures var l1 := Apply(l, Count(0, ip, at));
            var l2 := Apply(l1, LookUpLast(0, measured));
            && Timely(l, Count(0, ip, at)) && Timely(l1, LookUpLast(0, measured))
            && l1 == l.(waiting := map[0 := BackingOff(ip, at, |f|)], clock := at)
            && l2 == l.(waiting := map[0 := Authenticating(ip, at, measured)], clock := measured)
  {
  }

  lemma FailsNext(steps: Trace<Step>, ip: string, lag: Time, f: seq<Time>, clock: Time, at: Time, measured: Time)
    returns (longer: Trace<Step>)
    requires Quiet(steps, ip, lag, f, clock) && clock <= at <= measured <= at + lag
    requires 0 < |f| < 5 && Ascending(f) && f[0] >= at - RATE_LIMIT_WINDOW as Time
    requires measured - f[|f| - 1] >= Pow2(|f|) as Time
    ensures Quiet(longer, ip, lag, f + [at], measured)
  {
    hide Sound, Apply, Timely;
    BackoffOver(f, at, measured);
    CountsAndClears(Run(steps), ip, f, at, measured);
    Extend(steps, Count(0, ip, at), ip, lag, BackingOff(ip, at, |f|));
    var counted := Then(steps, Count(0, ip, at));
    Extend(counted, LookUpLast(0, measured), ip, lag, Authenticating(ip, at, measured));
    var cleared := Then(counted, LookUpLast(0, measured));
    Fails(cleared, ip, lag, f, at, measured);
    longer := Then(cleared, Fail(0, at, measured));
  }

  // ---- As fast as it goes --------------------------------------------------

  /** The earliest moment of failure n. */
  function Fastest(n: nat, lag: Time): Time {
    if n == 0 then 0.0 else Fastest(n - 1, lag) + Pow2(n) as Time - lag
  }

  function FastLog(n: nat, lag: Time): seq<Time> {
    if n == 0 then [0.0] else FastLog(n - 1, lag) + [Fastest(n, lag)]
  }

  lemma {:induction false} FastLogAscends(n: nat, lag: Time)
    requires 0.0 <= lag <= 2.0
    ensures |FastLog(n, lag)| == n + 1 && FastLog(n, lag)[0] == 0.0 && FastLog(n, lag)[n] == Fastest(n, lag)
    ensures Ascending(FastLog(n, lag)) && Fastest(n, lag) >= 0.0
  {
    if n > 0 {
      FastLogAscends(n - 1, lag);
      Pow2Monotone(1, n);
      assert Pow2(1) == 2;
    }
  }

  lemma FastestValues(lag: Time)
    ensures Fastest(1, lag) == 2.0 - lag && Fastest(2, lag) == 6.0 - 2.0 * lag && Fastest(3, lag) == 14.0 - 3.0 * lag
  {
    assert Pow2(1) == 2;
    assert Pow2(2) == 4;
    assert Pow2(3) == 8;
  }

  lemma {:induction false} FastRun(ip: string, lag: Time, n: nat) returns (steps: Trace<Step>)
    requires 0.0 <= lag <= 2.0 && n < 4
    ensures Quiet(steps, ip, lag, FastLog(n, lag), Fastest(n, lag) + if n == 0 then 0.0 else lag)
  {
    hide Quiet;
    if n == 0 {
      StartIsQuiet(ip, lag);
      steps := FailsFirst(Start, ip, lag, 0.0, 0.0);
    } else {
      var before := FastRun(ip, lag, n - 1);
      FastLogAscends(n - 1, lag);
      FastestValues(lag);
      Pow2Values();
      var at := Fastest(n, lag);
      var clock := Fastest(n - 1, lag) + if n == 1 then 0.0 else lag;
      steps := FailsNext(before, ip, lag, FastLog(n - 1, lag), clock, at, at + lag);
    }
  }

  lemma StartIsQuiet(ip: string, lag: Time)
    ensures Quiet(Start, ip, lag, [], 0.0)
  {
    assert PendingOf(NO_LOGINS, ip) == map[];
  }

  lemma Pow2Values()
    ensures Pow2(1) == 2 && Pow2(2) == 4 && Pow2(3) == 8 && Pow2(4) == 16
  {
    assert Pow2(2) == 2 * Pow2(1);
    assert Pow2(3) == 2 * Pow2(2);
  }

  // ---- Exactly which spans occur -------------------------------------------

  /** One request of the address at a time, and five of its failures that span so much. */
  ghost predicate Spans(steps: Trace<Step>, ip: string, lag: Time, at: seq<nat>, span: Time) {
    && Legal(steps) && OverlapAtMost(steps, ip, 1) && LagAtMost(steps, lag)
    && Positions(AllFailures(steps, ip), at) && |at| == 5
    && AllFailures(steps, ip)[at[4]] - AllFailures(steps, ip)[at[0]] == span
  }

  lemma SpansAll(steps: Trace<Step>, ip: string, lag: Time, f: seq<Time>, clock: Time)
    requires Quiet(steps, ip, lag, f, clock) && |f| == 5
    ensures Spans(steps, ip, lag, [0, 1, 2, 3, 4], f[4] - f[0])
  {
    LoginTight.NothingToErase(steps);
    assert AllFailures(steps, ip) == f;
    FirstFive(f);
    hide Run, Erase, Failures, Legal, OverlapAtMost, LagAtMost;
  }

  lemma FirstFive(f: seq<Time>)
    requires |f| == 5
    ensures Positions(f, [0, 1, 2, 3, 4])
  {
  }

  lemma SpanIsReached(ip: string, lag: Time, span: Time)
    requires 0.0 <= lag <= 2.0 && 30.0 - 4.0 * lag <= span <= RATE_LIMIT_WINDOW as Time
    ensures exists steps, at :: Spans(steps, ip, lag, at, span)
  {
    hide Quiet, Spans;
    var four := FastRun(ip, lag, 3);
    FastLogAscends(3, lag);
    FastestValues(lag);
    Pow2Values();
    var steps := FailsNext(four, ip, lag, FastLog(3, lag), Fastest(3, lag) + lag, span, span + lag);
    SpansAll(steps, ip, lag, FastLog(3, lag) + [span], span + lag);
  }

  /**
   With one request of the address at a time and stamps at most `lag` before
   their backoff reading, five failures within fifteen minutes can span exactly
   what `FiveFailuresTakeTime` leaves: thirty seconds less four lags, or more.
   */
  lemma SpansExactly(ip: string, lag: Time, span: Time)
    requires 0.0 <= lag <= 2.0 && span <= RATE_LIMIT_WINDOW as Time
    ensures (exists steps, at :: Spans(steps, ip, lag, at, span)) <==> span >= 30.0 - 4.0 * lag
  {
    if span >= 30.0 - 4.0 * lag {
      SpanIsReached(ip, lag, span);
    }
    forall steps, at | Spans(steps, ip, lag, at, span)
      ensures span >= 30.0 - 4.0 * lag
    {
      FiveFailuresTakeTime(steps, ip, lag, at);
    }
  }

  lemma {:induction false} LagGrows(steps: Trace<Step>, lag: Time, more: Time)
    requires LagAtMost(steps, lag) && lag <= more
    ensures LagAtMost(steps, more)
  {
    if steps.Then? {
      LagGrows(steps.before, lag, more);
    }
  }

  lemma SpansWithMoreLag(steps: Trace<Step>, ip: string, lag: Time, at: seq<nat>, span: Time, more: Time)
    requires Spans(steps, ip, lag, at, span) && lag <= more
    ensures Spans(steps, ip, more, at, span)
  {
    LagGrows(steps, lag, more);
  }

  lemma SpanWithoutLag(steps: Trace<Step>, ip: string, at: seq<nat>, span: Time)
    requires Spans(steps, ip, 0.0, at, span) && span <= RATE_LIMIT_WINDOW as Time
    ensures span >= 30.0
  {
    FiveFailuresTakeTime(steps, ip, 0.0, at);
  }

  /** Five failures within fifteen minutes take thirty seconds. */
  ghost predicate ThirtySeconds(ip: string, lag: Time) {
    forall steps, at, span :: Spans(steps, ip, lag, at, span) && span <= RATE_LIMIT_WINDOW as Time ==> span >= 30.0
  }

  /** That holds of the stored stamps of every such run exactly when none precedes its backoff reading. */
  lemma ThirtySecondsNeedNoLag(ip: string, lag: Time)
    ensures ThirtySeconds(ip, lag) <==> lag <= 0.0
  {
    hide Spans;
    if lag > 0.0 {
      var less := if lag <= 2.0 then lag else 2.0;
      SpanIsReached(ip, less, 30.0 - 4.0 * less);
      var steps, at :| Spans(steps, ip, less, at, 30.0 - 4.0 * less);
      SpansWithMoreLag(steps, ip, less, at, 30.0 - 4.0 * less, lag);
    } else {
      forall steps, at, span | Spans(steps, ip, lag, at, span) && span <= RATE_LIMIT_WINDOW as Time
        ensures span >= 30.0
      {
        SpansWithMoreLag(steps, ip, lag, at, span, 0.0);
        SpanWithoutLag(steps, ip, at, span);
      }
    }
  }
}
