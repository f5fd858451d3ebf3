/**
 The login limiter: a hard cap of five failures in fifteen minutes, and an
 exponential backoff since the last failure. The clock is read twice, once for
 the window and once for the backoff.
 */
module LoginLimiter {
  import opened Prelude
  import opened Windows
  import opened Tables

  datatype Attempt = Attempt(ip: string, success: bool)

  const RATE_LIMIT_WINDOW: nat := 900
  const RATE_LIMIT_MAX_ATTEMPTS: nat := 5
  const BACKOFF_CAP_SECONDS: nat := 60

  /** When an address failed to log in, in table order. */
  function Failures(rows: seq<Row<Attempt>>, ip: string): seq<Time> {
    if |rows| == 0 then []
    else
      var front, last := Failures(rows[..|rows| - 1], ip), rows[|rows| - 1];
      if last.body.ip == ip && !last.body.success then front + [last.createdAt] else front
  }

  /** The first of the stamps in descending order, if there is one. */
  function Latest(stamps: seq<Time>): Option<Time> {
    if |stamps| == 0 then None
    else
      var last := stamps[|stamps| - 1];
      match Latest(stamps[..|stamps| - 1])
      case None => Some(last)
      case Some(t) => Some(if t > last then t else last)
  }

  function RecentFailures(rows: seq<Row<Attempt>>, ip: string, now: Time): nat {
    CountAfter(Failures(rows, ip), now - RATE_LIMIT_WINDOW as Time, Closed)
  }

  function Pow2(n: nat): nat {
    if n == 0 then 1 else 2 * Pow2(n - 1)
  }

  function Backoff(failures: nat): nat {
    if Pow2(failures) < BACKOFF_CAP_SECONDS then Pow2(failures) else BACKOFF_CAP_SECONDS
  }

  /** Truncated, so a refusal may announce a wait of no seconds. */
  function BackoffVerdict(failures: nat, last: Option<Time>, now: Time): Option<nat> {
    match last
    case None => None
    case Some(t) =>
      var remaining := Backoff(failures) as Time - (now - t);
      if remaining > 0.0 then Some(remaining.Floor) else None
  }

  /** Seconds to wait, or None. `counted` and `measured` are the two clock readings. */
  function CheckRateLimit(rows: seq<Row<Attempt>>, ip: string, counted: Time, measured: Time): Option<nat> {
    var failures := RecentFailures(rows, ip, counted);
    if failures >= RATE_LIMIT_MAX_ATTEMPTS then Some(RATE_LIMIT_WINDOW)
    else if failures == 0 then None
    else BackoffVerdict(failures, Latest(Failures(rows, ip)), measured)
  }

  // ---- The decision in closed form -----------------------------------------

  lemma {:induction false} LatestIsMax(stamps: seq<Time>)
    ensures Latest(stamps).None? <==> stamps == []
    ensures Latest(stamps).Some? ==> Latest(stamps).value in stamps
    ensures Latest(stamps).Some? ==> forall i :: 0 <= i < |stamps| ==> stamps[i] <= Latest(stamps).value
  {
    if |stamps| > 0 {
      var front := stamps[..|stamps| - 1];
      LatestIsMax(front);
      assert stamps == front + [stamps[|stamps| - 1]];
    }
  }

  lemma CountedMeansSome(stamps: seq<Time>, cutoff: Time)
    requires CountAfter(stamps, cutoff, Closed) > 0
    ensures Latest(stamps).Some?
  {
    LatestIsMax(stamps);
  }

  lemma BackoffUncapped(failures: nat)
    requires failures < RATE_LIMIT_MAX_ATTEMPTS
    ensures Backoff(failures) == Pow2(failures)
  {
    assert Pow2(0) == 1;
    assert Pow2(1) == 2;
    assert Pow2(2) == 4;
    assert Pow2(3) == 8;
    assert Pow2(4) == 16;
  }

  lemma {:induction false} Pow2Monotone(m: nat, n: nat)
    requires m <= n
    ensures 1 <= Pow2(m) <= Pow2(n)
  {
    if n > 0 {
      if m < n {
        Pow2Monotone(m, n - 1);
      } else {
        Pow2Monotone(m - 1, n - 1);
      }
    }
  }

  /**
   An attempt is refused if and only if five failures are counted, or some are
   and less than two to the power of their number of seconds passed since the
   last one. Neither the missing last failure nor the cap of 60 is ever met.
   */
  lemma ClosedForm(rows: seq<Row<Attempt>>, ip: string, counted: Time, measured: Time)
    ensures var n, last := RecentFailures(rows, ip, counted), Latest(Failures(rows, ip));
            && (n > 0 ==> last.Some?)
            && (n < RATE_LIMIT_MAX_ATTEMPTS ==> Pow2(n) < BACKOFF_CAP_SECONDS)
            && (CheckRateLimit(rows, ip, counted, measured).Some? <==>
                n >= RATE_LIMIT_MAX_ATTEMPTS || (n > 0 && measured - last.value < Pow2(n) as Time))
  {
    var n := RecentFailures(rows, ip, counted);
    if n > 0 {
      CountedMeansSome(Failures(rows, ip), counted - RATE_LIMIT_WINDOW as Time);
    }
    if n < RATE_LIMIT_MAX_ATTEMPTS {
      BackoffUncapped(n);
      Pow2Monotone(n, 4);
      assert Pow2(4) == 16 by {
        BackoffUncapped(4);
        assert Pow2(2) == 4;
      }
    }
  }

  /** Once allowed, an attempt stays allowed as long as nothing fails. */
  lemma PermissionPersists(rows: seq<Row<Attempt>>, ip: string, counted: Time, measured: Time, counted': Time,
                           measured': Time)
    requires CheckRateLimit(rows, ip, counted, measured) == None
    requires counted <= counted' && measured <= measured'
    ensures CheckRateLimit(rows, ip, counted', measured') == None
  {
    var n, n' := RecentFailures(rows, ip, counted), RecentFailures(rows, ip, counted');
    ClosedForm(rows, ip, counted, measured);
    ClosedForm(rows, ip, counted', measured');
    CountAfterMonotone(Failures(rows, ip), counted - RATE_LIMIT_WINDOW as Time, counted' - RATE_LIMIT_WINDOW as Time,
        Closed);
    Pow2Monotone(n', n);
  }

  /** One second more than the announced wait is enough, whichever rule refused. */
  lemma WaitSuffices(rows: seq<Row<Attempt>>, ip: string, counted: Time, measured: Time, counted': Time,
                     measured': Time)
    requires counted <= measured && counted' <= measured'
    requires forall i :: 0 <= i < |Failures(rows, ip)| ==> Failures(rows, ip)[i] <= measured
    requires CheckRateLimit(rows, ip, counted, measured).Some?
    requires counted' >= measured + CheckRateLimit(rows, ip, counted, measured).value as Time + 1.0
    ensures CheckRateLimit(rows, ip, counted', measured') == None
  {
    var n, n' := RecentFailures(rows, ip, counted), RecentFailures(rows, ip, counted');
    if n >= RATE_LIMIT_MAX_ATTEMPTS {
      CountAfterNone(Failures(rows, ip), counted' - RATE_LIMIT_WINDOW as Time, Closed);
    } else {
      BackoffUncapped(n);
      ClosedForm(rows, ip, counted, measured);
      ClosedForm(rows, ip, counted', measured');
      CountAfterMonotone(Failures(rows, ip), counted - RATE_LIMIT_WINDOW as Time,
          counted' - RATE_LIMIT_WINDOW as Time, Closed);
      Pow2Monotone(n', n);
    }
  }

  /** A refusal announces a wait of 0 seconds exactly in the last second of a backoff. */
  lemma ZeroWait(rows: seq<Row<Attempt>>, ip: string, counted: Time, measured: Time)
    ensures CheckRateLimit(rows, ip, counted, measured) == Some(0)
       <==> var n, last := RecentFailures(rows, ip, counted), Latest(Failures(rows, ip));
            && 0 < n < RATE_LIMIT_MAX_ATTEMPTS && last.Some?
            && Pow2(n) as Time - 1.0 < measured - last.value < Pow2(n) as Time
  {
    var n := RecentFailures(rows, ip, counted);
    ClosedForm(rows, ip, counted, measured);
    if n < RATE_LIMIT_MAX_ATTEMPTS {
      BackoffUncapped(n);
    }
  }

  lemma OneFailure(t: Time, ip: string, cutoff: Time)
    requires t >= cutoff
    ensures Failures([Row(t, Attempt(ip, false))], ip) == [t]
    ensures Latest([t]) == Some(t) && CountAfter([t], cutoff, Closed) == 1
  {
    assert [Row(t, Attempt(ip, false))][..0] == [];
    assert [t][..0] == [];
  }

  /** For one: in the second second after a first failure. */
  lemma RefusedWithNoWait(ip: string, t: Time, now: Time)
    requires t + 1.0 < now < t + 2.0
    ensures CheckRateLimit([Row(t, Attempt(ip, false))], ip, now, now) == Some(0)
  {
    hide CheckRateLimit, Failures, Latest, CountAfter;
    OneFailure(t, ip, now - RATE_LIMIT_WINDOW as Time);
    assert Pow2(1) == 2;
    ZeroWait([Row(t, Attempt(ip, false))], ip, now, now);
  }

  // ---- The decision, row by row --------------------------------------------

  predicate Failed(row: Row<Attempt>, ip: string) {
    row.body.ip == ip && !row.body.success
  }

  /** The positions of the failures of an address from a moment on. */
  function FailedSince(rows: seq<Row<Attempt>>, ip: string, cutoff: Time): set<int> {
    set i | 0 <= i < |rows| && Failed(rows[i], ip) && rows[i].createdAt >= cutoff
  }

  /** The time of the newest failure of an address. */
  ghost predicate IsNewestFailure(rows: seq<Row<Attempt>>, ip: string, t: Time) {
    && (exists i :: 0 <= i < |rows| && Failed(rows[i], ip) && rows[i].createdAt == t)
    && (forall i :: 0 <= i < |rows| && Failed(rows[i], ip) ==> rows[i].createdAt <= t)
  }

  /**
   Five failures in fifteen minutes refuse for fifteen minutes; n of them, fewer,
   for 2, 4, 8 or 16 seconds since the newest, announced without the fraction.
   */
  ghost predicate IsDecision(rows: seq<Row<Attempt>>, ip: string, counted: Time, measured: Time, answer: Option<nat>) {
    var n := |FailedSince(rows, ip, counted - 900.0)|;
    if n >= 5 then answer == Some(900)
    else if n == 0 then answer == None
    else exists t :: IsNewestFailure(rows, ip, t) && IsRemaining([2.0, 4.0, 8.0, 16.0][n - 1] - (measured - t), answer)
  }

  /** What is left of a wait, in whole seconds, if anything is. */
  predicate IsRemaining(left: Time, answer: Option<nat>) {
    if left > 0.0 then answer.Some? && answer.value as Time <= left < answer.value as Time + 1.0 else answer.None?
  }

  lemma FailedSinceSnoc(rows: seq<Row<Attempt>>, row: Row<Attempt>, ip: string, cutoff: Time)
    ensures |FailedSince(rows + [row], ip, cutoff)|
         == |FailedSince(rows, ip, cutoff)| + if Failed(row, ip) && row.createdAt >= cutoff then 1 else 0
  {
    var n, before := |rows|, FailedSince(rows, ip, cutoff);
    assert FailedSince(rows + [row], ip, cutoff) == if n in FailedSince(rows + [row], ip, cutoff) then before + {n}
        else before;
  }

  lemma {:induction false} FailuresCount(rows: seq<Row<Attempt>>, ip: string, cutoff: Time)
    ensures CountAfter(Failures(rows, ip), cutoff, Closed) == |FailedSince(rows, ip, cutoff)|
  {
    if |rows| > 0 {
      var front, last := rows[..|rows| - 1], rows[|rows| - 1];
      FailuresCount(front, ip, cutoff);
      FailedSinceSnoc(front, last, ip, cutoff);
      CountAfterSnoc(Failures(front, ip), last.createdAt, cutoff, Closed);
      assert rows == front + [last];
    }
  }

  lemma {:induction false} FailuresAre(rows: seq<Row<Attempt>>, ip: string, t: Time)
    ensures t in Failures(rows, ip) <==> exists i :: 0 <= i < |rows| && Failed(rows[i], ip) && rows[i].createdAt == t
  {
    if |rows| > 0 {
      var front, last := rows[..|rows| - 1], rows[|rows| - 1];
      FailuresAre(front, ip, t);
      if i :| 0 <= i < |front| && Failed(front[i], ip) && front[i].createdAt == t {
        assert rows[i] == front[i];
      }
      if Failed(last, ip) && last.createdAt == t {
        assert rows[|rows| - 1] == last;
      }
      assert forall i :: 0 <= i < |rows| - 1 ==> rows[i] == front[i];
    }
  }

  lemma LatestIsNewest(rows: seq<Row<Attempt>>, ip: string)
    requires Latest(Failures(rows, ip)).Some?
    ensures IsNewestFailure(rows, ip, Latest(Failures(rows, ip)).value)
  {
    LatestIsMax(Failures(rows, ip));
    FailuresAre(rows, ip, Latest(Failures(rows, ip)).value);
    forall i | 0 <= i < |rows| && Failed(rows[i], ip)
      ensures rows[i].createdAt <= Latest(Failures(rows, ip)).value
    {
      FailuresAre(rows, ip, rows[i].createdAt);
    }
  }

  lemma BackoffSeconds(n: nat)
    requires 0 < n < 5
    ensures Backoff(n) as Time == [2.0, 4.0, 8.0, 16.0][n - 1]
  {
    BackoffUncapped(n);
    assert Pow2(1) == 2;
    assert Pow2(2) == 4;
    assert Pow2(3) == 8;
    assert Pow2(4) == 2 * Pow2(3);
  }

  /** The limiter decides so. */
  lemma DecisionIsExact(rows: seq<Row<Attempt>>, ip: string, counted: Time, measured: Time)
    ensures IsDecision(rows, ip, counted, measured, CheckRateLimit(rows, ip, counted, measured))
  {
    FailuresCount(rows, ip, counted - 900.0);
    var n, last := RecentFailures(rows, ip, counted), Latest(Failures(rows, ip));
    assert n == |FailedSince(rows, ip, counted - 900.0)|;
    if 0 < n < 5 {
      CountedMeansSome(Failures(rows, ip), counted - 900.0);
      LatestIsNewest(rows, ip);
      BackoffSeconds(n);
      assert IsRemaining([2.0, 4.0, 8.0, 16.0][n - 1] - (measured - last.value),
          CheckRateLimit(rows, ip, counted, measured));
    }
  }

  lemma DecisionIsOne(rows: seq<Row<Attempt>>, ip: string, counted: Time, measured: Time, a: Option<nat>,
                      b: Option<nat>)
    requires IsDecision(rows, ip, counted, measured, a) && IsDecision(rows, ip, counted, measured, b)
    ensures a == b
  {
    var n := |FailedSince(rows, ip, counted - 900.0)|;
    if 0 < n < 5 {
      var t :| IsNewestFailure(rows, ip, t) && IsRemaining([2.0, 4.0, 8.0, 16.0][n - 1] - (measured - t), a);
      var u :| IsNewestFailure(rows, ip, u) && IsRemaining([2.0, 4.0, 8.0, 16.0][n - 1] - (measured - u), b);
      assert t == u;
    }
  }

  /** Below the hard cap the announced wait is what is left of the backoff, less a fraction of a second. */
  lemma WaitIsExact(rows: seq<Row<Attempt>>, ip: string, counted: Time, measured: Time, r: nat)
    requires CheckRateLimit(rows, ip, counted, measured) == Some(r)
    ensures var n, last := RecentFailures(rows, ip, counted), Latest(Failures(rows, ip));
            if n >= 5 then r == 900
            else 0 < n && last.Some? && r as Time <= Pow2(n) as Time - (measured - last.value) < r as Time + 1.0
  {
    var n := RecentFailures(rows, ip, counted);
    ClosedForm(rows, ip, counted, measured);
    if n < 5 {
      BackoffUncapped(n);
    }
  }
}
