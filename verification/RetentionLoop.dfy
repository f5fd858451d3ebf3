/**
 The retention loop over one table: a sweep at startup and one every interval,
 each of which may fail, with rows inserted and removed at any time in between.
 A session counts as stamped with its expiry.
 */
module RetentionLoop {
  import opened Prelude
  import opened Tables
  import Events
  import LoginRuns
  import Sessions

  const PURGE_INTERVAL: Time := 24.0 * HOUR

  /** The table, the time of the next sweep, the last sweep that succeeded, and the failed ones since. */
  datatype Loop<T> = Loop(rows: seq<Row<T>>, clock: Time, due: Time, lastSwept: Option<Time>, failures: nat)

  datatype Step<T> = Insert(row: Row<T>, now: Time) | Remove(i: nat, now: Time) | Tick(succeeds: bool)

  /** At startup the table may hold rows of any age. */
  function AtStartup<T>(rows: seq<Row<T>>, start: Time): Loop<T> {
    Loop(rows, start, start, None, 0)
  }

  function Apply<T>(l: Loop<T>, s: Step<T>, keep: Time, interval: Time): Loop<T> {
    match s
    case Insert(row, now) => l.(rows := l.rows + [row], clock := now)
    case Remove(i, now) => l.(rows := if i < |l.rows| then l.rows[..i] + l.rows[i + 1..] else l.rows, clock := now)
    case Tick(succeeds) =>
      if succeeds then Loop(Since(l.rows, l.due - keep), l.due, l.due + interval, Some(l.due), 0)
      else l.(clock := l.due, due := l.due + interval, failures := l.failures + 1)
  }

  /** Sweeps happen when they are due, and no row is past its retention when it is inserted. */
  predicate Timely<T>(l: Loop<T>, s: Step<T>, keep: Time) {
    match s
    case Insert(row, now) => l.clock <= now <= l.due && now - keep <= row.createdAt
    case Remove(_, now) => l.clock <= now <= l.due
    case Tick(_) => true
  }

  /**
   A sweep that succeeds leaves exactly the rows within their retention, each as
   often as before; a failed one all.
   */
  lemma TickIsExact<T>(l: Loop<T>, succeeds: bool, keep: Time, interval: Time, r: Row<T>)
    ensures multiset(Apply(l, Tick(succeeds), keep, interval).rows)[r]
         == if succeeds && r.createdAt < l.due - keep then 0 else multiset(l.rows)[r]
  {
    SinceIsExact(l.rows, l.due - keep, r);
  }

  lemma InsertIsExact<T>(l: Loop<T>, row: Row<T>, now: Time, keep: Time, interval: Time)
    ensures multiset(Apply(l, Insert(row, now), keep, interval).rows) == multiset(l.rows) + multiset{row}
  {
  }

  lemma RemoveIsExact<T>(l: Loop<T>, i: nat, now: Time, keep: Time, interval: Time)
    requires i < |l.rows|
    ensures multiset(Apply(l, Remove(i, now), keep, interval).rows) + multiset{l.rows[i]} == multiset(l.rows)
  {
    hide Since;
    assert l.rows == l.rows[..i] + [l.rows[i]] + l.rows[i + 1..];
  }

  function Run<T>(base: Loop<T>, steps: Trace<Step<T>>, keep: Time, interval: Time): Loop<T> {
    match steps
    case Start => base
    case Then(before, last) => Apply(Run(base, before, keep, interval), last, keep, interval)
  }

  ghost predicate Legal<T>(base: Loop<T>, steps: Trace<Step<T>>, keep: Time, interval: Time) {
    match steps
    case Start => true
    case Then(before, last) =>
      Legal(base, before, keep, interval) && Timely(Run(base, before, keep, interval), last, keep)
  }

  /** The length of n intervals. */
  function Periods(n: nat, interval: Time): Time {
    if n == 0 then 0.0 else Periods(n - 1, interval) + interval
  }

  ghost predicate Retained<T>(l: Loop<T>, keep: Time, interval: Time) {
    && l.clock <= l.due
    && (l.lastSwept.Some? ==>
          && l.lastSwept.value <= l.clock
          && l.due == l.lastSwept.value + Periods(l.failures + 1, interval)
          && forall i :: 0 <= i < |l.rows| ==> l.rows[i].createdAt >= l.lastSwept.value - keep)
  }

  lemma StepRetained<T>(l: Loop<T>, s: Step<T>, keep: Time, interval: Time)
    requires Retained(l, keep, interval) && Timely(l, s, keep) && interval >= 0.0
    ensures Retained(Apply(l, s, keep, interval), keep, interval)
  {
    match s {
      case Insert(row, now) =>
      case Remove(i, now) =>
      case Tick(succeeds) =>
        if succeeds {
          var kept := Since(l.rows, l.due - keep);
          forall i | 0 <= i < |kept|
            ensures kept[i].createdAt >= l.due - keep
          {
            SinceAtLeast(l.rows, l.due - keep, i);
          }
          assert Periods(1, interval) == Periods(0, interval) + interval;
        }
    }
  }

  lemma {:induction false} RunRetained<T>(rows: seq<Row<T>>, start: Time, steps: Trace<Step<T>>, keep: Time,
                                          interval: Time)
    requires Legal(AtStartup(rows, start), steps, keep, interval) && interval >= 0.0
    ensures Retained(Run(AtStartup(rows, start), steps, keep, interval), keep, interval)
  {
    if steps.Then? {
      RunRetained(rows, start, steps.before, keep, interval);
      StepRetained(Run(AtStartup(rows, start), steps.before, keep, interval), steps.last, keep, interval);
    }
  }

  lemma RowAge<T>(l: Loop<T>, keep: Time, interval: Time, t: Time, r: Row<T>)
    requires Retained(l, keep, interval) && l.lastSwept.Some? && t <= l.due && r in l.rows
    ensures t - r.createdAt <= keep + Periods(l.failures + 1, interval)
  {
  }

  /**
   At every moment up to the next sweep, no row is older than the retention and
   one interval for the last successful sweep and each failed one since.
   */
  lemma NoRowOutlivesRetention<T>(rows: seq<Row<T>>, start: Time, steps: Trace<Step<T>>, keep: Time, interval: Time,
                                  t: Time, r: Row<T>)
    requires Legal(AtStartup(rows, start), steps, keep, interval) && interval >= 0.0
    requires var l := Run(AtStartup(rows, start), steps, keep, interval);
             l.lastSwept.Some? && t <= l.due && r in l.rows
    ensures t - r.createdAt <= keep + Periods(Run(AtStartup(rows, start), steps, keep, interval).failures + 1, interval)
  {
    RunRetained(rows, start, steps, keep, interval);
    RowAge(Run(AtStartup(rows, start), steps, keep, interval), keep, interval, t, r);
  }

  /** A row stored right after a sweep with a stamp at the edge of its retention, then n sweeps that fail. */
  function ReachingRun<T>(row: Row<T>, start: Time, n: nat): Trace<Step<T>> {
    if n == 0 then Then(Then(Start, Tick(true)), Insert(row, start))
    else Then(ReachingRun(row, start, n - 1), Tick(false))
  }

  /** No smaller bound holds, for any number of failed sweeps. */
  lemma {:induction false} BoundIsReached<T>(row: Row<T>, start: Time, keep: Time, interval: Time, n: nat)
    requires interval >= 0.0 && row.createdAt == start - keep
    ensures var steps := ReachingRun(row, start, n);
            var l := Run(AtStartup([], start), steps, keep, interval);
            && Legal(AtStartup([], start), steps, keep, interval)
            && l.lastSwept.Some? && l.failures == n && row in l.rows
            && l.due - row.createdAt == keep + Periods(n + 1, interval)
  {
    var base := AtStartup<T>([], start);
    if n == 0 {
      var ticked := Then(Start, Tick(true));
      assert Run(base, ticked, keep, interval) == Loop([], start, start + interval, Some(start), 0);
      assert Legal(base, ticked, keep, interval);
      assert Periods(1, interval) == Periods(0, interval) + interval;
    } else {
      BoundIsReached(row, start, keep, interval, n - 1);
    }
  }

  ghost predicate AllSucceed<T>(steps: Trace<Step<T>>) {
    steps.Then? ==> (steps.last.Tick? ==> steps.last.succeeds) && AllSucceed(steps.before)
  }

  ghost predicate Ticked<T>(steps: Trace<Step<T>>) {
    steps.Then? && (steps.last.Tick? || Ticked(steps.before))
  }

  lemma {:induction false} SucceedingRun<T>(base: Loop<T>, steps: Trace<Step<T>>, keep: Time, interval: Time)
    requires AllSucceed(steps) && base.failures == 0 && base.lastSwept.None?
    ensures Run(base, steps, keep, interval).failures == 0
    ensures Ticked(steps) ==> Run(base, steps, keep, interval).lastSwept.Some?
  {
    if steps.Then? {
      SucceedingRun(base, steps.before, keep, interval);
    }
  }

  /** With sweeps that succeed, from the first one on no row is older than the retention plus one interval. */
  lemma RetentionKept<T>(rows: seq<Row<T>>, start: Time, steps: Trace<Step<T>>, keep: Time, interval: Time, t: Time,
                         r: Row<T>)
    requires Legal(AtStartup(rows, start), steps, keep, interval) && interval >= 0.0
    requires AllSucceed(steps) && Ticked(steps)
    requires t <= Run(AtStartup(rows, start), steps, keep, interval).due
    requires r in Run(AtStartup(rows, start), steps, keep, interval).rows
    ensures t - r.createdAt <= keep + interval
  {
    SucceedingRun(AtStartup(rows, start), steps, keep, interval);
    NoRowOutlivesRetention(rows, start, steps, keep, interval, t, r);
    assert Periods(1, interval) == Periods(0, interval) + interval;
  }

  // ---- The three tables ----------------------------------------------------

  /** What holds at a moment up to the next sweep, once a sweep has run and as long as none fails. */
  ghost predicate NoneOlder<T(!new)>(steps: Trace<Step<T>>, rows: seq<Row<T>>, start: Time, keep: Time, t: Time,
                                     age: Time) {
    Legal(AtStartup(rows, start), steps, keep, PURGE_INTERVAL) && AllSucceed(steps) && Ticked(steps)
    && t <= Run(AtStartup(rows, start), steps, keep, PURGE_INTERVAL).due ==>
      forall r :: r in Run(AtStartup(rows, start), steps, keep, PURGE_INTERVAL).rows ==> t - r.createdAt <= age
  }

  lemma KeptForInterval<T(!new)>(steps: Trace<Step<T>>, rows: seq<Row<T>>, start: Time, keep: Time, t: Time)
    ensures NoneOlder(steps, rows, start, keep, t, keep + PURGE_INTERVAL)
  {
    var base := AtStartup(rows, start);
    if Legal(base, steps, keep, PURGE_INTERVAL) && AllSucceed(steps) && Ticked(steps)
        && t <= Run(base, steps, keep, PURGE_INTERVAL).due {
      forall r | r in Run(base, steps, keep, PURGE_INTERVAL).rows
        ensures t - r.createdAt <= keep + PURGE_INTERVAL
      {
        RetentionKept(rows, start, steps, keep, PURGE_INTERVAL, t, r);
      }
    }
  }

  /**
   While the sweeps succeed, no event is older than 91 days, no login attempt
   older than 31, and no session is stored for more than 25 hours past its expiry.
   */
  lemma TablesAreBounded<T(!new)>(steps: Trace<Step<T>>, rows: seq<Row<T>>, start: Time, t: Time)
    ensures NoneOlder(steps, rows, start, Events.ANALYTICS_RETENTION, t, 91.0 * DAY)
    ensures NoneOlder(steps, rows, start, LoginRuns.LOGIN_ATTEMPT_RETENTION, t, 31.0 * DAY)
    ensures NoneOlder(steps, rows, start, Sessions.EXPIRED_SESSION_GRACE, t, 25.0 * HOUR)
  {
    KeptForInterval(steps, rows, start, Events.ANALYTICS_RETENTION, t);
    KeptForInterval(steps, rows, start, LoginRuns.LOGIN_ATTEMPT_RETENTION, t);
    KeptForInterval(steps, rows, start, Sessions.EXPIRED_SESSION_GRACE, t);
  }
}
