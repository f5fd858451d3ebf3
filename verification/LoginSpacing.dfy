/**
 Guessing slows down: the failures of an address that logs in one request at a
 time are spaced by the powers of two of the backoff.

 The database stamps a failure with the start of its transaction, which may lie
 a little before the second clock reading, the one that the backoff was measured
 against. `lag` bounds by how much; the spacing falls short by no more than that.
 */
module LoginSpacing {
  import opened Prelude
  import opened Windows
  import opened Tables
  import opened LoginLimiter
  import opened LoginRuns
  import opened LoginBounds
  import A = Admission

  /** Failures counted from one quarter of an hour before a moment. */
  function Counted(f: seq<Time>, t: Time): nat {
    CountAfter(f, t - RATE_LIMIT_WINDOW as Time, Closed)
  }

  ghost predicate UpTo(f: seq<Time>, t: Time) {
    forall i :: 0 <= i < |f| ==> f[i] <= t
  }

  /** Failure j came after the backoff that the failures before it called for. */
  ghost predicate SpacedAt(f: seq<Time>, lag: Time, j: nat)
    requires 0 < j < |f|
  {
    var n := Counted(f[..j], f[j]);
    f[j - 1] <= f[j] && (n > 0 ==> f[j] >= f[j - 1] + Pow2(n) as Time - lag)
  }

  ghost predicate Spaced(f: seq<Time>, lag: Time) {
    forall j :: 0 < j < |f| ==> SpacedAt(f, lag, j)
  }

  /** What a suspended request knows about the failures so far. */
  ghost predicate Informed(f: seq<Time>, p: Phase) {
    var n := Counted(f, p.countedAt);
    && UpTo(f, p.countedAt)
    && n < RATE_LIMIT_MAX_ATTEMPTS
    && (p.BackingOff? ==> p.failures == n)
    && (p.Authenticating? && n > 0 ==> p.clearedAt >= f[|f| - 1] + Pow2(n) as Time)
  }

  ghost predicate Orderly(l: Logins, ip: string, lag: Time) {
    var f := Failures(l.attempts, ip);
    && Spaced(f, lag) && UpTo(f, l.clock)
    && forall id :: id in l.waiting && l.waiting[id].ip == ip ==> Informed(f, l.waiting[id])
  }

  /** Every failure is stamped at most `lag` before its request was cleared. */
  ghost predicate LagAtMost(steps: Trace<Step>, lag: Time) {
    match steps
    case Start => true
    case Then(before, last) =>
      && LagAtMost(before, lag)
      && (last.Fail? && last.id in Run(before).waiting && Run(before).waiting[last.id].Authenticating? ==>
            Run(before).waiting[last.id].clearedAt - last.stamp <= lag)
  }

  lemma AtMostOne(m: map<nat, Time>, a: nat, b: nat)
    requires |m| <= 1 && a in m && b in m
    ensures a == b
  {
    assert |m.Keys| == |m|;
    A.SubsetSize({a, b}, m.Keys);
  }

  lemma SpacedSnoc(f: seq<Time>, stamp: Time, lag: Time, p: Phase)
    requires Spaced(f, lag) && p.Authenticating? && Informed(f, p)
    requires p.countedAt <= stamp && p.clearedAt - stamp <= lag
    ensures Spaced(f + [stamp], lag)
  {
    var g := f + [stamp];
    forall j | 0 < j < |g|
      ensures SpacedAt(g, lag, j)
    {
      if j < |f| {
        assert g[..j] == f[..j] && SpacedAt(f, lag, j);
      } else {
        assert g[..j] == f;
        CountAfterMonotone(f, p.countedAt - RATE_LIMIT_WINDOW as Time, stamp - RATE_LIMIT_WINDOW as Time, Closed);
        Pow2Monotone(Counted(f, stamp), Counted(f, p.countedAt));
      }
    }
  }

  lemma CountOrderly(l: Logins, id: nat, who: string, now: Time, ip: string, lag: Time)
    requires Orderly(l, ip, lag) && Timely(l, Count(id, who, now))
    ensures Orderly(Apply(l, Count(id, who, now)), ip, lag)
  {
  }

  lemma LookUpOrderly(l: Logins, id: nat, now: Time, ip: string, lag: Time)
    requires Orderly(l, ip, lag) && Timely(l, LookUpLast(id, now))
    ensures Orderly(Apply(l, LookUpLast(id, now)), ip, lag)
  {
    var p, after := l.waiting[id], Apply(l, LookUpLast(id, now));
    if p.ip == ip && id in after.waiting {
      var f := Failures(l.attempts, ip);
      BackoffUncapped(p.failures);
      LatestIsMax(f);
      assert Informed(f, after.waiting[id]);
    }
  }

  lemma FailOrderly(l: Logins, id: nat, stamp: Time, now: Time, ip: string, lag: Time)
    requires Orderly(l, ip, lag) && Timely(l, Fail(id, stamp, now))
    requires |PendingOf(l, ip)| <= 1 && l.waiting[id].clearedAt - stamp <= lag
    ensures Orderly(Apply(l, Fail(id, stamp, now)), ip, lag)
  {
    var p, after := l.waiting[id], Apply(l, Fail(id, stamp, now));
    FailuresSnoc(l.attempts, Row(stamp, Attempt(p.ip, false)), ip);
    if p.ip == ip {
      SpacedSnoc(Failures(l.attempts, ip), stamp, lag, p);
      forall other | other in after.waiting && after.waiting[other].ip == ip
        ensures other == id
      {
        AtMostOne(PendingOf(l, ip), id, other);
      }
    }
  }

  lemma SucceedOrderly(l: Logins, id: nat, stamp: Time, now: Time, ip: string, lag: Time)
    requires Orderly(l, ip, lag) && Timely(l, Succeed(id, stamp, now))
    ensures Orderly(Apply(l, Succeed(id, stamp, now)), ip, lag)
  {
    FailuresSnoc(l.attempts, Row(stamp, Attempt(l.waiting[id].ip, true)), ip);
  }

  lemma AbortOrderly(l: Logins, id: nat, now: Time, ip: string, lag: Time)
    requires Orderly(l, ip, lag) && l.clock <= now
    ensures Orderly(Apply(l, Abort(id, now)), ip, lag)
  {
  }

  lemma {:induction false} RunOrderly(steps: Trace<Step>, ip: string, lag: Time)
    requires Legal(steps) && SweepFree(steps) && OverlapAtMost(steps, ip, 1) && LagAtMost(steps, lag)
    ensures Orderly(Run(steps), ip, lag)
  {
    match steps {
      case Start =>
      case Then(before, last) =>
        RunOrderly(before, ip, lag);
        match last {
          case Count(id, who, now) => CountOrderly(Run(before), id, who, now, ip, lag);
          case LookUpLast(id, now) => LookUpOrderly(Run(before), id, now, ip, lag);
          case Fail(id, stamp, now) => FailOrderly(Run(before), id, stamp, now, ip, lag);
          case Succeed(id, stamp, now) => SucceedOrderly(Run(before), id, stamp, now, ip, lag);
          case Abort(id, now) => AbortOrderly(Run(before), id, now, ip, lag);
        }
    }
  }

  lemma {:induction false} EraseKeepsLag(steps: Trace<Step>, lag: Time)
    requires Legal(steps) && LagAtMost(steps, lag)
    ensures LagAtMost(Erase(steps), lag)
  {
    if steps.Then? {
      SweepsUnseen(steps.before);
      EraseKeepsLag(steps.before, lag);
    }
  }

  // ---- Five in a row -------------------------------------------------------

  lemma {:induction false} PrefixCounts(f: seq<Time>, a: nat, b: nat, cutoff: Time)
    requires a <= b <= |f|
    ensures CountAfter(f[..a], cutoff, Closed) <= CountAfter(f[..b], cutoff, Closed)
  {
    if a < b {
      PrefixCounts(f, a, b - 1, cutoff);
      assert f[..b] == f[..b - 1] + [f[b - 1]];
      CountAfterSnoc(f[..b - 1], f[b - 1], cutoff, Closed);
    }
  }

  /** Strictly increasing positions of a sequence. */
  ghost predicate Positions(f: seq<Time>, at: seq<nat>) {
    && (forall i :: 0 <= i < |at| ==> at[i] < |f|)
    && (forall i, j :: 0 <= i < j < |at| ==> at[i] < at[j])
  }

  lemma {:induction false} PicksCount(f: seq<Time>, at: seq<nat>, r: nat, end: nat, cutoff: Time)
    requires Positions(f, at) && r <= |at| && end <= |f|
    requires forall i :: 0 <= i < r ==> at[i] < end && f[at[i]] >= cutoff
    ensures CountAfter(f[..end], cutoff, Closed) >= r
  {
    if r > 0 {
      var p := at[r - 1];
      PicksCount(f, at, r - 1, p, cutoff);
      assert f[..p + 1] == f[..p] + [f[p]];
      CountAfterSnoc(f[..p], f[p], cutoff, Closed);
      PrefixCounts(f, p + 1, end, cutoff);
    }
  }

  lemma {:induction false} SpacedSorted(f: seq<Time>, lag: Time, i: nat, j: nat)
    requires Spaced(f, lag) && i <= j < |f|
    ensures f[i] <= f[j]
  {
    if i < j {
      SpacedSorted(f, lag, i, j - 1);
      assert SpacedAt(f, lag, j);
    }
  }

  /** The gap after r failures in one window. */
  lemma PickGap(f: seq<Time>, lag: Time, at: seq<nat>, r: nat)
    requires Spaced(f, lag) && Positions(f, at) && 0 < r < |at|
    requires forall i :: 0 <= i < r ==> f[at[i]] >= f[at[r]] - RATE_LIMIT_WINDOW as Time
    ensures f[at[r]] >= f[at[r - 1]] + Pow2(r) as Time - lag
  {
    var j := at[r];
    PicksCount(f, at, r, j, f[j] - RATE_LIMIT_WINDOW as Time);
    assert SpacedAt(f, lag, j);
    Pow2Monotone(r, Counted(f[..j], f[j]));
    SpacedSorted(f, lag, at[r - 1], j - 1);
  }

  lemma FiveSpan(f: seq<Time>, lag: Time, at: seq<nat>)
    requires Spaced(f, lag) && Positions(f, at) && |at| == 5
    requires f[at[4]] - f[at[0]] <= RATE_LIMIT_WINDOW as Time
    ensures f[at[4]] - f[at[0]] >= 30.0 - 4.0 * lag
  {
    forall i, r | 0 <= i < r < 5
      ensures f[at[0]] <= f[at[i]] <= f[at[r]] <= f[at[4]]
    {
      SpacedSorted(f, lag, at[0], at[i]);
      SpacedSorted(f, lag, at[i], at[r]);
      SpacedSorted(f, lag, at[r], at[4]);
    }
    forall r | 1 <= r < 5
      ensures f[at[r]] >= f[at[r - 1]] + Pow2(r) as Time - lag
    {
      PickGap(f, lag, at, r);
    }
    assert Pow2(1) == 2;
    assert Pow2(2) == 4;
    assert Pow2(3) == 8;
    assert Pow2(4) == 16;
  }

  /**
   With one request of the address at a time, any five of its failures that lie
   within fifteen minutes take at least 2 + 4 + 8 + 16 seconds.
   */
  lemma FiveFailuresTakeTime(steps: Trace<Step>, ip: string, lag: Time, at: seq<nat>)
    requires Legal(steps) && OverlapAtMost(steps, ip, 1) && LagAtMost(steps, lag)
    requires Positions(AllFailures(steps, ip), at) && |at| == 5
    requires AllFailures(steps, ip)[at[4]] - AllFailures(steps, ip)[at[0]] <= RATE_LIMIT_WINDOW as Time
    ensures AllFailures(steps, ip)[at[4]] - AllFailures(steps, ip)[at[0]] >= 30.0 - 4.0 * lag
  {
    SweepsUnseen(steps);
    EraseKeepsOverlap(steps, ip, 1);
    EraseKeepsLag(steps, lag);
    RunOrderly(Erase(steps), ip, lag);
    FiveSpan(AllFailures(steps, ip), lag, at);
  }
}
