/** The bound on failed logins is reached, backoff and all, for every number of overlapping requests. */
module LoginTight {
  import opened Prelude
  import opened Windows
  import opened Tables
  import opened LoginLimiter
  import opened LoginRuns
  import opened LoginBounds
  import A = Admission

  /** The failures of an address, and its requests `i` up to `j`, all let through at `t` and none recorded. */
  ghost predicate Stands(l: Logins, ip: string, stamps: seq<Time>, i: nat, j: nat, t: Time) {
    && Failures(l.attempts, ip) == stamps
    && PendingOf(l, ip) == A.Crowd(i, j, t) && l.clock <= t
    && (forall id :: id in l.waiting ==> id < j)
    && (forall id :: id in PendingOf(l, ip) ==> l.waiting[id].Authenticating?)
  }

  /** A run to such a state that respects the clock and the overlap. */
  ghost predicate Reaches(steps: Trace<Step>, ip: string, k: nat, stamps: seq<Time>, i: nat, j: nat, t: Time) {
    Legal(steps) && SweepFree(steps) && OverlapAtMost(steps, ip, k) && Stands(Run(steps), ip, stamps, i, j, t)
  }

  /** Neither the cap nor the backoff refuses a request made now. */
  predicate LetsThrough(stamps: seq<Time>, now: Time) {
    var n := CountAfter(stamps, now - RATE_LIMIT_WINDOW as Time, Closed);
    n < RATE_LIMIT_MAX_ATTEMPTS && (n > 0 ==> BackoffVerdict(n, Latest(stamps), now) == None)
  }

  // ---- One request ---------------------------------------------------------

  lemma CountStands(l: Logins, ip: string, stamps: seq<Time>, i: nat, j: nat, t: Time)
    requires Stands(l, ip, stamps, i, j, t) && i <= j && LetsThrough(stamps, t)
    ensures var after := Apply(l, Count(j, ip, t));
            && Timely(l, Count(j, ip, t))
            && PendingOf(after, ip) == A.Crowd(i, j + 1, t)
            && (RecentFailures(l.attempts, ip, t) == 0 ==> Stands(after, ip, stamps, i, j + 1, t))
            && (RecentFailures(l.attempts, ip, t) > 0 ==>
                  after == l.(waiting := l.waiting[j := BackingOff(ip, t, RecentFailures(l.attempts, ip, t))],
                              clock := t))
  {
    var after := Apply(l, Count(j, ip, t));
    PendingSet(l, after, j, after.waiting[j], ip);
  }

  lemma LookUpStands(l: Logins, ip: string, stamps: seq<Time>, i: nat, j: nat, t: Time, l': Logins, n: nat)
    requires Stands(l, ip, stamps, i, j, t) && i <= j && n > 0 && BackoffVerdict(n, Latest(stamps), t) == None
    requires l' == l.(waiting := l.waiting[j := BackingOff(ip, t, n)], clock := t)
    ensures Timely(l', LookUpLast(j, t)) && Stands(Apply(l', LookUpLast(j, t)), ip, stamps, i, j + 1, t)
  {
    var after := Apply(l', LookUpLast(j, t));
    assert after.waiting == l.waiting[j := Authenticating(ip, t, t)];
    PendingSet(l, after, j, Authenticating(ip, t, t), ip);
  }

  lemma FailStands(l: Logins, ip: string, stamps: seq<Time>, i: nat, j: nat, t: Time)
    requires Stands(l, ip, stamps, i, j, t) && i < j
    ensures Timely(l, Fail(i, t, t)) && Stands(Apply(l, Fail(i, t, t)), ip, stamps + [t], i + 1, j, t)
  {
    A.CrowdDrop(i, j, t);
    assert i in PendingOf(l, ip);
    PendingRemoved(l, Apply(l, Fail(i, t, t)), i, ip);
    FailuresSnoc(l.attempts, Row(t, Attempt(ip, false)), ip);
  }

  // ---- Runs ----------------------------------------------------------------

  ghost predicate Sound(steps: Trace<Step>, ip: string, k: nat) {
    Legal(steps) && SweepFree(steps) && OverlapAtMost(steps, ip, k)
  }

  lemma Extend(steps: Trace<Step>, s: Step, ip: string, k: nat, i: nat, j: nat, t: Time)
    requires Sound(steps, ip, k) && Timely(Run(steps), s) && !s.Sweep?
    requires PendingOf(Apply(Run(steps), s), ip) == A.Crowd(i, j, t) && i <= j <= i + k
    ensures Sound(Then(steps, s), ip, k) && Run(Then(steps, s)) == Apply(Run(steps), s)
  {
    A.CrowdValues(i, j, t);
  }

  /** A request that the limiter lets through, up to its password check. */
  lemma Enters(steps: Trace<Step>, ip: string, k: nat, stamps: seq<Time>, i: nat, j: nat, t: Time)
    returns (longer: Trace<Step>)
    requires Reaches(steps, ip, k, stamps, i, j, t) && i <= j < i + k && LetsThrough(stamps, t)
    ensures Reaches(longer, ip, k, stamps, i, j + 1, t)
  {
    hide Apply, Timely, Legal, OverlapAtMost;
    CountStands(Run(steps), ip, stamps, i, j, t);
    Extend(steps, Count(j, ip, t), ip, k, i, j + 1, t);
    longer := Then(steps, Count(j, ip, t));
    var n := RecentFailures(Run(steps).attempts, ip, t);
    if n > 0 {
      LookUpStands(Run(steps), ip, stamps, i, j, t, Run(longer), n);
      Extend(longer, LookUpLast(j, t), ip, k, i, j + 1, t);
      longer := Then(longer, LookUpLast(j, t));
    }
  }

  lemma Fails(steps: Trace<Step>, ip: string, k: nat, stamps: seq<Time>, i: nat, j: nat, t: Time)
    requires Reaches(steps, ip, k, stamps, i, j, t) && i < j <= i + k
    ensures Reaches(Then(steps, Fail(i, t, t)), ip, k, stamps + [t], i + 1, j, t)
  {
    hide Apply, Timely, Legal, OverlapAtMost;
    FailStands(Run(steps), ip, stamps, i, j, t);
    Extend(steps, Fail(i, t, t), ip, k, i + 1, j, t);
  }

  lemma {:induction false} AllEnter(before: Trace<Step>, ip: string, k: nat, stamps: seq<Time>, first: nat, n: nat,
                                    t: Time)
    returns (steps: Trace<Step>)
    requires Reaches(before, ip, k, stamps, first, first, t) && n <= k && LetsThrough(stamps, t)
    ensures Reaches(steps, ip, k, stamps, first, first + n, t)
  {
    hide Reaches;
    if n == 0 {
      return before;
    }
    var most := AllEnter(before, ip, k, stamps, first, n - 1, t);
    steps := Enters(most, ip, k, stamps, first, first + n - 1, t);
  }

  lemma {:induction false} AllFail(before: Trace<Step>, ip: string, k: nat, stamps: seq<Time>, first: nat, n: nat,
                                   t: Time)
    returns (steps: Trace<Step>)
    requires Reaches(before, ip, k, stamps, first, first + k, t) && n <= k
    ensures Reaches(steps, ip, k, stamps + Repeat(n, t), first + n, first + k, t)
  {
    hide Reaches;
    if n == 0 {
      assert stamps + Repeat(0, t) == stamps;
      return before;
    }
    var most := AllFail(before, ip, k, stamps, first, n - 1, t);
    var soFar := stamps + Repeat(n - 1, t);
    assert stamps + Repeat(n, t) == soFar + [t];
    Fails(most, ip, k, soFar, first + n - 1, first + k, t);
    steps := Then(most, Fail(first + n - 1, t, t));
  }

  /** From any state of a run in which one request would be let through, k of them are, and all may fail. */
  lemma CrowdFails(before: Trace<Step>, ip: string, k: nat, stamps: seq<Time>, first: nat, t: Time)
    returns (steps: Trace<Step>)
    requires Reaches(before, ip, k, stamps, first, first, t) && LetsThrough(stamps, t)
    ensures Reaches(steps, ip, k, stamps + Repeat(k, t), first + k, first + k, t)
  {
    hide Reaches;
    var entered := AllEnter(before, ip, k, stamps, first, k, t);
    steps := AllFail(entered, ip, k, stamps, first, k, t);
  }

  // ---- Four failures, then a crowd -----------------------------------------

  /** n failures, each past the longest backoff of the one before. */
  function Spaced(n: nat): seq<Time> {
    if n == 0 then [] else Spaced(n - 1) + [(n - 1) as Time * 100.0]
  }

  lemma {:induction false} SpacedAt(n: nat)
    ensures |Spaced(n)| == n && forall i :: 0 <= i < n ==> 0.0 <= Spaced(n)[i] <= (n - 1) as Time * 100.0
  {
    if n > 0 {
      SpacedAt(n - 1);
    }
  }

  lemma SpacedLetsThrough(n: nat)
    requires n < 5
    ensures LetsThrough(Spaced(n), n as Time * 100.0)
  {
    SpacedAt(n);
    CountAfterAtMostAll(Spaced(n), n as Time * 100.0 - RATE_LIMIT_WINDOW as Time, Closed);
    LatestIsMax(Spaced(n));
  }

  lemma NothingYet(ip: string, k: nat)
    ensures Reaches(Start, ip, k, [], 0, 0, 0.0)
  {
    assert PendingOf(NO_LOGINS, ip) == map[];
  }

  lemma Waits(steps: Trace<Step>, ip: string, k: nat, stamps: seq<Time>, i: nat, t: Time, later: Time)
    requires Reaches(steps, ip, k, stamps, i, i, t) && t <= later
    ensures Reaches(steps, ip, k, stamps, i, i, later)
  {
    assert A.Crowd<Time>(i, i, t) == A.Crowd<Time>(i, i, later);
  }

  lemma {:induction false} OneByOne(ip: string, k: nat, n: nat) returns (steps: Trace<Step>)
    requires k >= 1 && n < 5
    ensures Reaches(steps, ip, k, Spaced(n), n, n, n as Time * 100.0)
  {
    hide Reaches;
    if n == 0 {
      NothingYet(ip, k);
      return Start;
    }
    var before := OneByOne(ip, k, n - 1);
    var t := (n - 1) as Time * 100.0;
    SpacedLetsThrough(n - 1);
    var entered := Enters(before, ip, k, Spaced(n - 1), n - 1, n - 1, t);
    assert Spaced(n) == Spaced(n - 1) + [t];
    Fails(entered, ip, k, Spaced(n - 1), n - 1, n, t);
    steps := Then(entered, Fail(n - 1, t, t));
    Waits(steps, ip, k, Spaced(n), n, t, n as Time * 100.0);
  }

  lemma {:induction false} NothingToErase(steps: Trace<Step>)
    requires SweepFree(steps)
    ensures Erase(steps) == steps
  {
    if steps.Then? {
      NothingToErase(steps.before);
    }
  }

  /** A run with at most k requests of the address in between that fills a quarter of an hour beyond the cap. */
  ghost predicate Fills(steps: Trace<Step>, ip: string, k: nat) {
    && Legal(steps) && OverlapAtMost(steps, ip, k)
    && CountIn(AllFailures(steps, ip), 0.0, 900.0, Closed) == 5 + k - 1
  }

  lemma AllRecorded(steps: Trace<Step>, ip: string, k: nat, stamps: seq<Time>, j: nat, t: Time)
    requires Reaches(steps, ip, k, stamps, j, j, t) && |stamps| == 5 + k - 1
    requires forall i :: 0 <= i < |stamps| ==> 0.0 <= stamps[i] <= 900.0
    ensures Fills(steps, ip, k)
  {
    NothingToErase(steps);
    CountInAll(stamps, 0.0, 900.0, Closed);
  }

  /**
   For every k there is a run in which an address fails `5 + k - 1` times in a
   quarter of an hour with no more than k of its requests in between at any
   moment: the backoff does not lower the bound of `FailureCap`.
   */
  lemma FailureCapIsReached(ip: string, k: nat)
    requires k >= 1
    ensures exists steps :: Fills(steps, ip, k)
  {
    hide Reaches, Fills;
    SpacedLetsThrough(4);
    var before := OneByOne(ip, k, 4);
    var steps := CrowdFails(before, ip, k, Spaced(4), 4, 400.0);
    SpacedAt(4);
    RepeatAt(k, 400.0);
    AllRecorded(steps, ip, k, Spaced(4) + Repeat(k, 400.0), 4 + k, 400.0);
  }
}
