/**
 How many failed logins an address gets, and how fast. The statements are about
 every failure ever recorded, swept away since or not: the rows of the run with
 its sweeps erased, which answers every request alike.
 */
module LoginBounds {
  import opened Prelude
  import opened Windows
  import opened Tables
  import opened LoginLimiter
  import opened LoginRuns
  import A = Admission

  const CAP := A.Limit(RATE_LIMIT_MAX_ATTEMPTS, RATE_LIMIT_WINDOW as Time, Closed)

  function PendingOf(l: Logins, ip: string): map<nat, Time> {
    map id | id in l.waiting && l.waiting[id].ip == ip :: l.waiting[id].countedAt
  }

  function GateOf(l: Logins, ip: string): A.Gate {
    A.Gate(Failures(l.attempts, ip), PendingOf(l, ip))
  }

  /** Never more than k requests of the address between their count and their record. */
  ghost predicate OverlapAtMost(steps: Trace<Step>, ip: string, k: nat) {
    |PendingOf(Run(steps), ip)| <= k && (steps.Then? ==> OverlapAtMost(steps.before, ip, k))
  }

  ghost predicate SweepFree(steps: Trace<Step>) {
    steps.Then? ==> !steps.last.Sweep? && SweepFree(steps.before)
  }

  lemma PendingSet(l: Logins, l': Logins, id: nat, p: Phase, ip: string)
    requires l'.waiting == l.waiting[id := p]
    ensures PendingOf(l', ip) == if p.ip == ip then PendingOf(l, ip)[id := p.countedAt] else PendingOf(l, ip) - {id}
  {
  }

  lemma PendingRemoved(l: Logins, l': Logins, id: nat, ip: string)
    requires l'.waiting == l.waiting - {id}
    ensures PendingOf(l', ip) == PendingOf(l, ip) - {id}
  {
  }

  lemma CountBound(l: Logins, id: nat, ip: string, now: Time, x: string, k: nat, lo: Time)
    requires Timely(l, Count(id, ip, now)) && k >= 1
    requires |PendingOf(Apply(l, Count(id, ip, now)), x)| <= k
    requires A.Load(GateOf(l, x), CAP, lo) <= 5 + k - 1
    ensures A.Load(GateOf(Apply(l, Count(id, ip, now)), x), CAP, lo) <= 5 + k - 1
  {
    var after := Apply(l, Count(id, ip, now));
    if id in after.waiting {
      PendingSet(l, after, id, after.waiting[id], x);
      if x == ip {
        A.AdmittedKeepsLoad(CAP, k, GateOf(l, x), GateOf(after, x), id, now, lo);
      } else {
        A.Absent(PendingOf(l, x), id);
      }
    }
  }

  lemma InsertBound(l: Logins, id: nat, success: bool, stamp: Time, now: Time, x: string, lo: Time)
    requires id in l.waiting && l.waiting[id].countedAt <= stamp
    ensures A.Load(GateOf(Insert(l, id, success, stamp, now), x), CAP, lo) <= A.Load(GateOf(l, x), CAP, lo)
  {
    FailuresSnoc(l.attempts, Row(stamp, Attempt(l.waiting[id].ip, success)), x);
    PendingRemoved(l, Insert(l, id, success, stamp, now), id, x);
    A.AbandonKeepsLoad(CAP, GateOf(l, x), id, lo);
    if l.waiting[id].ip == x && !success {
      A.CommitKeepsLoad(CAP, GateOf(l, x), id, stamp, lo);
    }
  }

  lemma LookUpBound(l: Logins, id: nat, now: Time, x: string, lo: Time)
    requires Timely(l, LookUpLast(id, now))
    ensures A.Load(GateOf(Apply(l, LookUpLast(id, now)), x), CAP, lo) <= A.Load(GateOf(l, x), CAP, lo)
  {
    var after := Apply(l, LookUpLast(id, now));
    if id in after.waiting {
      PendingSet(l, after, id, after.waiting[id], x);
      assert PendingOf(after, x) == PendingOf(l, x);
    } else {
      PendingRemoved(l, after, id, x);
      A.AbandonKeepsLoad(CAP, GateOf(l, x), id, lo);
    }
  }

  lemma AbortBound(l: Logins, id: nat, now: Time, x: string, lo: Time)
    ensures A.Load(GateOf(Apply(l, Abort(id, now)), x), CAP, lo) <= A.Load(GateOf(l, x), CAP, lo)
  {
    PendingRemoved(l, Apply(l, Abort(id, now)), id, x);
    A.AbandonKeepsLoad(CAP, GateOf(l, x), id, lo);
  }

  lemma {:induction false} SweepFreeBound(steps: Trace<Step>, ip: string, k: nat, lo: Time)
    requires Legal(steps) && SweepFree(steps) && OverlapAtMost(steps, ip, k) && k >= 1
    ensures A.Load(GateOf(Run(steps), ip), CAP, lo) <= 5 + k - 1
  {
    match steps {
      case Start =>
        assert PendingOf(NO_LOGINS, ip) == map[];
        assert A.Early(map[], lo + 900.0) == {};
      case Then(before, last) =>
        SweepFreeBound(before, ip, k, lo);
        match last {
          case Count(id, who, now) => CountBound(Run(before), id, who, now, ip, k, lo);
          case LookUpLast(id, now) => LookUpBound(Run(before), id, now, ip, lo);
          case Fail(id, stamp, now) => InsertBound(Run(before), id, false, stamp, now, ip, lo);
          case Succeed(id, stamp, now) => InsertBound(Run(before), id, true, stamp, now, ip, lo);
          case Abort(id, now) => AbortBound(Run(before), id, now, ip, lo);
        }
    }
  }

  lemma {:induction false} EraseKeepsOverlap(steps: Trace<Step>, ip: string, k: nat)
    requires Legal(steps) && OverlapAtMost(steps, ip, k)
    ensures SweepFree(Erase(steps)) && OverlapAtMost(Erase(steps), ip, k)
  {
    SweepsUnseen(steps);
    assert PendingOf(Run(Erase(steps)), ip) == PendingOf(Run(steps), ip);
    if steps.Then? {
      EraseKeepsOverlap(steps.before, ip, k);
    }
  }

  /** Every failure ever recorded for an address. */
  function AllFailures(steps: Trace<Step>, ip: string): seq<Time> {
    Failures(Run(Erase(steps)).attempts, ip)
  }

  /**
   Over every interleaving of requests and sweeps, fifteen minutes never hold
   more than five failures of an address and its k - 1 overlapping requests.
   */
  lemma FailureCap(steps: Trace<Step>, ip: string, k: nat, lo: Time)
    requires Legal(steps) && OverlapAtMost(steps, ip, k) && k >= 1
    ensures CountIn(AllFailures(steps, ip), lo, lo + 900.0, Closed) <= 5 + k - 1
  {
    SweepsUnseen(steps);
    EraseKeepsOverlap(steps, ip, k);
    SweepFreeBound(Erase(steps), ip, k, lo);
  }

  /** T seconds hold at most that many failures for each quarter of an hour begun. */
  lemma FailuresInStretch(steps: Trace<Step>, ip: string, k: nat, lo: Time, length: Time)
    requires Legal(steps) && OverlapAtMost(steps, ip, k) && k >= 1 && length >= 0.0
    ensures CountIn(AllFailures(steps, ip), lo, lo + length, Closed) <= (5 + k - 1) * ((length / 900.0).Floor + 1)
  {
    forall x: Time
      ensures A.InWindow(AllFailures(steps, ip), CAP, x) <= 5 + k - 1
    {
      FailureCap(steps, ip, k, x);
    }
    var n := (length / 900.0).Floor + 1;
    assert lo + length < lo + n as Time * 900.0;
    A.LongStretch(AllFailures(steps, ip), CAP, 5 + k - 1, lo, lo + length, n);
  }
}
