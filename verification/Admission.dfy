/**
 Check, wait, then record: the pattern of every limiter of the backend.

 A request checks the counts, is suspended at an `await`, and records itself
 (or gives up) some time later. Requests interleave freely between the two, so
 a cap of `max` per window is not what holds. What holds, over every run, is
 `max + k - 1`, where k bounds the requests of one key that are between their
 check and their record at one moment; no smaller number would do.
 */
module Admission {
  import opened Prelude
  import opened Windows

  datatype Limit = Limit(max: nat, window: Time, edge: Edge)

  /** One key: the stamps recorded for it, and the check times of the requests in between. */
  datatype Gate = Gate(rows: seq<Time>, pending: map<nat, Time>)

  datatype Step =
    | Admit(id: nat, now: Time)
    | Commit(id: nat, stamp: Time)
    | Abandon(id: nat)
    | Forget

  const EMPTY := Gate([], map[])

  ghost predicate Passes(limits: seq<Limit>, rows: seq<Time>, now: Time) {
    forall l :: l in limits ==> CountAfter(rows, now - l.window, l.edge) < l.max
  }

  /** A request is admitted on passing every limit; its record is never stamped before its check. */
  ghost predicate Enabled(limits: seq<Limit>, g: Gate, s: Step) {
    match s
    case Admit(id, now) => id !in g.pending && Passes(limits, g.rows, now)
    case Commit(id, stamp) => id in g.pending && g.pending[id] <= stamp
    case Abandon(id) => id in g.pending
    case Forget => true
  }

  function Apply(g: Gate, s: Step): Gate {
    match s
    case Admit(id, now) => g.(pending := g.pending[id := now])
    case Commit(id, stamp) => Gate(g.rows + [stamp], g.pending - {id})
    case Abandon(id) => g.(pending := g.pending - {id})
    case Forget => g.(rows := [])
  }

  function InWindow(rows: seq<Time>, l: Limit, lo: Time): nat {
    CountIn(rows, lo, lo + l.window, l.edge)
  }

  /** Requests in between whose record could still be stamped no later than `t`. */
  function Early(pending: map<nat, Time>, t: Time): set<nat> {
    set id | id in pending && pending[id] <= t
  }

  /** What is in one window, or may still get into it. This is the quantity that never exceeds the bound. */
  function Load(g: Gate, l: Limit, lo: Time): nat {
    InWindow(g.rows, l, lo) + |Early(g.pending, lo + l.window)|
  }

  lemma SubsetSize<T>(a: set<T>, b: set<T>)
    requires a <= b
    ensures |a| <= |b|
  {
    if x :| x in a {
      SubsetSize(a - {x}, b - {x});
    }
  }

  lemma Absent(pending: map<nat, Time>, id: nat)
    requires id !in pending
    ensures pending - {id} == pending
  {
  }

  lemma EarlyAtMostAll(pending: map<nat, Time>, t: Time)
    ensures |Early(pending, t)| <= |pending|
  {
    SubsetSize(Early(pending, t), pending.Keys);
    assert |pending.Keys| == |pending|;
  }

  /** A request that passes the check now has seen everything the window holds so far. */
  lemma AdmitKeepsLoad(limits: seq<Limit>, l: Limit, k: nat, g: Gate, id: nat, now: Time, lo: Time)
    requires l in limits && k >= 1
    requires Enabled(limits, g, Admit(id, now))
    requires |g.pending[id := now]| <= k
    requires Load(g, l, lo) <= l.max + k - 1
    ensures Load(Apply(g, Admit(id, now)), l, lo) <= l.max + k - 1
  {
    var after, t := g.pending[id := now], lo + l.window;
    if now <= t {
      assert InWindow(g.rows, l, lo) < l.max by {
        CountInAtMostAfter(g.rows, lo, t, now - l.window, l.edge);
      }
      assert |Early(after, t)| <= k by {
        EarlyAtMostAll(after, t);
      }
    } else {
      assert Early(after, t) == Early(g.pending, t);
    }
  }

  /** The same, for a state that is known to be the next one. */
  lemma AdmittedKeepsLoad(l: Limit, k: nat, g: Gate, g': Gate, id: nat, now: Time, lo: Time)
    requires k >= 1 && id !in g.pending && CountAfter(g.rows, now - l.window, l.edge) < l.max
    requires g'.rows == g.rows && g'.pending == g.pending[id := now] && |g'.pending| <= k
    requires Load(g, l, lo) <= l.max + k - 1
    ensures Load(g', l, lo) <= l.max + k - 1
  {
    AdmitKeepsLoad([l], l, k, g, id, now, lo);
  }

  /** A record moves its request from the second part of the load to the first, or out of the window. */
  lemma CommitKeepsLoad(l: Limit, g: Gate, id: nat, stamp: Time, lo: Time)
    requires id in g.pending && g.pending[id] <= stamp
    ensures Load(Apply(g, Commit(id, stamp)), l, lo) <= Load(g, l, lo)
  {
    var t := lo + l.window;
    CountInSnoc(g.rows, stamp, lo, t, l.edge);
    assert Early(g.pending - {id}, t) == Early(g.pending, t) - {id};
    if stamp <= t {
      assert id in Early(g.pending, t);
    }
    SubsetSize(Early(g.pending, t) - {id}, Early(g.pending, t));
  }

  lemma AbandonKeepsLoad(l: Limit, g: Gate, id: nat, lo: Time)
    ensures Load(Apply(g, Abandon(id)), l, lo) <= Load(g, l, lo)
  {
    SubsetSize(Early(g.pending - {id}, lo + l.window), Early(g.pending, lo + l.window));
  }

  /** Check and record without a suspension in between: such a request overlaps only with the waiting ones. */
  lemma AtOnceKeepsLoad(limits: seq<Limit>, l: Limit, k: nat, g: Gate, now: Time, stamp: Time, lo: Time)
    requires l in limits && Passes(limits, g.rows, now) && now <= stamp
    requires |g.pending| + 1 <= k
    requires Load(g, l, lo) <= l.max + k - 1
    ensures Load(g.(rows := g.rows + [stamp]), l, lo) <= l.max + k - 1
  {
    var t := lo + l.window;
    CountInSnoc(g.rows, stamp, lo, t, l.edge);
    if stamp <= t {
      CountInAtMostAfter(g.rows, lo, t, now - l.window, l.edge);
      EarlyAtMostAll(g.pending, t);
    }
  }

  /** The invariant, one window at a time. */
  lemma StepKeepsLoad(limits: seq<Limit>, l: Limit, k: nat, g: Gate, s: Step, lo: Time)
    requires l in limits && k >= 1
    requires Enabled(limits, g, s)
    requires |Apply(g, s).pending| <= k
    requires Load(g, l, lo) <= l.max + k - 1
    ensures Load(Apply(g, s), l, lo) <= l.max + k - 1
  {
    match s {
      case Admit(id, now) => AdmitKeepsLoad(limits, l, k, g, id, now, lo);
      case Commit(id, stamp) => CommitKeepsLoad(l, g, id, stamp, lo);
      case Abandon(id) => AbandonKeepsLoad(l, g, id, lo);
      case Forget =>
    }
  }

  // ---- Whole runs ----------------------------------------------------------

  function Run(steps: Trace<Step>): Gate {
    match steps
    case Start => EMPTY
    case Then(before, last) => Apply(Run(before), last)
  }

  /** Every step is allowed where it happens, and never more than k requests are in between. */
  ghost predicate Overlapping(limits: seq<Limit>, k: nat, steps: Trace<Step>) {
    match steps
    case Start => true
    case Then(before, last) =>
      && Overlapping(limits, k, before)
      && Enabled(limits, Run(before), last)
      && |Run(steps).pending| <= k
  }

  /** Over every run, no window holds more than the cap and the k - 1 requests that overlapped. */
  lemma {:induction false} OverlapBound(limits: seq<Limit>, l: Limit, k: nat, steps: Trace<Step>, lo: Time)
    requires l in limits && k >= 1
    requires Overlapping(limits, k, steps)
    ensures InWindow(Run(steps).rows, l, lo) <= l.max + k - 1
    ensures Load(Run(steps), l, lo) <= l.max + k - 1
  {
    match steps {
      case Start =>
        assert Early(EMPTY.pending, lo + l.window) == {};
      case Then(before, last) =>
        OverlapBound(limits, l, k, before, lo);
        StepKeepsLoad(limits, l, k, Run(before), last, lo);
    }
  }

  /** A stretch shorter than n windows holds at most n times what one window may hold. */
  lemma {:induction false} LongStretch(rows: seq<Time>, l: Limit, bound: nat, lo: Time, hi: Time, n: nat)
    requires forall x: Time :: InWindow(rows, l, x) <= bound
    requires l.window > 0.0 && hi < lo + n as Time * l.window
    ensures CountIn(rows, lo, hi, l.edge) <= bound * n
    decreases n
  {
    if n == 0 {
      CountInEmpty(rows, lo, hi, l.edge);
    } else {
      var mid := lo + l.window;
      assert InWindow(rows, l, lo) <= bound;
      CountInSplit(rows, lo, mid, hi, l.edge);
      assert (n - 1) as Time * l.window == n as Time * l.window - l.window;
      LongStretch(rows, l, bound, mid, hi, n - 1);
      assert bound * n == bound * (n - 1) + bound;
    }
  }

  // ---- No smaller bound holds ----------------------------------------------

  /** The requests from `i` up to `j`, all of them where `p` says. */
  function Crowd<P>(i: nat, j: nat, p: P): map<nat, P> {
    if i < j then Crowd(i, j - 1, p)[j - 1 := p] else map[]
  }

  lemma {:induction false} ZerosCount(n: nat, lo: Time, hi: Time, edge: Edge)
    requires lo < 0.0 <= hi
    ensures CountAfter(Repeat(n, 0.0), lo, edge) == n && CountIn(Repeat(n, 0.0), lo, hi, edge) == n
  {
    if n > 0 {
      ZerosCount(n - 1, lo, hi, edge);
      CountAfterSnoc(Repeat(n - 1, 0.0), 0.0, lo, edge);
      CountInSnoc(Repeat(n - 1, 0.0), 0.0, lo, hi, edge);
    }
  }

  lemma {:induction false} CrowdValues<P>(i: nat, j: nat, p: P)
    ensures forall x: nat :: x in Crowd(i, j, p) <==> i <= x < j
    ensures forall x :: x in Crowd(i, j, p) ==> Crowd(i, j, p)[x] == p
    ensures i <= j ==> |Crowd(i, j, p)| == j - i
  {
    if i < j {
      CrowdValues(i, j - 1, p);
    }
  }

  lemma CrowdDrop<P>(i: nat, j: nat, p: P)
    requires i < j
    ensures Crowd(i, j, p) - {i} == Crowd(i + 1, j, p)
    ensures i in Crowd(i, j, p) && Crowd(i, j, p)[i] == p
    ensures |Crowd(i + 1, j, p)| < j
  {
    CrowdValues(i, j, p);
    CrowdValues(i + 1, j, p);
    assert (Crowd(i, j, p) - {i}).Keys == Crowd(i + 1, j, p).Keys;
  }

  /** A run that leaves n records and the requests from i up to j in between. */
  ghost predicate Reaches(l: Limit, k: nat, steps: Trace<Step>, n: nat, i: nat, j: nat) {
    Overlapping([l], k, steps) && Run(steps) == Gate(Repeat(n, 0.0), Crowd(i, j, 0.0))
  }

  lemma ZerosPass(l: Limit, n: nat)
    requires l.window > 0.0 && n < l.max
    ensures Passes([l], Repeat(n, 0.0), 0.0)
  {
    ZerosCount(n, -l.window, 0.0, l.edge);
  }

  lemma Checks(l: Limit, k: nat, n: nat, j: nat, steps: Trace<Step>)
    requires l.window > 0.0 && n < l.max && j < k
    requires Reaches(l, k, steps, n, 0, j)
    ensures Reaches(l, k, Then(steps, Admit(j, 0.0)), n, 0, j + 1)
  {
    CrowdValues(0, j, 0.0);
    CrowdValues(0, j + 1, 0.0);
    ZerosPass(l, n);
  }

  lemma Records(l: Limit, k: nat, n: nat, i: nat, j: nat, steps: Trace<Step>)
    requires i < j <= k
    requires Reaches(l, k, steps, n, i, j)
    ensures Reaches(l, k, Then(steps, Commit(i, 0.0)), n + 1, i + 1, j)
  {
    CrowdDrop(i, j, 0.0);
  }

  /** `n` requests one after the other, all of it at time 0. */
  lemma {:induction false} FillsUp(l: Limit, k: nat, n: nat) returns (steps: Trace<Step>)
    requires l.window > 0.0 && n <= l.max && k >= 1
    ensures Reaches(l, k, steps, n, 0, 0)
  {
    if n == 0 {
      return Start;
    }
    var before := FillsUp(l, k, n - 1);
    Checks(l, k, n - 1, 0, before);
    Records(l, k, n - 1, 0, 1, Then(before, Admit(0, 0.0)));
    steps := Then(Then(before, Admit(0, 0.0)), Commit(0, 0.0));
    assert Crowd<Time>(1, 1, 0.0) == Crowd<Time>(0, 0, 0.0);
  }

  /** Then `j` checks before any of their records. */
  lemma {:induction false} AllCheck(l: Limit, k: nat, n: nat, j: nat) returns (steps: Trace<Step>)
    requires l.window > 0.0 && n < l.max && j <= k && k >= 1
    ensures Reaches(l, k, steps, n, 0, j)
  {
    if j == 0 {
      steps := FillsUp(l, k, n);
    } else {
      var before := AllCheck(l, k, n, j - 1);
      Checks(l, k, n, j - 1, before);
      steps := Then(before, Admit(j - 1, 0.0));
    }
  }

  /** A run within the rules whose records fill one window with `total` of them. */
  ghost predicate Fills(l: Limit, k: nat, steps: Trace<Step>, total: nat) {
    Overlapping([l], k, steps) && InWindow(Run(steps).rows, l, -l.window) == total
  }

  lemma AllInWindow(l: Limit, k: nat, steps: Trace<Step>, total: nat)
    requires l.window > 0.0 && Reaches(l, k, steps, total, k, k)
    ensures Fills(l, k, steps, total)
  {
    ZerosCount(total, -l.window, 0.0, l.edge);
  }

  /** Then all of their records, from request `i` on. */
  lemma {:induction false} AllRecord(l: Limit, k: nat, n: nat, i: nat, before: Trace<Step>)
    requires l.window > 0.0 && i <= k
    requires Reaches(l, k, before, n, i, k)
    ensures exists steps, total: nat :: total == n + k - i && Fills(l, k, steps, total)
    decreases k - i
  {
    if i == k {
      AllInWindow(l, k, before, n);
    } else {
      Records(l, k, n, i, k, before);
      AllRecord(l, k, n + 1, i + 1, Then(before, Commit(i, 0.0)));
    }
  }

  /** The bound is reached, for every cap and every overlap. */
  lemma OverlapBoundIsTight(l: Limit, k: nat)
    requires l.max >= 1 && l.window > 0.0 && k >= 1
    ensures exists steps, total: nat :: total == l.max + k - 1 && Fills(l, k, steps, total)
  {
    var checked := AllCheck(l, k, l.max - 1, k);
    AllRecord(l, k, l.max - 1, 0, checked);
  }
}
