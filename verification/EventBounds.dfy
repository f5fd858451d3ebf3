/**
 How many events a session stores, and how often the same page view. The
 statements are about every row ever stored, swept away since or not.
 */
module EventBounds {
  import opened Prelude
  import opened Windows
  import opened Tables
  import opened Events
  import opened EventRuns
  import A = Admission

  const CAP := A.Limit(EVENT_RATE_LIMIT_MAX, EVENT_RATE_LIMIT_WINDOW, Closed)

  /** The duplicate check is a cap of one. */
  function Once(lag: Time): A.Limit {
    A.Limit(1, PAGE_VIEW_DEDUP_WINDOW - lag, Closed)
  }

  /** Requests of a session between their count and their row. */
  function PendingOf(s: Store, session: string): map<nat, Time> {
    map id | id in s.waiting && s.waiting[id].event.session == session :: s.waiting[id].countedAt
  }

  /**
   Page views of one path between their duplicate check and their row, which is
   stamped at most `lag` before the check.
   */
  function CheckedViews(s: Store, session: string, path: Option<string>, lag: Time): map<nat, Time> {
    map id | id in s.waiting && s.waiting[id].Inserting? && IsView(s.waiting[id].event, session, path)
      :: s.waiting[id].clearedAt - lag
  }

  function GateOf(s: Store, session: string): A.Gate {
    A.Gate(StampsOf(s.rows, session), PendingOf(s, session))
  }

  function ViewGate(s: Store, session: string, path: Option<string>, lag: Time): A.Gate {
    A.Gate(ViewsOf(s.rows, session, path), CheckedViews(s, session, path, lag))
  }

  ghost predicate OverlapAtMost(steps: Trace<Step>, session: string, k: nat) {
    |PendingOf(Run(steps), session)| <= k && (steps.Then? ==> OverlapAtMost(steps.before, session, k))
  }

  ghost predicate SweepFree(steps: Trace<Step>) {
    steps.Then? ==> !steps.last.Sweep? && SweepFree(steps.before)
  }

  ghost predicate LagAtMost(steps: Trace<Step>, lag: Time) {
    match steps
    case Start => true
    case Then(before, last) =>
      && LagAtMost(before, lag)
      && (last.Commit? && last.id in Run(before).waiting && Run(before).waiting[last.id].Inserting? ==>
            Run(before).waiting[last.id].clearedAt - last.stamp <= lag)
  }

  lemma StampsSnoc(rows: Rows, row: Row<Event>, session: string)
    ensures StampsOf(rows + [row], session) ==
            if row.body.session == session then StampsOf(rows, session) + [row.createdAt] else StampsOf(rows, session)
  {
    assert (rows + [row])[..|rows|] == rows;
  }

  lemma ViewsSnoc(rows: Rows, row: Row<Event>, session: string, path: Option<string>)
    ensures ViewsOf(rows + [row], session, path) ==
            if IsView(row.body, session, path) then ViewsOf(rows, session, path) + [row.createdAt]
            else ViewsOf(rows, session, path)
  {
    assert (rows + [row])[..|rows|] == rows;
  }

  // ---- Sixty a minute ------------------------------------------------------

  lemma PendingSet(s: Store, s': Store, id: nat, p: Phase, session: string)
    requires s'.waiting == s.waiting[id := p]
    ensures PendingOf(s', session) ==
            if p.event.session == session then PendingOf(s, session)[id := p.countedAt]
            else PendingOf(s, session) - {id}
  {
  }

  lemma PendingRemoved(s: Store, s': Store, id: nat, session: string)
    requires s'.waiting == s.waiting - {id}
    ensures PendingOf(s', session) == PendingOf(s, session) - {id}
  {
  }

  lemma WaitingBound(s: Store, s': Store, id: nat, p: Phase, session: string, k: nat, lo: Time)
    requires id !in s.waiting && s'.rows == s.rows && s'.waiting == s.waiting[id := p] && k >= 1
    requires CountInWindow(s.rows, p.event.session, p.countedAt) < EVENT_RATE_LIMIT_MAX
    requires |PendingOf(s', session)| <= k
    requires A.Load(GateOf(s, session), CAP, lo) <= 60 + k - 1
    ensures A.Load(GateOf(s', session), CAP, lo) <= 60 + k - 1
  {
    PendingSet(s, s', id, p, session);
    if p.event.session == session {
      A.AdmittedKeepsLoad(CAP, k, GateOf(s, session), GateOf(s', session), id, p.countedAt, lo);
    } else {
      A.Absent(PendingOf(s, session), id);
    }
  }

  lemma ArrivedWaits(s: Store, step: Step)
    requires step.Arrive? && Timely(s, step) && step.id in Apply(s, step).waiting
    ensures var after := Apply(s, step);
            && after.rows == s.rows && after.waiting == s.waiting[step.id := after.waiting[step.id]]
            && after.waiting[step.id].event == step.event && after.waiting[step.id].countedAt == step.now
            && CountInWindow(s.rows, step.event.session, step.now) < EVENT_RATE_LIMIT_MAX
  {
  }

  lemma ArriveBound(s: Store, step: Step, session: string, k: nat, lo: Time)
    requires step.Arrive? && Timely(s, step) && k >= 1
    requires |PendingOf(Apply(s, step), session)| <= k
    requires A.Load(GateOf(s, session), CAP, lo) <= 60 + k - 1
    ensures A.Load(GateOf(Apply(s, step), session), CAP, lo) <= 60 + k - 1
  {
    var after := Apply(s, step);
    if step.id in after.waiting {
      ArrivedWaits(s, step);
      WaitingBound(s, after, step.id, after.waiting[step.id], session, k, lo);
    } else {
      assert after.waiting == s.waiting;
      assert GateOf(after, session) == GateOf(s, session);
    }
  }

  lemma DedupBound(s: Store, id: nat, now: Time, session: string, lo: Time)
    requires Timely(s, Dedup(id, now))
    ensures A.Load(GateOf(Apply(s, Dedup(id, now)), session), CAP, lo) <= A.Load(GateOf(s, session), CAP, lo)
  {
    var after := Apply(s, Dedup(id, now));
    if id in after.waiting {
      PendingSet(s, after, id, after.waiting[id], session);
      assert PendingOf(after, session) == PendingOf(s, session);
    } else {
      PendingRemoved(s, after, id, session);
      A.AbandonKeepsLoad(CAP, GateOf(s, session), id, lo);
    }
  }

  lemma CommitBound(s: Store, id: nat, stamp: Time, now: Time, session: string, lo: Time)
    requires Timely(s, Commit(id, stamp, now))
    ensures A.Load(GateOf(Apply(s, Commit(id, stamp, now)), session), CAP, lo) <= A.Load(GateOf(s, session), CAP, lo)
  {
    StampsSnoc(s.rows, Row(stamp, s.waiting[id].event), session);
    PendingRemoved(s, Apply(s, Commit(id, stamp, now)), id, session);
    A.AbandonKeepsLoad(CAP, GateOf(s, session), id, lo);
    if s.waiting[id].event.session == session {
      A.CommitKeepsLoad(CAP, GateOf(s, session), id, stamp, lo);
    }
  }

  lemma AbortBound(s: Store, id: nat, now: Time, session: string, lo: Time)
    ensures A.Load(GateOf(Apply(s, Abort(id, now)), session), CAP, lo) <= A.Load(GateOf(s, session), CAP, lo)
  {
    PendingRemoved(s, Apply(s, Abort(id, now)), id, session);
    A.AbandonKeepsLoad(CAP, GateOf(s, session), id, lo);
  }

  lemma {:induction false} SweepFreeBound(steps: Trace<Step>, session: string, k: nat, lo: Time)
    requires Legal(steps) && SweepFree(steps) && OverlapAtMost(steps, session, k) && k >= 1
    ensures A.Load(GateOf(Run(steps), session), CAP, lo) <= 60 + k - 1
  {
    match steps {
      case Start =>
        assert PendingOf(NO_EVENTS, session) == map[];
        assert A.Early(map[], lo + 60.0) == {};
      case Then(before, last) =>
        SweepFreeBound(before, session, k, lo);
        match last {
          case Arrive(_, _, _, _) => ArriveBound(Run(before), last, session, k, lo);
          case Dedup(id, now) => DedupBound(Run(before), id, now, session, lo);
          case Commit(id, stamp, now) => CommitBound(Run(before), id, stamp, now, session, lo);
          case Abort(id, now) => AbortBound(Run(before), id, now, session, lo);
          case Active(_) => assert GateOf(Run(steps), session) == GateOf(Run(before), session);
          case OpenReport(_, _, _) => assert GateOf(Run(steps), session) == GateOf(Run(before), session);
          case Query(_, _, _) => assert GateOf(Run(steps), session) == GateOf(Run(before), session);
        }
    }
  }

  // ---- One page view per half minute ---------------------------------------

  lemma ViewSet(s: Store, s': Store, id: nat, p: Phase, session: string, path: Option<string>, lag: Time)
    requires s'.waiting == s.waiting[id := p]
    ensures CheckedViews(s', session, path, lag) ==
            if p.Inserting? && IsView(p.event, session, path) then
              CheckedViews(s, session, path, lag)[id := p.clearedAt - lag]
            else CheckedViews(s, session, path, lag) - {id}
  {
  }

  lemma ViewRemoved(s: Store, s': Store, id: nat, session: string, path: Option<string>, lag: Time)
    requires s'.waiting == s.waiting - {id}
    ensures CheckedViews(s', session, path, lag) == CheckedViews(s, session, path, lag) - {id}
  {
  }

  lemma ClearedPasses(s: Store, e: Event, now: Time, lag: Time)
    requires !IsDuplicate(s.rows, e, now)
    ensures CountAfter(ViewsOf(s.rows, e.session, PathOf(e)), (now - lag) - Once(lag).window, Closed) < 1
  {
    assert (now - lag) - (PAGE_VIEW_DEDUP_WINDOW - lag) == now - PAGE_VIEW_DEDUP_WINDOW;
  }

  lemma ViewCleared(s: Store, s': Store, id: nat, p: Phase, session: string, path: Option<string>, lag: Time)
    requires id in s.waiting && s.waiting[id].Deduping? && p.Inserting? && s'.waiting == s.waiting[id := p]
    ensures id !in CheckedViews(s, session, path, lag)
    ensures IsView(p.event, session, path) ==>
              CheckedViews(s', session, path, lag) == CheckedViews(s, session, path, lag)[id := p.clearedAt - lag]
    ensures !IsView(p.event, session, path) ==>
              CheckedViews(s', session, path, lag) == CheckedViews(s, session, path, lag)
  {
    ViewSet(s, s', id, p, session, path, lag);
    A.Absent(CheckedViews(s, session, path, lag), id);
  }

  lemma ClearedBound(s: Store, s': Store, id: nat, p: Phase, session: string, path: Option<string>, k: nat,
                     lag: Time, lo: Time)
    requires id in s.waiting && s.waiting[id].Deduping? && p.Inserting? && k >= 1
    requires s'.rows == s.rows && s'.waiting == s.waiting[id := p]
    requires !IsDuplicate(s.rows, p.event, p.clearedAt)
    requires |CheckedViews(s', session, path, lag)| <= k
    requires A.Load(ViewGate(s, session, path, lag), Once(lag), lo) <= k
    ensures A.Load(ViewGate(s', session, path, lag), Once(lag), lo) <= k
  {
    hide CheckedViews, ViewsOf, IsDuplicate, A.Load;
    ViewCleared(s, s', id, p, session, path, lag);
    var g, g' := ViewGate(s, session, path, lag), ViewGate(s', session, path, lag);
    if IsView(p.event, session, path) {
      ClearedPasses(s, p.event, p.clearedAt, lag);
      A.AdmittedKeepsLoad(Once(lag), k, g, g', id, p.clearedAt - lag, lo);
    } else {
      assert g' == g;
    }
  }

  lemma DedupViews(s: Store, id: nat, now: Time, session: string, path: Option<string>, k: nat, lag: Time, lo: Time)
    requires Timely(s, Dedup(id, now)) && k >= 1
    requires |CheckedViews(Apply(s, Dedup(id, now)), session, path, lag)| <= k
    requires A.Load(ViewGate(s, session, path, lag), Once(lag), lo) <= k
    ensures A.Load(ViewGate(Apply(s, Dedup(id, now)), session, path, lag), Once(lag), lo) <= k
  {
    var after, views := Apply(s, Dedup(id, now)), CheckedViews(s, session, path, lag);
    if id in after.waiting {
      ClearedBound(s, after, id, after.waiting[id], session, path, k, lag, lo);
    } else {
      ViewRemoved(s, after, id, session, path, lag);
      A.Absent(views, id);
    }
  }

  /** An arrival that needs no duplicate check is no page view. */
  lemma ArriveViews(s: Store, step: Step, session: string, path: Option<string>, lag: Time)
    requires step.Arrive? && Timely(s, step)
    ensures ViewGate(Apply(s, step), session, path, lag) == ViewGate(s, session, path, lag)
  {
    var after, id := Apply(s, step), step.id;
    if id in after.waiting {
      ViewSet(s, after, id, after.waiting[id], session, path, lag);
      A.Absent(CheckedViews(s, session, path, lag), id);
    }
  }

  lemma CommitViews(s: Store, id: nat, stamp: Time, now: Time, session: string, path: Option<string>, lag: Time,
                    lo: Time)
    requires Timely(s, Commit(id, stamp, now)) && s.waiting[id].clearedAt - stamp <= lag
    ensures A.Load(ViewGate(Apply(s, Commit(id, stamp, now)), session, path, lag), Once(lag), lo)
         <= A.Load(ViewGate(s, session, path, lag), Once(lag), lo)
  {
    ViewsSnoc(s.rows, Row(stamp, s.waiting[id].event), session, path);
    ViewRemoved(s, Apply(s, Commit(id, stamp, now)), id, session, path, lag);
    A.AbandonKeepsLoad(Once(lag), ViewGate(s, session, path, lag), id, lo);
    if IsView(s.waiting[id].event, session, path) {
      A.CommitKeepsLoad(Once(lag), ViewGate(s, session, path, lag), id, stamp, lo);
    }
  }

  lemma AbortViews(s: Store, id: nat, now: Time, session: string, path: Option<string>, lag: Time, lo: Time)
    ensures A.Load(ViewGate(Apply(s, Abort(id, now)), session, path, lag), Once(lag), lo)
         <= A.Load(ViewGate(s, session, path, lag), Once(lag), lo)
  {
    ViewRemoved(s, Apply(s, Abort(id, now)), id, session, path, lag);
    A.AbandonKeepsLoad(Once(lag), ViewGate(s, session, path, lag), id, lo);
  }

  /** Never more than k requests for one page between their duplicate check and their row. */
  ghost predicate ViewsOverlapAtMost(steps: Trace<Step>, session: string, path: Option<string>, k: nat, lag: Time) {
    && |CheckedViews(Run(steps), session, path, lag)| <= k
    && (steps.Then? ==> ViewsOverlapAtMost(steps.before, session, path, k, lag))
  }

  lemma {:induction false} SweepFreeViews(steps: Trace<Step>, session: string, path: Option<string>, k: nat,
                                          lag: Time, lo: Time)
    requires Legal(steps) && SweepFree(steps) && LagAtMost(steps, lag)
    requires ViewsOverlapAtMost(steps, session, path, k, lag) && k >= 1
    ensures A.Load(ViewGate(Run(steps), session, path, lag), Once(lag), lo) <= k
  {
    match steps {
      case Start =>
        assert CheckedViews(NO_EVENTS, session, path, lag) == map[];
        assert A.Early(map[], lo + Once(lag).window) == {};
      case Then(before, last) =>
        SweepFreeViews(before, session, path, k, lag, lo);
        var s, s' := Run(before), Run(steps);
        match last {
          case Arrive(_, _, _, _) => ArriveViews(s, last, session, path, lag);
          case Dedup(id, now) => DedupViews(s, id, now, session, path, k, lag, lo);
          case Commit(id, stamp, now) => CommitViews(s, id, stamp, now, session, path, lag, lo);
          case Abort(id, now) => AbortViews(s, id, now, session, path, lag, lo);
          case Active(_) => assert ViewGate(s', session, path, lag) == ViewGate(s, session, path, lag);
          case OpenReport(_, _, _) => assert ViewGate(s', session, path, lag) == ViewGate(s, session, path, lag);
          case Query(_, _, _) => assert ViewGate(s', session, path, lag) == ViewGate(s, session, path, lag);
        }
    }
  }

  // ---- Over every run ------------------------------------------------------

  lemma {:induction false} EraseKeepsOverlap(steps: Trace<Step>, session: string, k: nat)
    requires Legal(steps) && OverlapAtMost(steps, session, k)
    ensures SweepFree(Erase(steps)) && OverlapAtMost(Erase(steps), session, k)
  {
    EraseKeepsWaiting(steps);
    assert PendingOf(Run(Erase(steps)), session) == PendingOf(Run(steps), session);
    if steps.Then? {
      EraseKeepsOverlap(steps.before, session, k);
    }
  }

  lemma {:induction false} EraseKeepsLag(steps: Trace<Step>, lag: Time)
    requires Legal(steps) && LagAtMost(steps, lag)
    ensures LagAtMost(Erase(steps), lag)
  {
    if steps.Then? {
      EraseKeepsWaiting(steps.before);
      EraseKeepsLag(steps.before, lag);
    }
  }

  /** A run without its sweeps has the same requests in between. */
  lemma EraseKeepsWaiting(steps: Trace<Step>)
    requires Legal(steps)
    ensures Legal(Erase(steps)) && Run(Erase(steps)).waiting == Run(steps).waiting
  {
    SweepsUnseen(steps, World(map[], t => 0));
  }

  /** Every row a run ever stored. */
  function AllRows(steps: Trace<Step>): Rows {
    Run(Erase(steps)).rows
  }

  /**
   Over every interleaving of requests and sweeps, no closed minute holds more
   than sixty rows of a session and its k - 1 overlapping requests.
   */
  lemma SessionCap(steps: Trace<Step>, session: string, k: nat, lo: Time)
    requires Legal(steps) && OverlapAtMost(steps, session, k) && k >= 1
    ensures CountIn(StampsOf(AllRows(steps), session), lo, lo + 60.0, Closed) <= 60 + k - 1
  {
    EraseKeepsWaiting(steps);
    EraseKeepsOverlap(steps, session, k);
    SweepFreeBound(Erase(steps), session, k, lo);
  }

  lemma CheckedArePending(s: Store, session: string, path: Option<string>, lag: Time)
    ensures |CheckedViews(s, session, path, lag)| <= |PendingOf(s, session)|
  {
    var views, pending := CheckedViews(s, session, path, lag), PendingOf(s, session);
    assert |views.Keys| == |views| && |pending.Keys| == |pending|;
    A.SubsetSize(views.Keys, pending.Keys);
  }

  lemma {:induction false} OverlapOfViews(steps: Trace<Step>, session: string, path: Option<string>, k: nat, lag: Time)
    requires OverlapAtMost(steps, session, k)
    ensures ViewsOverlapAtMost(steps, session, path, k, lag)
  {
    CheckedArePending(Run(steps), session, path, lag);
    if steps.Then? {
      OverlapOfViews(steps.before, session, path, k, lag);
    }
  }

  lemma ErasedViews(steps: Trace<Step>, session: string, path: Option<string>, k: nat, lag: Time, lo: Time)
    requires Legal(steps) && OverlapAtMost(steps, session, k) && LagAtMost(steps, lag) && k >= 1
    ensures A.Load(ViewGate(Run(Erase(steps)), session, path, lag), Once(lag), lo) <= k
  {
    EraseKeepsWaiting(steps);
    EraseKeepsOverlap(steps, session, k);
    EraseKeepsLag(steps, lag);
    OverlapOfViews(Erase(steps), session, path, k, lag);
    SweepFreeViews(Erase(steps), session, path, k, lag, lo);
  }

  /** k overlapping requests store at most k views of one page in any half minute. */
  lemma ViewCap(steps: Trace<Step>, session: string, path: Option<string>, k: nat, lag: Time, lo: Time)
    requires Legal(steps) && OverlapAtMost(steps, session, k) && LagAtMost(steps, lag) && k >= 1
    ensures CountIn(ViewsOf(AllRows(steps), session, path), lo, lo + (PAGE_VIEW_DEDUP_WINDOW - lag), Closed) <= k
  {
    hide Run, Erase, ViewsOf, CheckedViews;
    ErasedViews(steps, session, path, k, lag, lo);
  }

  /**
   With the events of a session handled one at a time, two stored views of one
   page, or of no page, are more than thirty seconds apart, less the lag.
   */
  lemma ViewsApart(steps: Trace<Step>, session: string, path: Option<string>, lag: Time, i: nat, j: nat)
    requires Legal(steps) && OverlapAtMost(steps, session, 1) && LagAtMost(steps, lag)
    requires i < j < |ViewsOf(AllRows(steps), session, path)|
    ensures var t := ViewsOf(AllRows(steps), session, path);
            t[j] - t[i] > PAGE_VIEW_DEDUP_WINDOW - lag || t[i] - t[j] > PAGE_VIEW_DEDUP_WINDOW - lag
  {
    hide Run, Erase, ViewsOf, Legal, OverlapAtMost, LagAtMost;
    var t := ViewsOf(AllRows(steps), session, path);
    var lo := if t[i] < t[j] then t[i] else t[j];
    ViewCap(steps, session, path, 1, lag, lo);
    if t[i] <= lo + (PAGE_VIEW_DEDUP_WINDOW - lag) && t[j] <= lo + (PAGE_VIEW_DEDUP_WINDOW - lag) {
      CountInPair(t, i, j, lo, lo + (PAGE_VIEW_DEDUP_WINDOW - lag));
    }
  }

  /** A beacon is answered "recorded" exactly when its step adds a row, and no other step adds one. */
  lemma RecordedIffStored(s: Store, step: Step, w: World)
    requires Timely(s, step)
    ensures Respond(s, step, w) == Recorded <==> |Apply(s, step).rows| == |s.rows| + 1
    ensures Respond(s, step, w) != Recorded ==> |Apply(s, step).rows| <= |s.rows|
  {
    if step.Sweep? {
      PurgePartitions(s.rows, step.now - ANALYTICS_RETENTION);
    }
  }
}
