/**
 Tracking beacons interleaving: a request counts its session's rows, looks for
 a duplicate page view, and inserts its row, each step possibly long after the
 one before, with other requests, dashboards and retention sweeps in between. A
 request may also end before its row, by an error of the database or its client
 leaving.
 A dashboard fixes the start of its range once and then runs its queries one by
 one, so a sweep or a beacon may come between any two of them. The calendar and
 the project titles of the dashboard are parameters of a run.

 Beside the table each state carries two things that the program does not keep:
 every row that a sweep has removed, and the time of the last sweep.
 */
module EventRuns {
  import opened Prelude
  import opened Windows
  import opened Tables
  import opened Events
  import Dashboard

  const EVENT_RATE_LIMIT_WINDOW: Time := 60.0
  const EVENT_RATE_LIMIT_MAX: nat := 60
  const PAGE_VIEW_DEDUP_WINDOW: Time := 30.0

  /** Where a request is suspended, with the row it is going to insert. */
  datatype Phase =
    | Deduping(event: Event, countedAt: Time)
    | Inserting(event: Event, countedAt: Time, clearedAt: Time)

  /** `reports` holds the start of the range of each dashboard opened. */
  datatype Store = Store(
    rows: Rows,
    waiting: map<nat, Phase>,
    reports: map<nat, Time>,
    clock: Time,
    removed: Rows,
    sweptAt: Option<Time>)

  datatype Step =
    | Arrive(id: nat, bot: bool, event: Event, now: Time)
    | Dedup(id: nat, now: Time)
    | Commit(id: nat, stamp: Time, now: Time)
    | Abort(id: nat, now: Time)
    | Active(now: Time)
    | OpenReport(id: nat, days: nat, now: Time)
    | Query(id: nat, section: Dashboard.Section, now: Time)
    | Sweep(now: Time)

  datatype Reply =
    | Proceed
    | Ignored
    | RateLimited
    | Recorded
    | Aborted
    | Count(n: nat)
    | Shown(answer: Dashboard.Answer)
    | Swept

  datatype World = World(titles: map<string, string>, bucket: Time -> int)

  const NO_EVENTS := Store([], map[], map[], 0.0, [], None)

  /** When the session stored events. */
  function StampsOf(rows: Rows, session: string): seq<Time> {
    if |rows| == 0 then []
    else
      var front, last := StampsOf(rows[..|rows| - 1], session), rows[|rows| - 1];
      if last.body.session == session then front + [last.createdAt] else front
  }

  /** A page view of the session with the same path; two absent paths are the same. */
  predicate IsView(e: Event, session: string, path: Option<string>) {
    e.kind == PageView && e.session == session && PathOf(e) == path
  }

  function ViewsOf(rows: Rows, session: string, path: Option<string>): seq<Time> {
    if |rows| == 0 then []
    else
      var front, last := ViewsOf(rows[..|rows| - 1], session, path), rows[|rows| - 1];
      if IsView(last.body, session, path) then front + [last.createdAt] else front
  }

  function CountInWindow(rows: Rows, session: string, now: Time): nat {
    CountAfter(StampsOf(rows, session), now - EVENT_RATE_LIMIT_WINDOW, Closed)
  }

  predicate IsDuplicate(rows: Rows, e: Event, now: Time) {
    CountAfter(ViewsOf(rows, e.session, PathOf(e)), now - PAGE_VIEW_DEDUP_WINDOW, Closed) > 0
  }

  function Respond(s: Store, step: Step, w: World): Reply {
    match step
    case Arrive(_, bot, e, now) =>
      if e.session == "" || bot then Ignored
      else if CountInWindow(s.rows, e.session, now) >= EVENT_RATE_LIMIT_MAX then RateLimited
      else Proceed
    case Dedup(id, now) =>
      if id in s.waiting && IsDuplicate(s.rows, s.waiting[id].event, now) then Ignored else Proceed
    case Commit(_, _, _) => Recorded
    case Abort(_, _) => Aborted
    case Active(now) => Count(Dashboard.ActiveVisitors(s.rows, now))
    case OpenReport(_, _, _) => Proceed
    case Query(id, section, _) =>
      if id in s.reports then Shown(Dashboard.Ask(Since(s.rows, s.reports[id]), section, w.titles, w.bucket))
      else Proceed
    case Sweep(_) => Swept
  }

  function Apply(s: Store, step: Step): Store {
    match step
    case Arrive(id, bot, e, now) =>
      if e.session == "" || bot || CountInWindow(s.rows, e.session, now) >= EVENT_RATE_LIMIT_MAX then s.(clock := now)
      else if e.kind == PageView then s.(waiting := s.waiting[id := Deduping(e, now)], clock := now)
      else s.(waiting := s.waiting[id := Inserting(e, now, now)], clock := now)
    case Dedup(id, now) =>
      if id !in s.waiting then s
      else if IsDuplicate(s.rows, s.waiting[id].event, now) then s.(waiting := s.waiting - {id}, clock := now)
      else s.(waiting := s.waiting[id := Inserting(s.waiting[id].event, s.waiting[id].countedAt, now)], clock := now)
    case Commit(id, stamp, now) =>
      if id !in s.waiting then s
      else s.(rows := s.rows + [Row(stamp, s.waiting[id].event)], waiting := s.waiting - {id}, clock := now)
    case Abort(id, now) => s.(waiting := s.waiting - {id}, clock := now)
    case Active(now) => s.(clock := now)
    case OpenReport(id, days, now) => s.(reports := s.reports[id := Dashboard.RangeStart(now, days)], clock := now)
    case Query(_, _, now) => s.(clock := now)
    case Sweep(now) =>
      s.(rows := Since(s.rows, now - ANALYTICS_RETENTION),
         removed := s.removed + Before(s.rows, now - ANALYTICS_RETENTION),
         sweptAt := Some(now),
         clock := now)
  }

  /** Clock order and the order of the service; rows are stamped with the start of their transaction. */
  predicate Timely(s: Store, step: Step) {
    s.clock <= step.now &&
    match step
    case Arrive(id, _, _, _) => id !in s.waiting
    case Dedup(id, _) => id in s.waiting && s.waiting[id].Deduping?
    case Commit(id, stamp, now) =>
        id in s.waiting && s.waiting[id].Inserting? && s.waiting[id].countedAt <= stamp <= now
    case Abort(id, _) => id in s.waiting
    case OpenReport(id, _, _) => id !in s.reports
    case Query(id, _, _) => id in s.reports
    case _ => true
  }

  function Run(steps: Trace<Step>): Store {
    match steps
    case Start => NO_EVENTS
    case Then(before, last) => Apply(Run(before), last)
  }

  ghost predicate Legal(steps: Trace<Step>) {
    match steps
    case Start => true
    case Then(before, last) => Legal(before) && Timely(Run(before), last)
  }

  // ---- Sweeps leave every answer alone -------------------------------------

  /** No sweep has removed a row of the report's range. */
  ghost predicate NoneMissing(s: Store, id: nat) {
    id in s.reports && Since(s.removed, s.reports[id]) == []
  }

  /** Every query is made before a sweep removes a row of its range. */
  ghost predicate ReportsWhole(steps: Trace<Step>) {
    steps.Then? ==> ReportsWhole(steps.before) && (steps.last.Query? ==> NoneMissing(Run(steps.before), steps.last.id))
  }

  /** From a moment on, two tables differ by the rows removed from the one, and agree if there are none. */
  ghost predicate DifferBy(left: Rows, removed: Rows, all: Rows, since: Time) {
    && |Since(left, since)| + |Since(removed, since)| == |Since(all, since)|
    && (Since(removed, since) == [] ==> Since(left, since) == Since(all, since))
  }

  /** What is removed was past its retention at the last sweep. */
  ghost predicate RemovedOld(s: Store) {
    match s.sweptAt
    case None => s.removed == []
    case Some(t) => t <= s.clock && Since(s.removed, t - ANALYTICS_RETENTION) == []
  }

  ghost predicate Related(swept: Store, kept: Store) {
    && swept.waiting == kept.waiting
    && swept.reports == kept.reports
    && kept.clock <= swept.clock
    && RemovedOld(swept)
    && (forall t: Time :: DifferBy(swept.rows, swept.removed, kept.rows, t))
  }

  /** The last sweep stopped short of the report's range. */
  predicate InTime(s: Store, id: nat) {
    id in s.reports && (s.sweptAt.Some? ==> s.sweptAt.value - ANALYTICS_RETENTION <= s.reports[id])
  }

  lemma InTimeIsWhole(s: Store, id: nat)
    requires RemovedOld(s) && InTime(s, id)
    ensures NoneMissing(s, id)
  {
    if s.sweptAt.Some? {
      NoneLater(s.removed, s.sweptAt.value - ANALYTICS_RETENTION, s.reports[id]);
    }
  }

  lemma DifferStill(left: Rows, removed: Rows, all: Rows, row: Row<Event>, since: Time)
    requires DifferBy(left, removed, all, since)
    ensures DifferBy(left + [row], removed, all + [row], since)
  {
    SinceSnoc(left, row, since);
    SinceSnoc(all, row, since);
  }

  lemma DifferMore(left: Rows, removed: Rows, all: Rows, cut: Time, since: Time)
    requires DifferBy(left, removed, all, since)
    ensures DifferBy(Since(left, cut), removed + Before(left, cut), all, since)
  {
    SinceConcat(removed, Before(left, cut), since);
    PurgeSplits(left, cut, since);
  }

  /** What is younger than the retention has not been removed. */
  lemma AgreeSince(swept: Store, kept: Store, since: Time)
    requires Related(swept, kept) && swept.clock - ANALYTICS_RETENTION <= since
    ensures Since(swept.rows, since) == Since(kept.rows, since)
  {
    assert DifferBy(swept.rows, swept.removed, kept.rows, since);
    if swept.sweptAt.Some? {
      NoneLater(swept.removed, swept.sweptAt.value - ANALYTICS_RETENTION, since);
    }
  }

  lemma {:induction false} SinceStamps(rows: Rows, session: string, cutoff: Time)
    ensures CountAfter(StampsOf(Since(rows, cutoff), session), cutoff, Closed)
              == CountAfter(StampsOf(rows, session), cutoff, Closed)
  {
    if |rows| > 0 {
      var front, last := rows[..|rows| - 1], rows[|rows| - 1];
      SinceStamps(front, session, cutoff);
      var kept := Since(front, cutoff);
      assert (kept + [last])[..|kept|] == kept;
      CountAfterSnoc(StampsOf(front, session), last.createdAt, cutoff, Closed);
      CountAfterSnoc(StampsOf(kept, session), last.createdAt, cutoff, Closed);
    }
  }

  lemma {:induction false} SinceViews(rows: Rows, session: string, path: Option<string>, cutoff: Time)
    ensures CountAfter(ViewsOf(Since(rows, cutoff), session, path), cutoff, Closed)
         == CountAfter(ViewsOf(rows, session, path), cutoff, Closed)
  {
    if |rows| > 0 {
      var front, last := rows[..|rows| - 1], rows[|rows| - 1];
      SinceViews(front, session, path, cutoff);
      var kept := Since(front, cutoff);
      assert (kept + [last])[..|kept|] == kept;
      CountAfterSnoc(ViewsOf(front, session, path), last.createdAt, cutoff, Closed);
      CountAfterSnoc(ViewsOf(kept, session, path), last.createdAt, cutoff, Closed);
    }
  }

  lemma SameCount(a: Rows, b: Rows, session: string, now: Time)
    requires Since(a, now - EVENT_RATE_LIMIT_WINDOW) == Since(b, now - EVENT_RATE_LIMIT_WINDOW)
    ensures CountInWindow(a, session, now) == CountInWindow(b, session, now)
  {
    SinceStamps(a, session, now - EVENT_RATE_LIMIT_WINDOW);
    SinceStamps(b, session, now - EVENT_RATE_LIMIT_WINDOW);
  }

  lemma SameDuplicate(a: Rows, b: Rows, e: Event, now: Time)
    requires Since(a, now - PAGE_VIEW_DEDUP_WINDOW) == Since(b, now - PAGE_VIEW_DEDUP_WINDOW)
    ensures IsDuplicate(a, e, now) == IsDuplicate(b, e, now)
  {
    SinceViews(a, e.session, PathOf(e), now - PAGE_VIEW_DEDUP_WINDOW);
    SinceViews(b, e.session, PathOf(e), now - PAGE_VIEW_DEDUP_WINDOW);
  }

  lemma SweepRelated(swept: Store, kept: Store, now: Time)
    requires Related(swept, kept) && swept.clock <= now
    ensures Related(Apply(swept, Sweep(now)), kept)
  {
    var cut := now - ANALYTICS_RETENTION;
    forall t: Time
      ensures DifferBy(Since(swept.rows, cut), swept.removed + Before(swept.rows, cut), kept.rows, t)
    {
      DifferMore(swept.rows, swept.removed, kept.rows, cut, t);
    }
    SinceConcat(swept.removed, Before(swept.rows, cut), cut);
    PurgedAreOld(swept.rows, cut);
    if swept.sweptAt.Some? {
      NoneLater(swept.removed, swept.sweptAt.value - ANALYTICS_RETENTION, cut);
    }
  }

  lemma CommitRelated(swept: Store, kept: Store, id: nat, stamp: Time, now: Time)
    requires Related(swept, kept) && Timely(swept, Commit(id, stamp, now))
    ensures Related(Apply(swept, Commit(id, stamp, now)), Apply(kept, Commit(id, stamp, now)))
  {
    forall t: Time
      ensures DifferBy(swept.rows + [Row(stamp, swept.waiting[id].event)], swept.removed,
                       kept.rows + [Row(stamp, swept.waiting[id].event)], t)
    {
      DifferStill(swept.rows, swept.removed, kept.rows, Row(stamp, swept.waiting[id].event), t);
    }
  }

  /** The two decisions of a beacon see the same rows, and so does the count of active visitors. */
  lemma SameDecision(swept: Store, kept: Store, step: Step)
    requires Related(swept, kept) && Timely(swept, step)
    ensures step.Arrive? ==>
              CountInWindow(swept.rows, step.event.session, step.now)
                  == CountInWindow(kept.rows, step.event.session, step.now)
    ensures step.Dedup? ==>
              var e := swept.waiting[step.id].event;
              IsDuplicate(swept.rows, e, step.now) == IsDuplicate(kept.rows, e, step.now)
    ensures step.Active? ==>
              Dashboard.ActiveVisitors(swept.rows, step.now) == Dashboard.ActiveVisitors(kept.rows, step.now)
  {
    match step {
      case Arrive(_, _, e, now) =>
        AgreeSince(swept, kept, now - EVENT_RATE_LIMIT_WINDOW);
        SameCount(swept.rows, kept.rows, e.session, now);
      case Dedup(id, now) =>
        AgreeSince(swept, kept, now - PAGE_VIEW_DEDUP_WINDOW);
        SameDuplicate(swept.rows, kept.rows, swept.waiting[id].event, now);
      case Active(now) =>
        AgreeSince(swept, kept, now - Dashboard.ACTIVE_VISITOR_WINDOW_MINUTES * MINUTE);
      case _ =>
    }
  }

  lemma SameRange(swept: Store, kept: Store, id: nat)
    requires Related(swept, kept) && id in swept.reports
    ensures NoneMissing(swept, id) ==> Since(swept.rows, swept.reports[id]) == Since(kept.rows, swept.reports[id])
  {
    assert DifferBy(swept.rows, swept.removed, kept.rows, swept.reports[id]);
  }

  lemma StepRelated(swept: Store, kept: Store, step: Step, w: World)
    requires Related(swept, kept) && Timely(swept, step)
    ensures step.Sweep? ==> Related(Apply(swept, step), kept)
    ensures !step.Sweep? ==> Timely(kept, step) && Related(Apply(swept, step), Apply(kept, step))
    ensures !step.Sweep? && (step.Query? ==> NoneMissing(swept, step.id)) ==>
              Respond(swept, step, w) == Respond(kept, step, w)
  {
    hide IsDuplicate, CountInWindow, DifferBy, Before, Dashboard.Ask, Dashboard.ActiveVisitors;
    SameDecision(swept, kept, step);
    match step {
      case Commit(id, stamp, now) => CommitRelated(swept, kept, id, stamp, now);
      case Sweep(now) => SweepRelated(swept, kept, now);
      case Query(id, _, _) => SameRange(swept, kept, id);
      case _ =>
    }
  }

  function Erase(steps: Trace<Step>): Trace<Step> {
    match steps
    case Start => Start
    case Then(before, last) => if last.Sweep? then Erase(before) else Then(Erase(before), last)
  }

  /** What is left is every step but the sweeps, each as often as before. */
  lemma {:induction false} ErasedIsExact(steps: Trace<Step>, x: Step)
    ensures Times(Erase(steps), x) == if x.Sweep? then 0 else Times(steps, x)
  {
    if steps.Then? {
      ErasedIsExact(steps.before, x);
    }
  }

  function Replies(steps: Trace<Step>, w: World): seq<Reply> {
    match steps
    case Start => []
    case Then(before, last) =>
      if last.Sweep? then Replies(before, w) else Replies(before, w) + [Respond(Run(before), last, w)]
  }

  lemma NothingRelated()
    ensures Related(NO_EVENTS, NO_EVENTS)
  {
    assert forall t: Time :: DifferBy([], [], [], t);
  }

  /**
   Sweeps inserted anywhere change no answer of any run, as long as no dashboard
   query comes after a sweep of its range.
   */
  lemma {:induction false} SweepsUnseen(steps: Trace<Step>, w: World)
    requires Legal(steps)
    ensures Legal(Erase(steps)) && Related(Run(steps), Run(Erase(steps)))
    ensures ReportsWhole(steps) ==> Replies(steps, w) == Replies(Erase(steps), w)
    ensures ReportsWhole(steps) && steps.Then? && !steps.last.Sweep? ==>
              Respond(Run(steps.before), steps.last, w) == Respond(Run(Erase(steps.before)), steps.last, w)
  {
    match steps {
      case Start => NothingRelated();
      case Then(before, last) =>
        SweepsUnseen(before, w);
        StepRelated(Run(before), Run(Erase(before)), last, w);
    }
  }

  // ---- The two decisions, row by row ---------------------------------------

  /** The positions of a session's rows from a moment on. */
  function SessionSince(rows: Rows, session: string, cutoff: Time): set<int> {
    set i | 0 <= i < |rows| && rows[i].body.session == session && rows[i].createdAt >= cutoff
  }

  /** The session viewed the page, or no page, from a moment on. */
  ghost predicate ViewedSince(rows: Rows, session: string, path: Option<string>, cutoff: Time) {
    exists i :: 0 <= i < |rows| && IsViewSince(rows[i], session, path, cutoff)
  }

  predicate IsViewSince(row: Row<Event>, session: string, path: Option<string>, cutoff: Time) {
    && row.body.kind == PageView && row.body.session == session && row.createdAt >= cutoff
    && (match path
        case None => "path" !in row.body.metadata
        case Some(p) => "path" in row.body.metadata && row.body.metadata["path"] == p)
  }

  lemma SessionSinceSnoc(rows: Rows, row: Row<Event>, session: string, cutoff: Time)
    ensures |SessionSince(rows + [row], session, cutoff)| == |SessionSince(rows, session, cutoff)|
            + if row.body.session == session && row.createdAt >= cutoff then 1 else 0
  {
    var n, before := |rows|, SessionSince(rows, session, cutoff);
    assert SessionSince(rows + [row], session, cutoff) ==
           if n in SessionSince(rows + [row], session, cutoff) then before + {n} else before;
  }

  lemma {:induction false} StampsCount(rows: Rows, session: string, cutoff: Time)
    ensures CountAfter(StampsOf(rows, session), cutoff, Closed) == |SessionSince(rows, session, cutoff)|
  {
    if |rows| > 0 {
      var front, last := rows[..|rows| - 1], rows[|rows| - 1];
      StampsCount(front, session, cutoff);
      SessionSinceSnoc(front, last, session, cutoff);
      CountAfterSnoc(StampsOf(front, session), last.createdAt, cutoff, Closed);
      assert rows == front + [last];
    }
  }

  lemma {:induction false} ViewsSome(rows: Rows, session: string, path: Option<string>, cutoff: Time)
    ensures CountAfter(ViewsOf(rows, session, path), cutoff, Closed) > 0 <==> ViewedSince(rows, session, path, cutoff)
  {
    if |rows| > 0 {
      var front, last := rows[..|rows| - 1], rows[|rows| - 1];
      ViewsSome(front, session, path, cutoff);
      CountAfterSnoc(ViewsOf(front, session, path), last.createdAt, cutoff, Closed);
      assert IsViewSince(last, session, path, cutoff) <==> IsView(last.body, session, path) && last.createdAt >= cutoff;
      if i :| 0 <= i < |front| && IsViewSince(front[i], session, path, cutoff) {
        assert rows[i] == front[i];
      }
      assert forall i :: 0 <= i < |rows| - 1 ==> rows[i] == front[i];
    }
  }

  /** The count is over the last minute, the duplicate check over the last thirty seconds. */
  lemma DecisionsAreExact(rows: Rows, e: Event, now: Time)
    ensures CountInWindow(rows, e.session, now) == |SessionSince(rows, e.session, now - 60.0)|
    ensures IsDuplicate(rows, e, now) <==> ViewedSince(rows, e.session, PathOf(e), now - 30.0)
  {
    StampsCount(rows, e.session, now - 60.0);
    ViewsSome(rows, e.session, PathOf(e), now - 30.0);
  }
}
