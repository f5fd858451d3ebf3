/**
 One dashboard among beacons and sweeps. Its queries share a range but not a
 moment; what a sweep between two of them can change, when, and when it cannot.
 */
module ReportRuns {
  import opened Prelude
  import opened Tables
  import opened Events
  import opened Groups
  import opened EventRuns
  import opened Dashboard
  import DashboardLaws
  import SectionLaws
  import A = Admission

  function AskAt(s: Store, id: nat, section: Section, w: World): Reply {
    Respond(s, Query(id, section, s.clock), w)
  }

  /** The active visitors shown are the sessions with a row of the last five minutes. */
  lemma ActiveIsExact(s: Store, now: Time, w: World)
    ensures Respond(s, Active(now), w)
         == EventRuns.Count(|set r | r in s.rows && r.createdAt >= now - 300.0 :: r.body.session|)
  {
    SectionLaws.ActiveVisitorsAreExact(s.rows, now);
  }

  // ---- Exactly when a sweep shows ------------------------------------------

  lemma MissingShows(swept: Store, kept: Store, id: nat, w: World)
    requires Related(swept, kept) && id in swept.reports
    ensures AskAt(swept, id, EventsQuery, w) == AskAt(kept, id, EventsQuery, w) <==> NoneMissing(swept, id)
    ensures NoneMissing(swept, id) ==> forall section :: AskAt(swept, id, section, w) == AskAt(kept, id, section, w)
  {
    assert DifferBy(swept.rows, swept.removed, kept.rows, swept.reports[id]);
  }

  /**
   At any moment of any run, every query of an open dashboard is answered as if
   no sweep had ever run exactly when no sweep has removed a row of its range,
   and the total number of events alone tells.
   */
  lemma SectionsTellSweeps(steps: Trace<Step>, id: nat, w: World)
    requires Legal(steps) && id in Run(steps).reports
    ensures NoneMissing(Run(steps), id)
       <==> AskAt(Run(steps), id, EventsQuery, w) == AskAt(Run(Erase(steps)), id, EventsQuery, w)
    ensures NoneMissing(Run(steps), id)
       <==> forall section :: AskAt(Run(steps), id, section, w) == AskAt(Run(Erase(steps)), id, section, w)
  {
    SweepsUnseen(steps, w);
    MissingShows(Run(steps), Run(Erase(steps)), id, w);
  }

  // ---- When it cannot ------------------------------------------------------

  lemma StepKeepsReport(s: Store, step: Step, id: nat)
    requires Timely(s, step) && id in s.reports
    ensures id in Apply(s, step).reports && Apply(s, step).reports[id] == s.reports[id]
  {
  }

  lemma {:induction false} RangeIsFixed(longer: Trace<Step>, steps: Trace<Step>, id: nat)
    requires Legal(longer) && Extends(longer, steps) && id in Run(steps).reports
    ensures id in Run(longer).reports && Run(longer).reports[id] == Run(steps).reports[id]
  {
    if longer != steps {
      RangeIsFixed(longer.before, steps, id);
      StepKeepsReport(Run(longer.before), longer.last, id);
    }
  }

  lemma RangeOf(steps: Trace<Step>, id: nat, days: nat, openedAt: Time, longer: Trace<Step>)
    requires Legal(longer) && Extends(longer, Then(steps, OpenReport(id, days, openedAt)))
    ensures id in Run(longer).reports && Run(longer).reports[id] == RangeStart(openedAt, days)
  {
    var start := Then(steps, OpenReport(id, days, openedAt));
    assert id in Run(start).reports && Run(start).reports[id] == RangeStart(openedAt, days);
    RangeIsFixed(longer, start, id);
  }

  lemma StaysOld(steps: Trace<Step>)
    requires Legal(steps)
    ensures RemovedOld(Run(steps))
  {
    SweepsUnseen(steps, World(map[], t => 0));
  }

  lemma YoungRange(s: Store, id: nat, days: nat, openedAt: Time)
    requires RemovedOld(s) && id in s.reports && s.reports[id] == RangeStart(openedAt, days)
    requires s.clock - openedAt <= 90.0 * DAY - days as Time * DAY
    ensures InTime(s, id)
  {
  }

  /**
   A range of `days` is safe for the `90 - days` days after its dashboard was
   opened: a range of up to 89 days for a whole day, one of 90 days not at all.
   */
  lemma PromptIsInTime(steps: Trace<Step>, id: nat, days: nat, openedAt: Time, longer: Trace<Step>)
    requires Legal(longer) && Extends(longer, Then(steps, OpenReport(id, days, openedAt)))
    requires Run(longer).clock - openedAt <= 90.0 * DAY - days as Time * DAY
    ensures InTime(Run(longer), id)
  {
    RangeOf(steps, id, days, openedAt, longer);
    StaysOld(longer);
    YoungRange(Run(longer), id, days, openedAt);
  }

  // ---- When it can ---------------------------------------------------------

  /** One event stored at the very start of the range of a dashboard opened later. */
  function OpenedRun(e: Event, days: nat, openedAt: Time): Trace<Step> {
    var since := RangeStart(openedAt, days);
    Then(Then(Then(Start, Arrive(0, false, e, since)), Commit(0, since, since)), OpenReport(1, days, openedAt))
  }

  /** Its total is taken, a sweep runs, and its other queries follow. */
  function SplitRun(e: Event, days: nat, openedAt: Time, sweptAt: Time): Trace<Step> {
    Then(Then(OpenedRun(e, days, openedAt), Query(1, EventsQuery, openedAt)), Sweep(sweptAt))
  }

  lemma OpenedState(e: Event, days: nat, openedAt: Time)
    requires e.session != "" && e.kind != PageView && RangeStart(openedAt, days) >= 0.0
    ensures Legal(OpenedRun(e, days, openedAt))
    ensures var since := RangeStart(openedAt, days);
            var s := Run(OpenedRun(e, days, openedAt));
            s.rows == [Row(since, e)] && s.reports == map[1 := since] && s.clock == openedAt && s.sweptAt == None
  {
    var since := RangeStart(openedAt, days);
    var arrived := Then(Start, Arrive(0, false, e, since));
    assert CountInWindow([], e.session, since) == 0;
    assert Run(arrived).waiting == map[0 := Inserting(e, since, since)];
    var stored := Then(arrived, Commit(0, since, since));
    assert Run(stored).rows == [Row(since, e)];
    assert Legal(stored);
    assert openedAt >= since;
  }

  lemma SweptAway(s: Store, row: Row<Event>, queriedAt: Time, sweptAt: Time)
    requires s.rows == [row] && row.createdAt < sweptAt - ANALYTICS_RETENTION
    ensures var after := Apply(Apply(s, Query(1, EventsQuery, queriedAt)), Sweep(sweptAt));
            after.rows == [] && after.reports == s.reports && after.clock == sweptAt
  {
    SinceSnoc([], row, sweptAt - ANALYTICS_RETENTION);
    assert [] + [row] == [row];
  }

  lemma AnswerToOne(s: Store, row: Row<Event>, w: World)
    requires 1 in s.reports && s.rows == [row] && row.createdAt >= s.reports[1]
    ensures AskAt(s, 1, EventsQuery, w) == Shown(Number(1))
  {
    SinceSnoc([], row, s.reports[1]);
    assert [] + [row] == [row];
  }

  /** No event of any type. */
  ghost predicate CountsNothing(answer: Reply) {
    answer.Shown? && answer.answer.PerType? && Total(answer.answer.types) == 0
  }

  lemma AnswerToNone(s: Store, w: World)
    requires 1 in s.reports && s.rows == []
    ensures CountsNothing(AskAt(s, 1, BreakdownQuery, w))
  {
    hide DeviceBreakdown, Referrers, TopPages, TopProjects, Timeseries, HourlyActivity, LanguageDistribution;
    DashboardLaws.BreakdownTotal([]);
  }

  lemma SplitState(e: Event, days: nat, openedAt: Time, sweptAt: Time)
    requires e.session != "" && e.kind != PageView
    requires 0.0 <= RangeStart(openedAt, days) < sweptAt - ANALYTICS_RETENTION && openedAt <= sweptAt
    ensures Legal(SplitRun(e, days, openedAt, sweptAt))
    ensures var s := Run(SplitRun(e, days, openedAt, sweptAt)); s.rows == [] && 1 in s.reports && s.clock == sweptAt
  {
    OpenedState(e, days, openedAt);
    SweptAway(Run(OpenedRun(e, days, openedAt)), Row(RangeStart(openedAt, days), e), openedAt, sweptAt);
  }

  /**
   The proviso cannot be spared: whenever a sweep reaches into the range of an
   open dashboard, as every sweep after the opening does at 90 days, there is a
   run in which its parts contradict each other: one event in total, none of any
   type.
   */
  lemma SweepSplitsReport(e: Event, days: nat, openedAt: Time, sweptAt: Time, w: World)
    requires e.session != "" && e.kind != PageView
    requires 0.0 <= RangeStart(openedAt, days) < sweptAt - ANALYTICS_RETENTION && openedAt <= sweptAt
    ensures Legal(SplitRun(e, days, openedAt, sweptAt))
    ensures AskAt(Run(OpenedRun(e, days, openedAt)), 1, EventsQuery, w) == Shown(Number(1))
    ensures CountsNothing(AskAt(Run(SplitRun(e, days, openedAt, sweptAt)), 1, BreakdownQuery, w))
  {
    OpenedState(e, days, openedAt);
    AnswerToOne(Run(OpenedRun(e, days, openedAt)), Row(RangeStart(openedAt, days), e), w);
    SplitState(e, days, openedAt, sweptAt);
    AnswerToNone(Run(SplitRun(e, days, openedAt, sweptAt)), w);
  }

  // ---- Nothing in between --------------------------------------------------

  lemma {:induction false} CounterAt(rows: Rows, types: seq<EventType>, kind: EventType)
    requires kind in types
    ensures CounterOf(types, Totals(rows, types), kind) == |OfType(rows, kind)|
  {
    if types[0] != kind {
      CounterAt(rows, types[1..], kind);
      assert Totals(rows, types)[1..] == Totals(rows, types[1..]);
    }
  }

  lemma SectionOfReport(rows: Rows, section: Section, titles: map<string, string>, bucket: Time -> int)
    ensures Ask(rows, section, titles, bucket) == PartOf(Compose(rows, titles, bucket), section)
  {
    if section.KindQuery? {
      DashboardLaws.TypesCovered(section.kind);
      CounterAt(rows, ALL_TYPES, section.kind);
    }
  }

  predicate IsRead(step: Step) {
    step.OpenReport? || step.Query? || step.Active?
  }

  ghost predicate QuietSince(longer: Trace<Step>, steps: Trace<Step>) {
    longer == steps || (longer.Then? && IsRead(longer.last) && QuietSince(longer.before, steps))
  }

  lemma {:induction false} QuietKeepsRows(longer: Trace<Step>, steps: Trace<Step>)
    requires QuietSince(longer, steps)
    ensures Run(longer).rows == Run(steps).rows && Extends(longer, steps)
  {
    if longer != steps {
      QuietKeepsRows(longer.before, steps);
    }
  }

  lemma SameRowsSameReport(s: Store, rows: Rows, id: nat, days: nat, openedAt: Time, section: Section, w: World)
    requires id in s.reports && s.reports[id] == RangeStart(openedAt, days) && s.rows == rows
    ensures AskAt(s, id, section, w) == Shown(PartOf(GetAnalytics(rows, openedAt, days, w.titles, w.bucket), section))
  {
    SectionOfReport(Since(rows, RangeStart(openedAt, days)), section, w.titles, w.bucket);
  }

  /** Each query of a dashboard, however late, is answered from the table of its own moment. */
  lemma QueryIsOfItsMoment(steps: Trace<Step>, id: nat, days: nat, openedAt: Time,
                           query: Trace<Step>, section: Section, w: World)
    requires Legal(query) && Extends(query, Then(steps, OpenReport(id, days, openedAt)))
    ensures AskAt(Run(query), id, section, w)
         == Shown(PartOf(GetAnalytics(Run(query).rows, openedAt, days, w.titles, w.bucket), section))
  {
    RangeOf(steps, id, days, openedAt, query);
    SameRowsSameReport(Run(query), Run(query).rows, id, days, openedAt, section, w);
  }

  /** With nothing stored or swept in between, the queries together are one report of one table. */
  lemma QuietReportIsSnapshot(steps: Trace<Step>, id: nat, days: nat, openedAt: Time, longer: Trace<Step>,
                              section: Section, w: World)
    requires Legal(longer) && QuietSince(longer, Then(steps, OpenReport(id, days, openedAt)))
    ensures AskAt(Run(longer), id, section, w)
         == Shown(PartOf(GetAnalytics(Run(steps).rows, openedAt, days, w.titles, w.bucket), section))
  {
    QuietKeepsRows(longer, Then(steps, OpenReport(id, days, openedAt)));
    assert Run(longer).rows == Run(steps).rows;
    hide Run, Legal, GetAnalytics, PartOf, AskAt;
    QueryIsOfItsMoment(steps, id, days, openedAt, longer, section, w);
  }

  // ---- Beacons in between --------------------------------------------------

  /** Rows of a range are only ever added to it, until a sweep takes one. */
  lemma StepGrows(s: Store, step: Step, id: nat)
    requires Timely(s, step) && id in s.reports && NoneMissing(Apply(s, step), id)
    ensures NoneMissing(s, id)
    ensures Since(s.rows, s.reports[id]) <= Since(Apply(s, step).rows, s.reports[id])
  {
    var since := s.reports[id];
    StepKeepsReport(s, step, id);
    match step {
      case Commit(other, stamp, _) => SinceSnoc(s.rows, Row(stamp, s.waiting[other].event), since);
      case Sweep(now) =>
        SinceConcat(s.removed, Before(s.rows, now - ANALYTICS_RETENTION), since);
        PurgeSplits(s.rows, now - ANALYTICS_RETENTION, since);
      case _ =>
    }
  }

  lemma {:induction false} RangeGrows(longer: Trace<Step>, steps: Trace<Step>, id: nat)
    requires Legal(longer) && Extends(longer, steps) && id in Run(steps).reports && NoneMissing(Run(longer), id)
    ensures NoneMissing(Run(steps), id) && id in Run(longer).reports
    ensures Since(Run(steps).rows, Run(steps).reports[id]) <= Since(Run(longer).rows, Run(steps).reports[id])
  {
    if longer != steps {
      var s := Run(longer.before);
      RangeIsFixed(longer.before, steps, id);
      StepGrows(s, longer.last, id);
      RangeGrows(longer.before, steps, id);
    }
  }

  lemma {:induction false} TypeGrows(a: Rows, b: Rows, kind: EventType)
    requires a <= b
    ensures OfType(a, kind) <= OfType(b, kind)
  {
    if |a| < |b| {
      TypeGrows(a, b[..|b| - 1], kind);
    } else {
      assert a == b;
    }
  }

  lemma SessionsGrow(a: Rows, b: Rows)
    requires a <= b
    ensures |SessionSet(a)| <= |SessionSet(b)|
  {
    forall r | r in a
      ensures r in b
    {
      var i :| 0 <= i < |a| && a[i] == r;
      assert b[i] == r;
    }
    A.SubsetSize(SessionSet(a), SessionSet(b));
  }

  /** The counters of the summary. */
  predicate IsCounter(section: Section) {
    section.KindQuery? || section.EventsQuery? || section.SessionsQuery?
  }

  /** A counter of the summary for the rows of a range. */
  function Counter(rows: Rows, section: Section): nat
    requires IsCounter(section)
  {
    match section
    case KindQuery(kind) => |OfType(rows, kind)|
    case EventsQuery => |rows|
    case SessionsQuery => |SessionSet(OfType(rows, PageView))|
  }

  lemma CountersGrow(a: Rows, b: Rows, section: Section)
    requires a <= b && IsCounter(section)
    ensures Counter(a, section) <= Counter(b, section)
  {
    match section {
      case KindQuery(kind) => TypeGrows(a, b, kind);
      case EventsQuery =>
      case SessionsQuery =>
        TypeGrows(a, b, PageView);
        SessionsGrow(OfType(a, PageView), OfType(b, PageView));
    }
  }

  lemma CounterIsAsked(s: Store, id: nat, section: Section, w: World)
    requires id in s.reports && IsCounter(section)
    ensures AskAt(s, id, section, w) == Shown(Number(Counter(Since(s.rows, s.reports[id]), section)))
  {
  }

  /**
   With beacons between its queries and no sweep of its range, every counter that
   a dashboard shows lies between its values at the opening and at the end.
   */
  lemma CountersLieBetween(steps: Trace<Step>, id: nat, days: nat, openedAt: Time,
                           query: Trace<Step>, end: Trace<Step>, section: Section, w: World)
    requires Legal(query) && Extends(query, Then(steps, OpenReport(id, days, openedAt)))
    requires Legal(end) && Extends(end, query) && NoneMissing(Run(end), id) && IsCounter(section)
    ensures var since := RangeStart(openedAt, days);
            var n := Counter(Since(Run(query).rows, since), section);
            && AskAt(Run(query), id, section, w) == Shown(Number(n))
            && Counter(Since(Run(steps).rows, since), section) <= n <= Counter(Since(Run(end).rows, since), section)
  {
    hide NoneMissing, Legal, Counter;
    var start, since := Then(steps, OpenReport(id, days, openedAt)), RangeStart(openedAt, days);
    RangeOf(steps, id, days, openedAt, query);
    RangeGrows(end, query, id);
    assert id in Run(start).reports && Run(start).reports[id] == since && Run(start).rows == Run(steps).rows;
    RangeGrows(query, start, id);
    CountersGrow(Since(Run(steps).rows, since), Since(Run(query).rows, since), section);
    CountersGrow(Since(Run(query).rows, since), Since(Run(end).rows, since), section);
    CounterIsAsked(Run(query), id, section, w);
  }
}
