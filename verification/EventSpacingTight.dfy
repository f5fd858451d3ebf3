/**
 The spacing of equal page views is exact: what the lag between a stamp and its
 duplicate check may take from the thirty seconds, some run does take.
 */
module EventSpacingTight {
  import opened Prelude
  import opened Windows
  import opened Tables
  import opened Events
  import opened EventRuns
  import opened EventBounds
  import EventTight

  /** A run of single requests of a session. */
  ghost predicate Sound(steps: Trace<Step>, session: string, lag: Time) {
    Legal(steps) && SweepFree(steps) && OverlapAtMost(steps, session, 1) && LagAtMost(steps, lag)
  }

  /** With the given rows and no request in between. */
  ghost predicate Quiet(steps: Trace<Step>, session: string, lag: Time, rows: Rows, clock: Time) {
    Sound(steps, session, lag) && Run(steps).rows == rows && Run(steps).waiting == map[] && Run(steps).clock == clock
  }

  lemma FewPending(s: Store, session: string)
    requires s.waiting == map[] || exists p :: s.waiting == map[0 := p]
    ensures |PendingOf(s, session)| <= 1
  {
    if s.waiting == map[] {
      assert PendingOf(s, session) == map[];
    } else {
      var p :| s.waiting == map[0 := p];
      assert PendingOf(s, session) == if p.event.session == session then map[0 := p.countedAt] else map[];
    }
  }

  lemma Extend(steps: Trace<Step>, s: Step, session: string, lag: Time, waiting: map<nat, Phase>)
    requires Sound(steps, session, lag) && Timely(Run(steps), s) && !s.Sweep?
    requires s.Commit? ==> Run(steps).waiting[s.id].clearedAt - s.stamp <= lag
    requires Apply(Run(steps), s).waiting == waiting && (waiting == map[] || exists p :: waiting == map[0 := p])
    ensures Sound(Then(steps, s), session, lag) && Run(Then(steps, s)) == Apply(Run(steps), s)
  {
    hide Timely, PendingOf, Apply;
    FewPending(Apply(Run(steps), s), session);
  }

  lemma ViewStates(s: Store, e: Event, at: Time, measured: Time)
    requires s.waiting == map[] && s.clock <= at <= measured && e.kind == PageView && e.session != ""
    requires CountInWindow(s.rows, e.session, at) < EVENT_RATE_LIMIT_MAX && !IsDuplicate(s.rows, e, measured)
    ensures var s1 := Apply(s, Arrive(0, false, e, at));
            var s2 := Apply(s1, Dedup(0, measured));
            var s3 := Apply(s2, Commit(0, at, measured));
            && Timely(s, Arrive(0, false, e, at)) && Timely(s1, Dedup(0, measured))
                && Timely(s2, Commit(0, at, measured))
            && s1.waiting == map[0 := Deduping(e, at)] && s2.waiting == map[0 := Inserting(e, at, measured)]
            && s3.waiting == map[] && s3.rows == s.rows + [Row(at, e)] && s3.clock == measured
  {
  }

  /** One page view, stamped with its count and written at its duplicate check. */
  lemma Views(steps: Trace<Step>, e: Event, lag: Time, rows: Rows, clock: Time, at: Time, measured: Time)
    returns (longer: Trace<Step>)
    requires Quiet(steps, e.session, lag, rows, clock) && clock <= at <= measured <= at + lag
    requires e.kind == PageView && e.session != ""
    requires CountInWindow(rows, e.session, at) < EVENT_RATE_LIMIT_MAX && !IsDuplicate(rows, e, measured)
    ensures Quiet(longer, e.session, lag, rows + [Row(at, e)], measured)
  {
    hide Sound, Apply, Timely, CountInWindow, IsDuplicate;
    ViewStates(Run(steps), e, at, measured);
    Extend(steps, Arrive(0, false, e, at), e.session, lag, map[0 := Deduping(e, at)]);
    var arrived := Then(steps, Arrive(0, false, e, at));
    Extend(arrived, Dedup(0, measured), e.session, lag, map[0 := Inserting(e, at, measured)]);
    var cleared := Then(arrived, Dedup(0, measured));
    Extend(cleared, Commit(0, at, measured), e.session, lag, map[]);
    longer := Then(cleared, Commit(0, at, measured));
  }

  /** One request of the session at a time, and two stored views of one page so far apart. */
  ghost predicate Gap(steps: Trace<Step>, session: string, path: Option<string>, lag: Time, gap: Time) {
    && Legal(steps) && OverlapAtMost(steps, session, 1) && LagAtMost(steps, lag)
    && var t := ViewsOf(AllRows(steps), session, path);
       exists i, j :: 0 <= i < j < |t| && Apart(t[i], t[j]) == gap
  }

  function Apart(a: Time, b: Time): Time {
    if a <= b then b - a else a - b
  }

  lemma GapOfTwo(steps: Trace<Step>, e: Event, lag: Time, gap: Time, clock: Time)
    requires Quiet(steps, e.session, lag, [Row(0.0, e), Row(gap, e)], clock) && e.kind == PageView && gap >= 0.0
    ensures Gap(steps, e.session, PathOf(e), lag, gap)
  {
    EventTight.NothingToErase(steps);
    TwoViews(e, gap);
    var t := ViewsOf(AllRows(steps), e.session, PathOf(e));
    assert Apart(t[0], t[1]) == gap;
  }

  lemma OneStamp(e: Event, at: Time)
    requires e.kind == PageView
    ensures StampsOf([Row(at, e)], e.session) == [at] && ViewsOf([Row(at, e)], e.session, PathOf(e)) == [at]
  {
    StampsSnoc([], Row(at, e), e.session);
    ViewsSnoc([], Row(at, e), e.session, PathOf(e));
    assert [] + [Row(at, e)] == [Row(at, e)];
  }

  lemma TwoViews(e: Event, gap: Time)
    requires e.kind == PageView
    ensures ViewsOf([Row(0.0, e), Row(gap, e)], e.session, PathOf(e)) == [0.0, gap]
  {
    OneStamp(e, 0.0);
    ViewsSnoc([Row(0.0, e)], Row(gap, e), e.session, PathOf(e));
    assert [Row(0.0, e)] + [Row(gap, e)] == [Row(0.0, e), Row(gap, e)];
  }

  lemma SecondPasses(e: Event, gap: Time, measured: Time)
    requires e.kind == PageView && measured > PAGE_VIEW_DEDUP_WINDOW
    ensures CountInWindow([Row(0.0, e)], e.session, gap) <= 1 && !IsDuplicate([Row(0.0, e)], e, measured)
  {
    OneStamp(e, 0.0);
    CountAfterAtMostAll([0.0], gap - EVENT_RATE_LIMIT_WINDOW, Closed);
    CountAfterNone([0.0], measured - PAGE_VIEW_DEDUP_WINDOW, Closed);
  }

  lemma StartIsQuiet(session: string, lag: Time)
    ensures Quiet(Start, session, lag, [], 0.0)
  {
    assert PendingOf(NO_EVENTS, session) == map[];
  }

  lemma GapIsReached(e: Event, lag: Time, gap: Time)
    requires e.session != "" && e.kind == PageView && lag >= 0.0 && gap >= 0.0 && gap > PAGE_VIEW_DEDUP_WINDOW - lag
    ensures exists steps :: Gap(steps, e.session, PathOf(e), lag, gap)
  {
    hide Quiet, Gap;
    StartIsQuiet(e.session, lag);
    var one := Views(Start, e, lag, [], 0.0, 0.0, 0.0);
    assert [] + [Row(0.0, e)] == [Row(0.0, e)];
    SecondPasses(e, gap, gap + lag);
    var two := Views(one, e, lag, [Row(0.0, e)], 0.0, gap, gap + lag);
    assert [Row(0.0, e)] + [Row(gap, e)] == [Row(0.0, e), Row(gap, e)];
    GapOfTwo(two, e, lag, gap, gap + lag);
  }

  lemma GapIsLarge(steps: Trace<Step>, session: string, path: Option<string>, lag: Time, gap: Time)
    requires Gap(steps, session, path, lag, gap)
    ensures gap > PAGE_VIEW_DEDUP_WINDOW - lag
  {
    var t := ViewsOf(AllRows(steps), session, path);
    var i, j :| 0 <= i < j < |t| && Apart(t[i], t[j]) == gap;
    ViewsApart(steps, session, path, lag, i, j);
  }

  /**
   With one request of the session at a time and stamps at most `lag` before
   their duplicate check, two views of one page can be stored exactly so far
   apart as `ViewsApart` leaves: more than thirty seconds less the lag.
   */
  lemma GapsExactly(e: Event, lag: Time, gap: Time)
    requires e.session != "" && e.kind == PageView && lag >= 0.0 && gap >= 0.0
    ensures (exists steps :: Gap(steps, e.session, PathOf(e), lag, gap)) <==> gap > PAGE_VIEW_DEDUP_WINDOW - lag
  {
    hide Gap;
    if gap > PAGE_VIEW_DEDUP_WINDOW - lag {
      GapIsReached(e, lag, gap);
    }
    forall steps | Gap(steps, e.session, PathOf(e), lag, gap)
      ensures gap > PAGE_VIEW_DEDUP_WINDOW - lag
    {
      GapIsLarge(steps, e.session, PathOf(e), lag, gap);
    }
  }

  /** Stored views of one page are more than thirty seconds apart. */
  ghost predicate HalfMinuteApart(session: string, path: Option<string>, lag: Time) {
    forall steps, gap :: Gap(steps, session, path, lag, gap) ==> gap > PAGE_VIEW_DEDUP_WINDOW
  }

  /** That holds of the stored stamps of every such run exactly when none precedes its duplicate check. */
  lemma HalfMinuteNeedsNoLag(e: Event, lag: Time)
    requires e.session != "" && e.kind == PageView
    ensures HalfMinuteApart(e.session, PathOf(e), lag) <==> lag <= 0.0
  {
    hide Gap;
    if lag > 0.0 {
      GapIsReached(e, lag, PAGE_VIEW_DEDUP_WINDOW);
      assert !HalfMinuteApart(e.session, PathOf(e), lag);
    } else {
      forall steps, gap | Gap(steps, e.session, PathOf(e), lag, gap)
        ensures gap > PAGE_VIEW_DEDUP_WINDOW
      {
        GapIsLarge(steps, e.session, PathOf(e), lag, gap);
      }
    }
  }
}
