/** The two bounds on stored beacons are reached, for every number of overlapping requests. */
module EventTight {
  import opened Prelude
  import opened Windows
  import opened Tables
  import opened Events
  import opened EventRuns
  import opened EventBounds
  import A = Admission

  /**
   What is stored of a session and of one of its pages, and its requests `i` up
   to `j`, all with the same event counted at `t`; those before `m` are past the
   duplicate check.
   */
  ghost predicate Stands(s: Store, e: Event, stamps: seq<Time>, views: seq<Time>, i: nat, m: nat, j: nat, t: Time) {
    && StampsOf(s.rows, e.session) == stamps && ViewsOf(s.rows, e.session, PathOf(e)) == views
    && PendingOf(s, e.session) == A.Crowd(i, j, t) && s.clock <= t
    && (forall id :: id in s.waiting ==> id < j)
    && (forall id :: id in PendingOf(s, e.session) ==>
        s.waiting[id] == if id < m then Inserting(e, t, t) else Deduping(e, t))
  }

  ghost predicate Sound(steps: Trace<Step>, session: string, k: nat) {
    Legal(steps) && SweepFree(steps) && OverlapAtMost(steps, session, k) && LagAtMost(steps, 0.0)
  }

  /** A run to such a state that respects the clock and the overlap. */
  ghost predicate Reaches(steps: Trace<Step>, e: Event, k: nat, stamps: seq<Time>, views: seq<Time>, i: nat,
                          m: nat, j: nat, t: Time) {
    Sound(steps, e.session, k) && Stands(Run(steps), e, stamps, views, i, m, j, t)
  }

  // ---- One step ------------------------------------------------------------

  lemma ArriveStands(s: Store, e: Event, stamps: seq<Time>, views: seq<Time>, i: nat, m: nat, j: nat, t: Time)
    requires Stands(s, e, stamps, views, i, m, j, t) && i <= m <= j && e.session != ""
    requires CountAfter(stamps, t - EVENT_RATE_LIMIT_WINDOW, Closed) < EVENT_RATE_LIMIT_MAX
    ensures Timely(s, Arrive(j, false, e, t))
    ensures e.kind == PageView ==> Stands(Apply(s, Arrive(j, false, e, t)), e, stamps, views, i, m, j + 1, t)
    ensures e.kind != PageView && m == j ==>
              Stands(Apply(s, Arrive(j, false, e, t)), e, stamps, views, i, m + 1, j + 1, t)
  {
    var after := Apply(s, Arrive(j, false, e, t));
    PendingSet(s, after, j, after.waiting[j], e.session);
  }

  lemma ClearedStands(s: Store, s': Store, e: Event, stamps: seq<Time>, views: seq<Time>, i: nat, m: nat,
                      j: nat, t: Time)
    requires Stands(s, e, stamps, views, i, m, j, t) && i <= m < j
    requires s' == s.(waiting := s.waiting[m := Inserting(e, t, t)], clock := t)
    ensures m in s.waiting && s.waiting[m] == Deduping(e, t)
    ensures Stands(s', e, stamps, views, i, m + 1, j, t)
  {
    A.CrowdValues(i, j, t);
    assert m in PendingOf(s, e.session);
    PendingSet(s, s', m, Inserting(e, t, t), e.session);
    assert PendingOf(s', e.session) == PendingOf(s, e.session);
  }

  lemma DedupStands(s: Store, e: Event, stamps: seq<Time>, views: seq<Time>, i: nat, m: nat, j: nat, t: Time)
    requires Stands(s, e, stamps, views, i, m, j, t) && i <= m < j
    requires CountAfter(views, t - PAGE_VIEW_DEDUP_WINDOW, Closed) == 0
    ensures Timely(s, Dedup(m, t)) && Stands(Apply(s, Dedup(m, t)), e, stamps, views, i, m + 1, j, t)
  {
    var s' := s.(waiting := s.waiting[m := Inserting(e, t, t)], clock := t);
    ClearedStands(s, s', e, stamps, views, i, m, j, t);
    assert Apply(s, Dedup(m, t)) == s';
  }

  lemma CommitStands(s: Store, e: Event, stamps: seq<Time>, views: seq<Time>, i: nat, m: nat, j: nat, t: Time)
    requires Stands(s, e, stamps, views, i, m, j, t) && i < m <= j
    ensures Timely(s, Commit(i, t, t)) && s.waiting[i] == Inserting(e, t, t)
    ensures Stands(Apply(s, Commit(i, t, t)), e,
                   stamps + [t], if e.kind == PageView then views + [t] else views, i + 1, m, j, t)
  {
    A.CrowdDrop(i, j, t);
    assert i in PendingOf(s, e.session);
    PendingRemoved(s, Apply(s, Commit(i, t, t)), i, e.session);
    StampsSnoc(s.rows, Row(t, e), e.session);
    ViewsSnoc(s.rows, Row(t, e), e.session, PathOf(e));
  }

  lemma Extend(steps: Trace<Step>, s: Step, session: string, k: nat, i: nat, j: nat, t: Time)
    requires Sound(steps, session, k) && Timely(Run(steps), s) && !s.Sweep?
    requires s.Commit? ==> Run(steps).waiting[s.id].clearedAt <= s.stamp
    requires PendingOf(Apply(Run(steps), s), session) == A.Crowd(i, j, t) && i <= j <= i + k
    ensures Sound(Then(steps, s), session, k) && Run(Then(steps, s)) == Apply(Run(steps), s)
  {
    A.CrowdValues(i, j, t);
  }

  lemma Arrives(steps: Trace<Step>, e: Event, k: nat, stamps: seq<Time>, views: seq<Time>, i: nat, m: nat,
                j: nat, t: Time)
    requires Reaches(steps, e, k, stamps, views, i, m, j, t) && i <= m <= j < i + k && e.session != ""
    requires CountAfter(stamps, t - EVENT_RATE_LIMIT_WINDOW, Closed) < EVENT_RATE_LIMIT_MAX
    ensures e.kind == PageView ==> Reaches(Then(steps, Arrive(j, false, e, t)), e, k, stamps, views, i, m, j + 1, t)
    ensures e.kind != PageView && m == j ==>
              Reaches(Then(steps, Arrive(j, false, e, t)), e, k, stamps, views, i, m + 1, j + 1, t)
  {
    hide Apply, Timely, Sound;
    if e.kind == PageView || m == j {
      ArriveStands(Run(steps), e, stamps, views, i, m, j, t);
      Extend(steps, Arrive(j, false, e, t), e.session, k, i, j + 1, t);
    }
  }

  lemma Clears(steps: Trace<Step>, e: Event, k: nat, stamps: seq<Time>, views: seq<Time>, i: nat, m: nat,
               j: nat, t: Time)
    requires Reaches(steps, e, k, stamps, views, i, m, j, t) && i <= m < j <= i + k
    requires CountAfter(views, t - PAGE_VIEW_DEDUP_WINDOW, Closed) == 0
    ensures Reaches(Then(steps, Dedup(m, t)), e, k, stamps, views, i, m + 1, j, t)
  {
    hide Apply, Timely, Sound;
    DedupStands(Run(steps), e, stamps, views, i, m, j, t);
    Extend(steps, Dedup(m, t), e.session, k, i, j, t);
  }

  lemma Commits(steps: Trace<Step>, e: Event, k: nat, stamps: seq<Time>, views: seq<Time>, i: nat, m: nat,
                j: nat, t: Time)
    requires Reaches(steps, e, k, stamps, views, i, m, j, t) && i < m <= j <= i + k
    ensures Reaches(Then(steps, Commit(i, t, t)), e, k,
                    stamps + [t], if e.kind == PageView then views + [t] else views, i + 1, m, j, t)
  {
    hide Apply, Timely, Sound;
    CommitStands(Run(steps), e, stamps, views, i, m, j, t);
    Extend(steps, Commit(i, t, t), e.session, k, i + 1, j, t);
  }

  // ---- Crowds --------------------------------------------------------------

  /** n more requests with an event that is no page view, counted before any of their rows. */
  lemma {:induction false} AllArrive(before: Trace<Step>, e: Event, k: nat, stamps: seq<Time>,
                                     views: seq<Time>, first: nat, n: nat, t: Time)
    returns (steps: Trace<Step>)
    requires Reaches(before, e, k, stamps, views, first, first, first, t) && n <= k && e.session != ""
              && e.kind != PageView
    requires CountAfter(stamps, t - EVENT_RATE_LIMIT_WINDOW, Closed) < EVENT_RATE_LIMIT_MAX
    ensures Reaches(steps, e, k, stamps, views, first, first + n, first + n, t)
  {
    hide Reaches;
    if n == 0 {
      return before;
    }
    var most := AllArrive(before, e, k, stamps, views, first, n - 1, t);
    Arrives(most, e, k, stamps, views, first, first + n - 1, first + n - 1, t);
    steps := Then(most, Arrive(first + n - 1, false, e, t));
  }

  lemma {:induction false} AllViewsArrive(before: Trace<Step>, e: Event, k: nat, stamps: seq<Time>,
                                          views: seq<Time>, first: nat, n: nat, t: Time)
    returns (steps: Trace<Step>)
    requires Reaches(before, e, k, stamps, views, first, first, first, t) && n <= k && e.session != ""
              && e.kind == PageView
    requires CountAfter(stamps, t - EVENT_RATE_LIMIT_WINDOW, Closed) < EVENT_RATE_LIMIT_MAX
    ensures Reaches(steps, e, k, stamps, views, first, first, first + n, t)
  {
    hide Reaches;
    if n == 0 {
      return before;
    }
    var most := AllViewsArrive(before, e, k, stamps, views, first, n - 1, t);
    Arrives(most, e, k, stamps, views, first, first, first + n - 1, t);
    steps := Then(most, Arrive(first + n - 1, false, e, t));
  }

  lemma {:induction false} AllClear(before: Trace<Step>, e: Event, k: nat, stamps: seq<Time>, views: seq<Time>,
                                    first: nat, n: nat, t: Time)
    returns (steps: Trace<Step>)
    requires Reaches(before, e, k, stamps, views, first, first, first + k, t) && n <= k
    requires CountAfter(views, t - PAGE_VIEW_DEDUP_WINDOW, Closed) == 0
    ensures Reaches(steps, e, k, stamps, views, first, first + n, first + k, t)
  {
    hide Reaches;
    if n == 0 {
      return before;
    }
    var most := AllClear(before, e, k, stamps, views, first, n - 1, t);
    Clears(most, e, k, stamps, views, first, first + n - 1, first + k, t);
    steps := Then(most, Dedup(first + n - 1, t));
  }

  function ViewsAfter(e: Event, views: seq<Time>, n: nat, t: Time): seq<Time> {
    if e.kind == PageView then views + Repeat(n, t) else views
  }

  lemma {:induction false} AllCommit(before: Trace<Step>, e: Event, k: nat, stamps: seq<Time>,
                                     views: seq<Time>, first: nat, n: nat, t: Time)
    returns (steps: Trace<Step>)
    requires Reaches(before, e, k, stamps, views, first, first + k, first + k, t) && n <= k
    ensures Reaches(steps, e, k, stamps + Repeat(n, t), ViewsAfter(e, views, n, t), first + n, first + k, first + k, t)
  {
    hide Reaches;
    if n == 0 {
      assert stamps + Repeat(0, t) == stamps && ViewsAfter(e, views, 0, t) == views;
      return before;
    }
    var most := AllCommit(before, e, k, stamps, views, first, n - 1, t);
    var soFar, seen := stamps + Repeat(n - 1, t), ViewsAfter(e, views, n - 1, t);
    assert stamps + Repeat(n, t) == soFar + [t];
    assert ViewsAfter(e, views, n, t) == if e.kind == PageView then seen + [t] else seen;
    Commits(most, e, k, soFar, seen, first + n - 1, first + k, first + k, t);
    steps := Then(most, Commit(first + n - 1, t, t));
  }

  lemma NothingYet(e: Event, k: nat)
    ensures Reaches(Start, e, k, [], [], 0, 0, 0, 0.0)
  {
    assert PendingOf(NO_EVENTS, e.session) == map[];
  }

  lemma {:induction false} NothingToErase(steps: Trace<Step>)
    requires SweepFree(steps)
    ensures Erase(steps) == steps
  {
    if steps.Then? {
      NothingToErase(steps.before);
    }
  }

  // ---- Sixty a minute and k - 1 --------------------------------------------

  /** n rows of a session, one after the other. */
  lemma {:induction false} OneByOne(e: Event, k: nat, n: nat) returns (steps: Trace<Step>)
    requires k >= 1 && n < EVENT_RATE_LIMIT_MAX && e.session != "" && e.kind != PageView
    ensures Reaches(steps, e, k, Repeat(n, 0.0), [], n, n, n, 0.0)
  {
    hide Reaches;
    if n == 0 {
      NothingYet(e, k);
      return Start;
    }
    var before := OneByOne(e, k, n - 1);
    RepeatAt(n - 1, 0.0);
    CountAfterAtMostAll(Repeat(n - 1, 0.0), 0.0 - EVENT_RATE_LIMIT_WINDOW, Closed);
    Arrives(before, e, k, Repeat(n - 1, 0.0), [], n - 1, n - 1, n - 1, 0.0);
    var arrived := Then(before, Arrive(n - 1, false, e, 0.0));
    Commits(arrived, e, k, Repeat(n - 1, 0.0), [], n - 1, n, n, 0.0);
    steps := Then(arrived, Commit(n - 1, 0.0, 0.0));
  }

  /** A run with at most k requests of the session in between that fills a minute beyond the cap. */
  ghost predicate FillsMinute(steps: Trace<Step>, session: string, k: nat) {
    && Legal(steps) && OverlapAtMost(steps, session, k)
    && CountIn(StampsOf(AllRows(steps), session), 0.0, 60.0, Closed) == 60 + k - 1
  }

  lemma MinuteFilled(steps: Trace<Step>, e: Event, k: nat, stamps: seq<Time>, j: nat)
    requires Reaches(steps, e, k, stamps, [], j, j, j, 0.0) && |stamps| == 60 + k - 1
    requires forall i :: 0 <= i < |stamps| ==> stamps[i] == 0.0
    ensures FillsMinute(steps, e.session, k)
  {
    NothingToErase(steps);
    CountInAll(stamps, 0.0, 60.0, Closed);
  }

  /** For every k there is a run that stores `60 + k - 1` rows of a session in a minute: `SessionCap` is exact. */
  lemma SessionCapIsReached(e: Event, k: nat)
    requires k >= 1 && e.session != "" && e.kind != PageView
    ensures exists steps :: FillsMinute(steps, e.session, k)
  {
    hide Reaches, FillsMinute;
    var before := OneByOne(e, k, 59);
    RepeatAt(59, 0.0);
    CountAfterAtMostAll(Repeat(59, 0.0), 0.0 - EVENT_RATE_LIMIT_WINDOW, Closed);
    var arrived := AllArrive(before, e, k, Repeat(59, 0.0), [], 59, k, 0.0);
    var steps := AllCommit(arrived, e, k, Repeat(59, 0.0), [], 59, k, 0.0);
    RepeatAt(k, 0.0);
    MinuteFilled(steps, e, k, Repeat(59, 0.0) + Repeat(k, 0.0), 59 + k);
  }

  // ---- k views of one page -------------------------------------------------

  lemma {:induction false} LagGrows(steps: Trace<Step>, lag: Time, more: Time)
    requires LagAtMost(steps, lag) && lag <= more
    ensures LagAtMost(steps, more)
  {
    if steps.Then? {
      LagGrows(steps.before, lag, more);
    }
  }

  /**
   A run with at most k requests of the session in between that stores k equal
   views within half a minute, less the lag.
   */
  ghost predicate Doubles(steps: Trace<Step>, session: string, path: Option<string>, k: nat, lag: Time) {
    && Legal(steps) && OverlapAtMost(steps, session, k) && LagAtMost(steps, lag)
    && CountIn(ViewsOf(AllRows(steps), session, path), 0.0, PAGE_VIEW_DEDUP_WINDOW - lag, Closed) == k
  }

  lemma ViewsDoubled(steps: Trace<Step>, e: Event, k: nat, stamps: seq<Time>, views: seq<Time>, j: nat, lag: Time)
    requires Reaches(steps, e, k, stamps, views, j, j, j, 0.0) && |views| == k && 0.0 <= lag <= 30.0
    requires forall i :: 0 <= i < |views| ==> views[i] == 0.0
    ensures Doubles(steps, e.session, PathOf(e), k, lag)
  {
    NothingToErase(steps);
    LagGrows(steps, 0.0, lag);
    CountInAll(views, 0.0, PAGE_VIEW_DEDUP_WINDOW - lag, Closed);
  }

  /**
   For every k there is a run that stores k views of one page at once: no smaller
   count than that of `ViewCap` holds.
   */
  lemma ViewCapIsReached(e: Event, k: nat, lag: Time)
    requires k >= 1 && e.session != "" && e.kind == PageView && 0.0 <= lag <= 30.0
    ensures exists steps :: Doubles(steps, e.session, PathOf(e), k, lag)
  {
    hide Reaches, Doubles;
    NothingYet(e, k);
    var arrived := AllViewsArrive(Start, e, k, [], [], 0, k, 0.0);
    var cleared := AllClear(arrived, e, k, [], [], 0, k, 0.0);
    var steps := AllCommit(cleared, e, k, [], [], 0, k, 0.0);
    RepeatAt(k, 0.0);
    assert [] + Repeat(k, 0.0) == Repeat(k, 0.0);
    ViewsDoubled(steps, e, k, Repeat(k, 0.0), Repeat(k, 0.0), k, lag);
  }
}
