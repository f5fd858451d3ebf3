/**
 The whole database side of the backend: logins, beacons, dashboards, sessions
 and the three sweeps of `purge_all`, each committed on its own, in any order.
 */
module Backend {
  import opened Prelude
  import L = LoginRuns
  import E = EventRuns
  import S = SessionLookups

  datatype State = State(logins: L.Logins, events: E.Store, sessions: S.Store)

  datatype Step = OnLogins(login: L.Step) | OnEvents(event: E.Step) | OnSessions(session: S.Step)

  datatype Reply = Login(login: L.Reply) | Event(event: E.Reply) | Session(session: S.Reply)

  const EMPTY := State(L.NO_LOGINS, E.NO_EVENTS, S.NO_SESSIONS)

  predicate IsSweep(step: Step) {
    match step
    case OnLogins(s) => s.Sweep?
    case OnEvents(s) => s.Sweep?
    case OnSessions(s) => s.Sweep?
  }

  function Apply(b: State, step: Step): State {
    match step
    case OnLogins(s) => b.(logins := L.Apply(b.logins, s))
    case OnEvents(s) => b.(events := E.Apply(b.events, s))
    case OnSessions(s) => b.(sessions := S.Apply(b.sessions, s))
  }

  function Respond(b: State, step: Step, w: E.World): Reply {
    match step
    case OnLogins(s) => Login(L.Respond(b.logins, s))
    case OnEvents(s) => Event(E.Respond(b.events, s, w))
    case OnSessions(s) => Session(S.Respond(b.sessions, s))
  }

  predicate Timely(b: State, step: Step) {
    match step
    case OnLogins(s) => L.Timely(b.logins, s)
    case OnEvents(s) => E.Timely(b.events, s)
    case OnSessions(s) => S.Timely(b.sessions, s)
  }

  function Run(steps: Trace<Step>): State {
    match steps
    case Start => EMPTY
    case Then(before, last) => Apply(Run(before), last)
  }

  ghost predicate Legal(steps: Trace<Step>) {
    match steps
    case Start => true
    case Then(before, last) => Legal(before) && Timely(Run(before), last)
  }

  /**
   A dashboard query comes after no sweep that reaches into its range, and the
   renewal of a session within the grace period of its check.
   */
  predicate Punctual(b: State, step: Step) {
    match step
    case OnLogins(_) => true
    case OnEvents(s) => s.Query? ==> E.InTime(b.events, s.id)
    case OnSessions(s) => S.Prompt(b.sessions, s)
  }

  ghost predicate AllPunctual(steps: Trace<Step>) {
    steps.Then? ==> AllPunctual(steps.before) && Punctual(Run(steps.before), steps.last)
  }

  function Erase(steps: Trace<Step>): Trace<Step> {
    match steps
    case Start => Start
    case Then(before, last) => if IsSweep(last) then Erase(before) else Then(Erase(before), last)
  }

  function Replies(steps: Trace<Step>, w: E.World): seq<Reply> {
    match steps
    case Start => []
    case Then(before, last) =>
      if IsSweep(last) then Replies(before, w) else Replies(before, w) + [Respond(Run(before), last, w)]
  }

  /** What is left is every step but the sweeps, each as often as before. */
  lemma {:induction false} ErasedIsExact(steps: Trace<Step>, x: Step)
    ensures var sweep := match x case OnLogins(s) => s.Sweep? case OnEvents(s) => s.Sweep? case OnSessions(s) =>
              s.Sweep?;
            Times(Erase(steps), x) == if sweep then 0 else Times(steps, x)
  {
    if steps.Then? {
      ErasedIsExact(steps.before, x);
    }
  }

  /** Each step but a sweep has its answer in the list, behind those of all earlier steps. */
  lemma {:induction false} RepliesAreExact(steps: Trace<Step>, before: Trace<Step>, last: Step, w: E.World)
    requires Extends(steps, Then(before, last)) && !IsSweep(last)
    ensures |Replies(before, w)| < |Replies(steps, w)|
    ensures Replies(steps, w)[|Replies(before, w)|] == Respond(Run(before), last, w)
  {
    if steps != Then(before, last) {
      RepliesAreExact(steps.before, before, last, w);
    }
  }

  ghost predicate Related(swept: State, kept: State) {
    && L.Related(swept.logins, kept.logins)
    && E.Related(swept.events, kept.events)
    && S.Related(swept.sessions, kept.sessions)
  }

  lemma StepRelated(swept: State, kept: State, step: Step, w: E.World)
    requires Related(swept, kept) && Timely(swept, step) && Punctual(swept, step)
    ensures IsSweep(step) ==> Related(Apply(swept, step), kept)
    ensures !IsSweep(step) ==>
              && Timely(kept, step)
              && Related(Apply(swept, step), Apply(kept, step))
              && Respond(swept, step, w) == Respond(kept, step, w)
  {
    match step {
      case OnLogins(s) => L.StepRelated(swept.logins, kept.logins, s);
      case OnEvents(s) =>
        E.StepRelated(swept.events, kept.events, s, w);
        if s.Query? {
          E.InTimeIsWhole(swept.events, s.id);
        }
      case OnSessions(s) => S.StepRelated(swept.sessions, kept.sessions, s);
    }
  }

  /**
   No client and no administrator can tell whether, when or how often the
   retention sweeps ran: for every run, every answer of the login limiter, the
   beacon service, the active visitor count, the session lookup and the queries
   of every dashboard is the answer of the same run without any sweep, provided
   that queries and renewals are punctual. `ReportRuns` and `SessionLookups` say
   how far that can be relied on, and that neither proviso can be spared.
   */
  lemma {:induction false} RetentionIsInvisible(steps: Trace<Step>, w: E.World)
    requires Legal(steps) && AllPunctual(steps)
    ensures Legal(Erase(steps)) && Related(Run(steps), Run(Erase(steps)))
    ensures Replies(steps, w) == Replies(Erase(steps), w)
    ensures steps.Then? && !IsSweep(steps.last) ==>
              Respond(Run(steps.before), steps.last, w) == Respond(Run(Erase(steps.before)), steps.last, w)
  {
    match steps {
      case Start => E.NothingRelated();
      case Then(before, last) =>
        RetentionIsInvisible(before, w);
        StepRelated(Run(before), Run(Erase(before)), last, w);
    }
  }

  // ---- What holds of one table holds in the whole --------------------------

  function LoginsOf(steps: Trace<Step>): Trace<L.Step> {
    match steps
    case Start => Start
    case Then(before, last) => if last.OnLogins? then Then(LoginsOf(before), last.login) else LoginsOf(before)
  }

  function EventsOf(steps: Trace<Step>): Trace<E.Step> {
    match steps
    case Start => Start
    case Then(before, last) => if last.OnEvents? then Then(EventsOf(before), last.event) else EventsOf(before)
  }

  function SessionsOf(steps: Trace<Step>): Trace<S.Step> {
    match steps
    case Start => Start
    case Then(before, last) => if last.OnSessions? then Then(SessionsOf(before), last.session) else SessionsOf(before)
  }

  lemma {:induction false} PartsAreExact(steps: Trace<Step>, l: L.Step, e: E.Step, s: S.Step)
    ensures Times(LoginsOf(steps), l) == Times(steps, OnLogins(l))
    ensures Times(EventsOf(steps), e) == Times(steps, OnEvents(e))
    ensures Times(SessionsOf(steps), s) == Times(steps, OnSessions(s))
  {
    if steps.Then? {
      PartsAreExact(steps.before, l, e, s);
    }
  }

  /**
   A run of the whole is three runs, table by table, that the modules about one
   table speak of, interleaved in any way; it leaves what they leave.
   */
  lemma {:induction false} PartsAreRuns(steps: Trace<Step>)
    ensures Legal(steps) <==> L.Legal(LoginsOf(steps)) && E.Legal(EventsOf(steps)) && S.Legal(SessionsOf(steps))
    ensures Run(steps).logins == L.Run(LoginsOf(steps))
    ensures Run(steps).events == E.Run(EventsOf(steps))
    ensures Run(steps).sessions == S.Run(SessionsOf(steps))
  {
    if steps.Then? {
      PartsAreRuns(steps.before);
    }
  }

  /** Every dashboard query comes after no sweep that reaches into its range. */
  ghost predicate QueriesInTime(steps: Trace<E.Step>) {
    steps.Then? ==>
      QueriesInTime(steps.before) && (steps.last.Query? ==> E.InTime(E.Run(steps.before), steps.last.id))
  }

  /** A run is punctual exactly when its dashboards and its renewals are. */
  lemma {:induction false} PunctualParts(steps: Trace<Step>)
    ensures AllPunctual(steps) <==> QueriesInTime(EventsOf(steps)) && S.AllPrompt(SessionsOf(steps))
  {
    if steps.Then? {
      PartsAreRuns(steps.before);
      PunctualParts(steps.before);
    }
  }

  /** Every request is answered from its own table, whatever happened to the others. */
  lemma PartsAnswer(steps: Trace<Step>, l: L.Step, e: E.Step, s: S.Step, w: E.World)
    ensures Respond(Run(steps), OnLogins(l), w) == Login(L.Respond(L.Run(LoginsOf(steps)), l))
    ensures Respond(Run(steps), OnEvents(e), w) == Event(E.Respond(E.Run(EventsOf(steps)), e, w))
    ensures Respond(Run(steps), OnSessions(s), w) == Session(S.Respond(S.Run(SessionsOf(steps)), s))
  {
    PartsAreRuns(steps);
  }

  /** A sweep of any table can come at any moment of any run. */
  lemma SweepsComeAnyTime(steps: Trace<Step>, now: Time)
    requires Legal(steps) && AllPunctual(steps)
    ensures var b := Run(steps);
            && (b.logins.clock <= now ==> Legal(Then(steps, OnLogins(L.Sweep(now)))))
            && (b.events.clock <= now ==> Legal(Then(steps, OnEvents(E.Sweep(now)))))
            && (b.sessions.clock <= now ==> Legal(Then(steps, OnSessions(S.Sweep(now)))))
    ensures AllPunctual(Then(steps, OnLogins(L.Sweep(now)))) && AllPunctual(Then(steps, OnEvents(E.Sweep(now))))
    ensures AllPunctual(Then(steps, OnSessions(S.Sweep(now))))
  {
  }
}
