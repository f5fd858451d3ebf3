/**
 Session lookups in flight: the row is selected and its expiry checked in one
 step; it is renewed, or deleted, in a later one, with other requests and
 retention sweeps in between, or the request ends before that. This is where the
 sweep's grace period is needed.
 */
module SessionLookups {
  import opened Prelude
  import A = Sessions

  /** A lookup between its check and its write, with the expiry that it is going to write. */
  datatype Flight =
    | Renewing(sid: string, user: string, checkedAt: Time, expiresAt: Time)
    | Dropping(sid: string)

  /** `seen` are the requests so far, each with an id of its own. */
  datatype Store = Store(
    rows: map<string, A.Session>,
    issued: set<string>,
    flights: map<nat, Flight>,
    seen: set<nat>,
    clock: Time)

  datatype Step =
    | Create(sid: string, user: string, now: Time)
    | Select(id: nat, sid: string, now: Time, renewAt: Time)
    | Renew(id: nat, now: Time)
    | Drop(id: nat, now: Time)
    | Abort(id: nat, now: Time)
    | Logout(sid: string, now: Time)
    | Sweep(now: Time)

  /** `Stale` is the error of an update that finds no row. */
  datatype Reply = Created | Found | User(user: string) | NoUser | Stale | Dropped | Aborted | LoggedOut | Swept

  const NO_SESSIONS := Store(map[], {}, map[], {}, 0.0)

  predicate Accepts(s: Store, sid: string, now: Time) {
    sid in s.rows && !(s.rows[sid].expiresAt < now)
  }

  function Respond(s: Store, step: Step): Reply {
    match step
    case Create(_, _, _) => Created
    case Select(_, sid, now, _) => if Accepts(s, sid, now) then Found else NoUser
    case Renew(id, _) =>
      if id in s.flights && s.flights[id].Renewing? && s.flights[id].sid in s.rows then User(s.flights[id].user)
      else Stale
    case Drop(_, _) => Dropped
    case Abort(_, _) => Aborted
    case Logout(_, _) => LoggedOut
    case Sweep(_) => Swept
  }

  function Apply(s: Store, step: Step): Store {
    match step
    case Create(sid, user, now) =>
      s.(rows := s.rows[sid := A.Session(user, now + A.SESSION_DURATION)], issued := s.issued + {sid}, clock := now)
    case Select(id, sid, now, renewAt) =>
      var begun := s.(seen := s.seen + {id}, clock := renewAt);
      if sid !in s.rows then begun
      else if Accepts(s, sid, now) then
        begun.(flights := s.flights[id := Renewing(sid, s.rows[sid].user, now, renewAt + A.SESSION_DURATION)])
      else begun.(flights := s.flights[id := Dropping(sid)])
    case Renew(id, now) =>
      if id !in s.flights || !s.flights[id].Renewing? then s
      else
        var f := s.flights[id];
        s.(rows := if f.sid in s.rows then s.rows[f.sid := A.Session(f.user, f.expiresAt)] else s.rows,
           flights := s.flights - {id},
           clock := now)
    case Drop(id, now) =>
      if id !in s.flights then s
      else s.(rows := s.rows - {s.flights[id].sid}, flights := s.flights - {id}, clock := now)
    case Abort(id, now) => s.(flights := s.flights - {id}, clock := now)
    case Logout(sid, now) => s.(rows := s.rows - {sid}, clock := now)
    case Sweep(now) => s.(rows := A.Purge(s.rows, now - A.EXPIRED_SESSION_GRACE), clock := now)
  }

  predicate Timely(s: Store, step: Step) {
    s.clock <= step.now &&
    match step
    case Create(sid, _, _) => sid !in s.issued
    case Select(id, _, now, renewAt) => id !in s.seen && now <= renewAt
    case Renew(id, _) => id in s.flights && s.flights[id].Renewing?
    case Drop(id, _) => id in s.flights && s.flights[id].Dropping?
    case Abort(id, _) => id in s.flights
    case _ => true
  }

  function Run(steps: Trace<Step>): Store {
    match steps
    case Start => NO_SESSIONS
    case Then(before, last) => Apply(Run(before), last)
  }

  ghost predicate Legal(steps: Trace<Step>) {
    match steps
    case Start => true
    case Then(before, last) => Legal(before) && Timely(Run(before), last)
  }

  /** A renewal is written within the grace period of its check. */
  predicate Prompt(s: Store, step: Step) {
    step.Renew? && step.id in s.flights && s.flights[step.id].Renewing? ==>
      step.now - s.flights[step.id].checkedAt <= A.EXPIRED_SESSION_GRACE
  }

  ghost predicate AllPrompt(steps: Trace<Step>) {
    steps.Then? ==> AllPrompt(steps.before) && Prompt(Run(steps.before), steps.last)
  }

  // ---- Sweeps leave every answer alone -------------------------------------

  /** A row that is going to be renewed had not expired when it was checked. */
  ghost predicate Fresh(s: Store) {
    && (forall id :: id in s.flights ==> id in s.seen)
    && forall id :: id in s.flights && s.flights[id].Renewing? ==>
      var f := s.flights[id];
      && f.checkedAt <= s.clock && f.checkedAt + A.SESSION_DURATION <= f.expiresAt
      && (f.sid in s.rows ==> f.checkedAt <= s.rows[f.sid].expiresAt)
  }

  /**
   The same but for rows long expired, which may be gone on the left, and the
   deletions that lookups of them still have to write on the right.
   */
  ghost predicate Related(swept: Store, kept: Store) {
    && swept.issued == kept.issued && swept.seen == kept.seen && kept.clock <= swept.clock
    && (forall sid :: sid in swept.rows ==> sid in kept.rows && kept.rows[sid] == swept.rows[sid])
    && (forall sid :: sid in kept.rows && sid !in swept.rows ==>
        kept.rows[sid].expiresAt < swept.clock - A.EXPIRED_SESSION_GRACE)
    && (forall id :: id in swept.flights ==> id in kept.flights && kept.flights[id] == swept.flights[id])
    && (forall id :: id in kept.flights && id !in swept.flights ==> kept.flights[id].Dropping?)
    && Fresh(kept)
  }

  lemma FreshStill(s: Store, step: Step)
    requires Fresh(s) && Timely(s, step) && Prompt(s, step)
    ensures Fresh(Apply(s, step))
  {
  }

  lemma RenewRelated(swept: Store, kept: Store, id: nat, now: Time)
    requires Related(swept, kept) && Timely(swept, Renew(id, now)) && Prompt(swept, Renew(id, now))
    ensures swept.flights[id].sid in kept.rows ==> swept.flights[id].sid in swept.rows
  {
  }

  lemma SelectRelated(swept: Store, kept: Store, step: Step)
    requires Related(swept, kept) && Timely(swept, step) && step.Select?
    ensures Related(Apply(swept, step), Apply(kept, step)) && Respond(swept, step) == Respond(kept, step)
  {
    FreshStill(kept, step);
  }

  lemma StepRelated(swept: Store, kept: Store, step: Step)
    requires Related(swept, kept) && Timely(swept, step) && Prompt(swept, step)
    ensures step.Sweep? ==> Related(Apply(swept, step), kept)
    ensures !step.Sweep? ==>
              Timely(kept, step) && Related(Apply(swept, step), Apply(kept, step))
                  && Respond(swept, step) == Respond(kept, step)
  {
    match step {
      case Select(_, _, _, _) => SelectRelated(swept, kept, step);
      case Renew(id, now) =>
        RenewRelated(swept, kept, id, now);
        FreshStill(kept, step);
      case Sweep(_) =>
      case _ => FreshStill(kept, step);
    }
  }

  function Erase(steps: Trace<Step>): Trace<Step> {
    match steps
    case Start => Start
    case Then(before, last) => if last.Sweep? then Erase(before) else Then(Erase(before), last)
  }

  /** What is left is every step but the sweeps, each as often as before. */
  lemma {:induction false} ErasedIsExact(steps: Trace<Step>, x: Step)
    ensures Times(Erase(steps), x) == if x.Sweep? then 0 else Times(steps, x)
  {
    if steps.Then? {
      ErasedIsExact(steps.before, x);
    }
  }

  function Replies(steps: Trace<Step>): seq<Reply> {
    match steps
    case Start => []
    case Then(before, last) => if last.Sweep? then Replies(before) else Replies(before) + [Respond(Run(before), last)]
  }

  /**
   Sweeps inserted anywhere change no answer of any run, not even between the
   check and the renewal of a lookup, as long as a renewal is written within the
   grace period of its check.
   */
  lemma {:induction false} SweepsUnseen(steps: Trace<Step>)
    requires Legal(steps) && AllPrompt(steps)
    ensures Legal(Erase(steps)) && Related(Run(steps), Run(Erase(steps)))
    ensures Replies(steps) == Replies(Erase(steps))
    ensures steps.Then? && !steps.last.Sweep? ==>
              Respond(Run(steps.before), steps.last) == Respond(Run(Erase(steps.before)), steps.last)
  {
    if steps.Then? {
      SweepsUnseen(steps.before);
      StepRelated(Run(steps.before), Run(Erase(steps.before)), steps.last);
    }
  }

  // ---- A grace period no longer would do -----------------------------------

  function CheckedRun(sid: string, user: string): Trace<Step> {
    Then(Then(Start, Create(sid, user, 0.0)), Select(0, sid, A.SESSION_DURATION, A.SESSION_DURATION))
  }

  lemma CheckedState(sid: string, user: string)
    ensures Legal(CheckedRun(sid, user))
    ensures var s := Run(CheckedRun(sid, user));
            && s.rows == map[sid := A.Session(user, A.SESSION_DURATION)] && s.clock == A.SESSION_DURATION
            && s.flights == map[0 := Renewing(sid, user, A.SESSION_DURATION, A.SESSION_DURATION + A.SESSION_DURATION)]
  {
    var created := Then(Start, Create(sid, user, 0.0));
    assert Run(created).rows == map[sid := A.Session(user, A.SESSION_DURATION)] && Run(created).clock == 0.0;
    assert Legal(created);
  }

  /**
   The grace period is all that a renewal may take: for every longer delay there
   is a run in which a sweep turns an accepted lookup into an error.
   */
  lemma LateRenewalIsSeen(sid: string, user: string, delay: Time)
    requires delay > A.EXPIRED_SESSION_GRACE
    ensures var late := A.SESSION_DURATION + delay;
            var steps := Then(CheckedRun(sid, user), Sweep(late));
            && Legal(Then(steps, Renew(0, late)))
            && Respond(Run(steps), Renew(0, late)) == Stale
            && Respond(Run(Erase(steps)), Renew(0, late)) == User(user)
  {
    var late := A.SESSION_DURATION + delay;
    var steps := Then(CheckedRun(sid, user), Sweep(late));
    CheckedState(sid, user);
    assert Erase(Then(Start, Create(sid, user, 0.0))) == Then(Start, Create(sid, user, 0.0));
    assert Erase(CheckedRun(sid, user)) == CheckedRun(sid, user);
    assert sid !in Run(steps).rows && Run(steps).flights == Run(CheckedRun(sid, user)).flights;
    assert Erase(steps) == CheckedRun(sid, user);
  }

  // ---- Undisturbed lookups -------------------------------------------------

  /** The same table, with no lookup in between. */
  predicate Matches(s: Store, a: A.Store) {
    s.rows == a.rows && s.issued == a.issued && s.clock == a.clock && s.flights == map[]
  }

  /** The write of a lookup, if it has one to make. */
  function WriteOf(s: Store, id: nat, now: Time): Option<Step> {
    if id !in s.flights then None else if s.flights[id].Renewing? then Some(Renew(id, now)) else Some(Drop(id, now))
  }

  function Finish(s: Store, id: nat, now: Time): Store {
    match WriteOf(s, id, now)
    case None => s
    case Some(write) => Apply(s, write)
  }

  /** With nothing in between, check and write are the lookup of `Sessions`. */
  lemma LookupIsBoth(s: Store, a: A.Store, id: nat, sid: string, now: Time, renewAt: Time)
    requires Matches(s, a) && A.Timely(a, A.Lookup(sid, now, renewAt)) && id !in s.seen
    ensures Timely(s, Select(id, sid, now, renewAt))
    ensures var selected := Apply(s, Select(id, sid, now, renewAt));
            && Matches(Finish(selected, id, renewAt), A.Apply(a, A.Lookup(sid, now, renewAt)))
            && (WriteOf(selected, id, renewAt).Some? ==> Timely(selected, WriteOf(selected, id, renewAt).value))
            && (A.Respond(a, A.Lookup(sid, now, renewAt)) == A.NoUser
                <==> Respond(s, Select(id, sid, now, renewAt)) == NoUser)
            && (A.Respond(a, A.Lookup(sid, now, renewAt)).User? ==>
                  Respond(selected, Renew(id, renewAt)) == User(A.Respond(a, A.Lookup(sid, now, renewAt)).user))
  {
  }

  function Length(steps: Trace<A.Step>): nat {
    if steps.Start? then 0 else Length(steps.before) + 1
  }

  /** A run of `Sessions` with each lookup taken apart. */
  function Expand(steps: Trace<A.Step>): Trace<Step> {
    match steps
    case Start => Start
    case Then(before, last) =>
      match last
      case Create(sid, user, now) => Then(Expand(before), Create(sid, user, now))
      case Logout(sid, now) => Then(Expand(before), Logout(sid, now))
      case Sweep(now) => Then(Expand(before), Sweep(now))
      case Lookup(sid, now, renewAt) =>
        var selected := Then(Expand(before), Select(Length(before), sid, now, renewAt));
        match WriteOf(Run(selected), Length(before), renewAt)
        case None => selected
        case Some(write) => Then(selected, write)
  }

  /** Every run of `Sessions` is a run of this module in which no lookup is disturbed. */
  lemma {:induction false} ExpandedRun(steps: Trace<A.Step>)
    requires A.Legal(steps)
    ensures Legal(Expand(steps)) && Matches(Run(Expand(steps)), A.Run(steps))
    ensures forall id :: id in Run(Expand(steps)).seen ==> id < Length(steps)
  {
    if steps.Then? {
      ExpandedRun(steps.before);
      var last := steps.last;
      if last.Lookup? {
        LookupIsBoth(Run(Expand(steps.before)), A.Run(steps.before), Length(steps.before), last.sid, last.now,
            last.renewAt);
      }
    }
  }
}
