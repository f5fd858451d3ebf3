/**
 What decides a session lookup, in terms of what happened to the session. The
 statements are about lookups in flight. They hold as long as requests of one
 session follow each other, whatever other sessions and the sweeps do; two runs
 show what overlapping requests of one session change.
 */
module SessionHistory {
  import opened Prelude
  import opened SessionLookups
  import A = Sessions

  /** A creation or a lookup, and the clock reading that its renewal counts from. */
  datatype Visit = Visit(at: Time, until: Time)

  /** The creation of a session and every lookup since that ran to its end or still runs, accepted or not. */
  datatype History = History(visits: seq<Visit>, ended: bool, owner: string)

  /** The history after one more step; a lookup that was given up is no visit. */
  function After(h: History, s: Store, step: Step, sid: string): History {
    match step
    case Create(x, user, now) => if x == sid then History([Visit(now, now)], false, user) else h
    case Select(_, x, now, renewAt) =>
      if x == sid && h.visits != [] then h.(visits := h.visits + [Visit(now, renewAt)]) else h
    case Abort(id, _) => if id in s.flights && s.flights[id].sid == sid then Past(h) else h
    case Logout(x, _) => if x == sid && h.visits != [] then h.(ended := true) else h
    case _ => h
  }

  function HistoryOf(steps: Trace<Step>, sid: string): History {
    match steps
    case Start => History([], false, "")
    case Then(before, last) => After(HistoryOf(before, sid), Run(before), last, sid)
  }

  /** The history without its last visit. */
  function Past(h: History): History {
    if h.visits == [] then h else h.(visits := h.visits[..|h.visits| - 1])
  }

  /** No two neighbouring visits more than a day apart. */
  ghost predicate NoGap(visits: seq<Visit>) {
    forall i :: 0 < i < |visits| ==> visits[i].at - visits[i - 1].until <= A.SESSION_DURATION
  }

  ghost predicate Live(h: History) {
    h.visits != [] && !h.ended && NoGap(h.visits)
  }

  function Expiry(h: History): Time {
    if h.visits == [] then 0.0 else h.visits[|h.visits| - 1].until + A.SESSION_DURATION
  }

  // ---- One session, one request at a time ----------------------------------

  /** No lookup of the session is in flight. */
  ghost predicate Idle(s: Store, sid: string) {
    forall id :: id in s.flights ==> s.flights[id].sid != sid
  }

  /**
   A lookup or a logout of the session finds none of its lookups in flight, and
   a renewal is written within the grace period, or at least finds its row.
   */
  ghost predicate Fair(s: Store, step: Step, sid: string) {
    match step
    case Select(_, x, _, _) => x == sid ==> Idle(s, sid)
    case Logout(x, _) => x == sid ==> Idle(s, sid)
    case Renew(id, _) => id in s.flights && s.flights[id].sid == sid && sid !in s.rows ==> Prompt(s, step)
    case _ => true
  }

  ghost predicate Undisturbed(steps: Trace<Step>, sid: string) {
    steps.Then? ==> Undisturbed(steps.before, sid) && Fair(Run(steps.before), steps.last, sid)
  }

  /** The row is as the history says; a live history without one is past its expiry. */
  ghost predicate Settled(s: Store, h: History, sid: string) {
    && (sid in s.rows ==> Live(h) && s.rows[sid] == A.Session(h.owner, Expiry(h)))
    && (sid !in s.rows && Live(h) ==> Expiry(h) < s.clock)
  }

  /** A lookup in flight found the row of the history before it, and writes the row of the history with it. */
  ghost predicate InFlight(s: Store, f: Flight, h: History) {
    && |h.visits| >= 2 && Live(Past(h)) && Settled(s, Past(h), f.sid)
    && (f.sid !in s.rows ==> Expiry(Past(h)) < s.clock - A.EXPIRED_SESSION_GRACE)
    && match f
       case Renewing(_, user, checkedAt, expiresAt) =>
         Live(h) && user == h.owner && expiresAt == Expiry(h) && checkedAt <= Expiry(Past(h))
       case Dropping(_) => !Live(h) && Expiry(Past(h)) < s.clock
  }

  /** The table against the history of one session. */
  ghost predicate Agrees(s: Store, h: History, sid: string) {
    && (h.visits != [] ==> sid in s.issued)
    && (forall id :: id in s.flights ==> id in s.seen)
    && (forall i, j :: i in s.flights && j in s.flights && s.flights[i].sid == sid && s.flights[j].sid == sid ==>
        i == j)
    && (forall id :: id in s.flights && s.flights[id].sid == sid ==> InFlight(s, s.flights[id], h))
    && (Idle(s, sid) ==> Settled(s, h, sid))
  }

  lemma NoGapSnoc(visits: seq<Visit>, v: Visit)
    requires visits != []
    ensures NoGap(visits + [v]) <==> NoGap(visits) && v.at - visits[|visits| - 1].until <= A.SESSION_DURATION
  {
    var longer := visits + [v];
    assert longer[|visits|] == v && longer[|visits| - 1] == visits[|visits| - 1];
    assert forall i :: 0 <= i < |visits| ==> longer[i] == visits[i];
  }

  /** A lookup keeps a history alive exactly when it comes before the expiry. */
  lemma VisitKeepsAlive(h: History, v: Visit)
    requires h.visits != []
    ensures var more := h.(visits := h.visits + [v]);
            && Past(more) == h && Expiry(more) == v.until + A.SESSION_DURATION
            && (Live(more) <==> Live(h) && v.at <= Expiry(h))
  {
    NoGapSnoc(h.visits, v);
    assert (h.visits + [v])[..|h.visits|] == h.visits;
  }

  lemma IdleAgrees(s: Store, h: History, sid: string)
    requires Idle(s, sid) && Settled(s, h, sid)
    requires (h.visits != [] ==> sid in s.issued) && forall id :: id in s.flights ==> id in s.seen
    ensures Agrees(s, h, sid)
  {
  }

  /** The session's one lookup has left. */
  lemma Landed(s: Store, s': Store, h: History, sid: string, id: nat)
    requires Agrees(s, h, sid) && id in s.flights && s.flights[id].sid == sid && s'.flights == s.flights - {id}
    ensures Idle(s', sid)
  {
    forall other | other in s'.flights
      ensures s'.flights[other].sid != sid
    {
      assert other in s.flights && other != id;
    }
  }

  /** A step of other sessions. */
  lemma ElsewhereAgrees(s: Store, s': Store, h: History, sid: string)
    requires Agrees(s, h, sid) && s.clock <= s'.clock && s.issued <= s'.issued
    requires sid in s'.rows <==> sid in s.rows
    requires sid in s.rows ==> s'.rows[sid] == s.rows[sid]
    requires forall id :: id in s'.flights ==> id in s'.seen
    requires forall id :: id in s'.flights && s'.flights[id].sid == sid ==>
              id in s.flights && s.flights[id] == s'.flights[id]
    requires Idle(s', sid) ==> Idle(s, sid)
    ensures Agrees(s', h, sid)
  {
  }

  lemma SelectAgrees(s: Store, h: History, sid: string, step: Step)
    requires Agrees(s, h, sid) && Timely(s, step) && step.Select? && step.sid == sid && Idle(s, sid)
    ensures Agrees(Apply(s, step), After(h, s, step, sid), sid)
    ensures Respond(s, step) == Found <==> Live(After(h, s, step, sid))
  {
    if h.visits != [] {
      VisitKeepsAlive(h, Visit(step.now, step.renewAt));
    }
    var after := Apply(s, step);
    if sid in s.rows {
      assert InFlight(after, after.flights[step.id], After(h, s, step, sid));
      forall id | id in after.flights && after.flights[id].sid == sid
        ensures id == step.id
      {
      }
    } else {
      IdleAgrees(after, After(h, s, step, sid), sid);
    }
  }

  lemma RenewAgrees(s: Store, h: History, sid: string, id: nat, now: Time)
    requires Agrees(s, h, sid) && Timely(s, Renew(id, now)) && Fair(s, Renew(id, now), sid) && s.flights[id].sid == sid
    ensures Respond(s, Renew(id, now)) == User(h.owner)
    ensures Agrees(Apply(s, Renew(id, now)), h, sid)
  {
    assert InFlight(s, s.flights[id], h);
    assert sid in s.rows;
    Landed(s, Apply(s, Renew(id, now)), h, sid, id);
    IdleAgrees(Apply(s, Renew(id, now)), h, sid);
  }

  lemma LeaveAgrees(s: Store, h: History, sid: string, step: Step)
    requires Agrees(s, h, sid) && Timely(s, step) && (step.Drop? || step.Abort?) && s.flights[step.id].sid == sid
    ensures Agrees(Apply(s, step), After(h, s, step, sid), sid)
  {
    assert InFlight(s, s.flights[step.id], h);
    Landed(s, Apply(s, step), h, sid, step.id);
    IdleAgrees(Apply(s, step), After(h, s, step, sid), sid);
  }

  lemma SweepAgrees(s: Store, h: History, sid: string, now: Time)
    requires Agrees(s, h, sid) && s.clock <= now
    ensures Agrees(Apply(s, Sweep(now)), h, sid)
  {
    var after := Apply(s, Sweep(now));
    forall id | id in after.flights && after.flights[id].sid == sid
      ensures InFlight(after, after.flights[id], h)
    {
      assert InFlight(s, s.flights[id], h);
    }
    assert Idle(s, sid) ==> Settled(after, h, sid);
    assert Idle(after, sid) ==> Idle(s, sid);
  }

  /** A step that concerns the session itself. */
  predicate Concerns(s: Store, step: Step, sid: string) {
    match step
    case Create(x, _, _) => x == sid
    case Select(_, x, _, _) => x == sid
    case Logout(x, _) => x == sid
    case Renew(id, _) => id in s.flights && s.flights[id].sid == sid
    case Drop(id, _) => id in s.flights && s.flights[id].sid == sid
    case Abort(id, _) => id in s.flights && s.flights[id].sid == sid
    case Sweep(_) => true
  }

  lemma OtherRow(s: Store, sid: string, step: Step)
    requires Timely(s, step) && !Concerns(s, step, sid)
    ensures var after := Apply(s, step);
            && s.clock <= after.clock && s.issued <= after.issued
            && (sid in after.rows <==> sid in s.rows) && (sid in s.rows ==> after.rows[sid] == s.rows[sid])
  {
  }

  lemma OtherFlight(s: Store, sid: string, step: Step, id: nat)
    requires Timely(s, step) && !Concerns(s, step, sid) && (id in s.flights ==> id in s.seen)
    ensures var after := Apply(s, step);
            && (id in after.flights ==> id in after.seen)
            && (id in after.flights && after.flights[id].sid == sid ==>
                id in s.flights && s.flights[id] == after.flights[id])
            && (id in s.flights && s.flights[id].sid == sid ==>
                id in after.flights && after.flights[id] == s.flights[id])
  {
  }

  lemma OtherStepAgrees(s: Store, h: History, sid: string, step: Step)
    requires Agrees(s, h, sid) && Timely(s, step) && !Concerns(s, step, sid)
    ensures Agrees(Apply(s, step), h, sid) && After(h, s, step, sid) == h
  {
    hide InFlight, Settled, Apply;
    var after := Apply(s, step);
    OtherRow(s, sid, step);
    forall id
      ensures id in after.flights ==> id in after.seen
      ensures id in after.flights && after.flights[id].sid == sid ==>
                id in s.flights && s.flights[id] == after.flights[id]
      ensures id in s.flights && s.flights[id].sid == sid ==> id in after.flights && after.flights[id] == s.flights[id]
    {
      OtherFlight(s, sid, step, id);
    }
    ElsewhereAgrees(s, after, h, sid);
  }

  lemma StepAgrees(s: Store, h: History, sid: string, step: Step)
    requires Agrees(s, h, sid) && Timely(s, step) && Fair(s, step, sid)
    ensures Agrees(Apply(s, step), After(h, s, step, sid), sid)
  {
    if !Concerns(s, step, sid) {
      OtherStepAgrees(s, h, sid, step);
    } else {
      match step {
        case Create(_, _, _) => IdleAgrees(Apply(s, step), After(h, s, step, sid), sid);
        case Select(_, _, _, _) => SelectAgrees(s, h, sid, step);
        case Renew(id, now) => RenewAgrees(s, h, sid, id, now);
        case Drop(_, _) => LeaveAgrees(s, h, sid, step);
        case Abort(_, _) => LeaveAgrees(s, h, sid, step);
        case Logout(_, _) => IdleAgrees(Apply(s, step), After(h, s, step, sid), sid);
        case Sweep(now) => SweepAgrees(s, h, sid, now);
      }
    }
  }

  lemma NothingAgrees(sid: string)
    ensures Agrees(NO_SESSIONS, History([], false, ""), sid)
  {
  }

  lemma {:induction false} RunAgrees(steps: Trace<Step>, sid: string)
    requires Legal(steps) && Undisturbed(steps, sid)
    ensures Agrees(Run(steps), HistoryOf(steps, sid), sid)
  {
    match steps {
      case Start => NothingAgrees(sid);
      case Then(before, last) =>
        RunAgrees(before, sid);
        StepAgrees(Run(before), HistoryOf(before, sid), sid, last);
    }
  }

  // ---- What decides a lookup -----------------------------------------------

  /**
   With requests of the session following each other, a lookup is accepted
   exactly when the session was created, was not logged out, and its creation and
   all lookups since, this one included, are each at most a day after the one
   before. Lookups of other sessions and sweeps may come anywhere.
   */
  lemma LookupDecision(steps: Trace<Step>, sid: string, id: nat, now: Time, renewAt: Time)
    requires Legal(steps) && Undisturbed(steps, sid)
    requires Timely(Run(steps), Select(id, sid, now, renewAt)) && Idle(Run(steps), sid)
    ensures Respond(Run(steps), Select(id, sid, now, renewAt)) ==
            if Live(HistoryOf(Then(steps, Select(id, sid, now, renewAt)), sid)) then Found else NoUser
  {
    hide Live, Agrees, Legal, Undisturbed;
    RunAgrees(steps, sid);
    SelectAgrees(Run(steps), HistoryOf(steps, sid), sid, Select(id, sid, now, renewAt));
  }

  /** An accepted lookup that is renewed in time yields the owner. */
  lemma RenewalYieldsOwner(steps: Trace<Step>, id: nat, now: Time)
    requires Legal(steps) && Timely(Run(steps), Renew(id, now))
    requires var sid := Run(steps).flights[id].sid;
             Undisturbed(steps, sid) && Fair(Run(steps), Renew(id, now), sid)
    ensures Respond(Run(steps), Renew(id, now)) == User(HistoryOf(steps, Run(steps).flights[id].sid).owner)
  {
    var sid := Run(steps).flights[id].sid;
    RunAgrees(steps, sid);
    RenewAgrees(Run(steps), HistoryOf(steps, sid), sid, id, now);
  }

  /** A stored session that no lookup is about to renew expires one day after its creation or last lookup. */
  lemma ExpiryIsDayAfterLast(steps: Trace<Step>, sid: string)
    requires Legal(steps) && Undisturbed(steps, sid) && Idle(Run(steps), sid) && sid in Run(steps).rows
    ensures var h := HistoryOf(steps, sid);
            && Live(h) && Run(steps).rows[sid]
                == A.Session(h.owner, h.visits[|h.visits| - 1].until + A.SESSION_DURATION)
  {
    RunAgrees(steps, sid);
  }

  /** A session that was refused: dead, or past its expiry with no renewal on its way. */
  ghost predicate Lapsed(s: Store, h: History, sid: string) {
    && h.visits != [] && (Live(h) ==> Expiry(h) < s.clock)
    && (forall id :: id in s.flights && s.flights[id].sid == sid ==> s.flights[id].Dropping?)
  }

  lemma RefusedLapses(s: Store, h: History, sid: string, step: Step)
    requires Agrees(s, h, sid) && Timely(s, step) && step.Select? && step.sid == sid && Idle(s, sid)
    requires h.visits != [] && Respond(s, step) == NoUser
    ensures Lapsed(Apply(s, step), After(h, s, step, sid), sid)
  {
    SelectAgrees(s, h, sid, step);
  }

  lemma LapsedIsRefused(s: Store, h: History, sid: string, step: Step)
    requires Agrees(s, h, sid) && Lapsed(s, h, sid) && Timely(s, step) && step.Select? && step.sid == sid
              && Idle(s, sid)
    ensures Respond(s, step) == NoUser
  {
    SelectAgrees(s, h, sid, step);
    VisitKeepsAlive(h, Visit(step.now, step.renewAt));
  }

  lemma StaysLapsed(s: Store, h: History, sid: string, step: Step)
    requires Agrees(s, h, sid) && Lapsed(s, h, sid) && Timely(s, step) && Fair(s, step, sid)
    ensures Lapsed(Apply(s, step), After(h, s, step, sid), sid)
  {
    if !Concerns(s, step, sid) {
      OtherStepAgrees(s, h, sid, step);
    } else if step.Select? {
      LapsedIsRefused(s, h, sid, step);
      RefusedLapses(s, h, sid, step);
    } else if step.Abort? {
      assert InFlight(s, s.flights[step.id], h);
    }
  }

  lemma {:induction false} LapsedForever(longer: Trace<Step>, steps: Trace<Step>, sid: string)
    requires Legal(longer) && Undisturbed(longer, sid) && Extends(longer, steps)
    requires Lapsed(Run(steps), HistoryOf(steps, sid), sid)
    ensures Lapsed(Run(longer), HistoryOf(longer, sid), sid)
  {
    if longer != steps {
      LapsedForever(longer.before, steps, sid);
      RunAgrees(longer.before, sid);
      StaysLapsed(Run(longer.before), HistoryOf(longer.before, sid), sid, longer.last);
    }
  }

  lemma {:induction false} PrefixIsRun(longer: Trace<Step>, steps: Trace<Step>, sid: string)
    requires Legal(longer) && Undisturbed(longer, sid) && Extends(longer, steps)
    ensures Legal(steps) && Undisturbed(steps, sid)
  {
    if longer != steps {
      PrefixIsRun(longer.before, steps, sid);
    }
  }

  /** With its requests following each other, a created session that is refused once is refused ever after. */
  lemma RefusedForever(steps: Trace<Step>, sid: string, refused: Step, longer: Trace<Step>, later: Step)
    requires refused.Select? && refused.sid == sid && later.Select? && later.sid == sid
    requires HistoryOf(steps, sid).visits != [] && Respond(Run(steps), refused) == NoUser
    requires Legal(longer) && Undisturbed(longer, sid) && Extends(longer, Then(steps, refused))
    requires Timely(Run(longer), later) && Idle(Run(longer), sid)
    ensures Respond(Run(longer), later) == NoUser
  {
    hide Lapsed, Agrees;
    PrefixIsRun(longer, Then(steps, refused), sid);
    RunAgrees(steps, sid);
    RefusedLapses(Run(steps), HistoryOf(steps, sid), sid, refused);
    LapsedForever(longer, Then(steps, refused), sid);
    RunAgrees(longer, sid);
    LapsedIsRefused(Run(longer), HistoryOf(longer, sid), sid, later);
  }

  // ---- Overlapping requests of one session ---------------------------------

  /** The session and clock reading that a renewal was computed from. */
  function ReadingOf(steps: Trace<Step>, id: nat): Option<(string, Time)> {
    match steps
    case Start => None
    case Then(before, last) =>
      if last.Select? && last.id == id then Some((last.sid, last.renewAt)) else ReadingOf(before, id)
  }

  /** The clock reading behind the last expiry written for a session, by its creation or a renewal. */
  function LastWritten(steps: Trace<Step>, sid: string): Time {
    match steps
    case Start => 0.0
    case Then(before, last) =>
      match last
      case Create(x, _, now) => if x == sid then now else LastWritten(before, sid)
      case Renew(id, _) =>
        (match ReadingOf(before, id)
         case Some((x, at)) => if x == sid then at else LastWritten(before, sid)
         case None => LastWritten(before, sid))
      case _ => LastWritten(before, sid)
  }

  ghost predicate Written(s: Store, steps: Trace<Step>, sid: string) {
    && (sid in s.rows ==> s.rows[sid].expiresAt == LastWritten(steps, sid) + A.SESSION_DURATION)
    && (forall id :: id in s.flights ==> id in s.seen)
    && (forall id :: id in s.flights && s.flights[id].Renewing? ==>
          ReadingOf(steps, id) == Some((s.flights[id].sid, s.flights[id].expiresAt - A.SESSION_DURATION)))
  }

  lemma StepWritten(s: Store, steps: Trace<Step>, sid: string, step: Step)
    requires Written(s, steps, sid) && Timely(s, step)
    ensures Written(Apply(s, step), Then(steps, step), sid)
  {
  }

  lemma {:induction false} RunWritten(steps: Trace<Step>, sid: string)
    requires Legal(steps)
    ensures Written(Run(steps), steps, sid)
  {
    if steps.Then? {
      RunWritten(steps.before, sid);
      StepWritten(Run(steps.before), steps.before, sid, steps.last);
    }
  }

  /**
   However the requests overlap, a stored session expires one day after the
   clock reading of the renewal written last, which need not be the latest one.
   */
  lemma ExpiryIsDayAfterLastWritten(steps: Trace<Step>, sid: string)
    requires Legal(steps) && sid in Run(steps).rows
    ensures Run(steps).rows[sid].expiresAt == LastWritten(steps, sid) + A.SESSION_DURATION
  {
    RunWritten(steps, sid);
  }

  /** The session was created, and neither a logout nor a late lookup has deleted it since. */
  predicate Standing(steps: Trace<Step>, sid: string) {
    match steps
    case Start => false
    case Then(before, last) =>
      match last
      case Create(x, _, _) => x == sid || Standing(before, sid)
      case Logout(x, _) => x != sid && Standing(before, sid)
      case Drop(id, _) => (ReadingOf(before, id).None? || ReadingOf(before, id).value.0 != sid) && Standing(before, sid)
      case _ => Standing(before, sid)
  }

  /** The row of a standing session is there until a sweep takes it, which no prompt renewal is waiting for. */
  ghost predicate Placed(s: Store, steps: Trace<Step>, sid: string) {
    && (sid in s.rows ==> Standing(steps, sid))
    && (sid !in s.rows && Standing(steps, sid) ==>
          LastWritten(steps, sid) + A.SESSION_DURATION < s.clock - A.EXPIRED_SESSION_GRACE)
    && (Standing(steps, sid) ==> sid in s.issued) && (forall x :: x in s.rows ==> x in s.issued)
  }

  ghost predicate FlightPlaced(s: Store, steps: Trace<Step>, sid: string, id: nat) {
    id in s.flights ==>
      var f := s.flights[id];
      && f.sid in s.issued
      && ReadingOf(steps, id).Some? && ReadingOf(steps, id).value.0 == f.sid
      && (f.Renewing? ==>
            && f.checkedAt <= s.clock && f.checkedAt + A.SESSION_DURATION <= f.expiresAt
            && (f.sid == sid && Standing(steps, sid) ==> f.checkedAt <= LastWritten(steps, sid) + A.SESSION_DURATION))
  }

  ghost predicate AllPlaced(s: Store, steps: Trace<Step>, sid: string) {
    Written(s, steps, sid) && Placed(s, steps, sid) && forall id :: FlightPlaced(s, steps, sid, id)
  }

  lemma StepPlaced(s: Store, steps: Trace<Step>, sid: string, step: Step)
    requires AllPlaced(s, steps, sid) && Timely(s, step) && Prompt(s, step)
    ensures Placed(Apply(s, step), Then(steps, step), sid)
  {
    match step {
      case Renew(id, _) => assert FlightPlaced(s, steps, sid, id);
      case Drop(id, _) => assert FlightPlaced(s, steps, sid, id);
      case Create(_, _, _) =>
      case Select(_, _, _, _) =>
      case Abort(_, _) =>
      case Logout(_, _) =>
      case Sweep(_) =>
    }
  }

  lemma StepFlightPlaced(s: Store, steps: Trace<Step>, sid: string, step: Step, id: nat)
    requires AllPlaced(s, steps, sid) && Timely(s, step) && Prompt(s, step)
    ensures FlightPlaced(Apply(s, step), Then(steps, step), sid, id)
  {
    assert FlightPlaced(s, steps, sid, id);
    match step {
      case Renew(other, _) => assert FlightPlaced(s, steps, sid, other);
      case Create(_, _, _) =>
      case Select(_, _, _, _) =>
      case Drop(_, _) =>
      case Abort(_, _) =>
      case Logout(_, _) =>
      case Sweep(_) =>
    }
  }

  lemma NothingPlaced(sid: string)
    ensures AllPlaced(NO_SESSIONS, Start, sid)
  {
  }

  lemma {:induction false} RunPlaced(steps: Trace<Step>, sid: string)
    requires Legal(steps) && AllPrompt(steps)
    ensures AllPlaced(Run(steps), steps, sid)
  {
    match steps {
      case Start => NothingPlaced(sid);
      case Then(before, last) =>
        RunPlaced(before, sid);
        StepWritten(Run(before), before, sid, last);
        StepPlaced(Run(before), before, sid, last);
        forall id
          ensures FlightPlaced(Run(steps), steps, sid, id)
        {
          StepFlightPlaced(Run(before), before, sid, last, id);
        }
    }
  }

  /**
   However the requests overlap, as long as renewals are prompt: a lookup is
   accepted exactly when the session was created, was deleted neither by a logout
   nor by a late lookup, and was last written, by whichever renewal came last, at
   most a day before.
   */
  lemma OverlappingDecision(steps: Trace<Step>, sid: string, id: nat, now: Time, renewAt: Time)
    requires Legal(steps) && AllPrompt(steps) && Timely(Run(steps), Select(id, sid, now, renewAt))
    ensures Respond(Run(steps), Select(id, sid, now, renewAt)) ==
            if Standing(steps, sid) && now <= LastWritten(steps, sid) + A.SESSION_DURATION then Found else NoUser
  {
    hide Legal, AllPrompt, Standing, LastWritten;
    RunPlaced(steps, sid);
  }

  /** Two lookups overlap, checked at `a` and `b`. */
  function OverlappingRun(sid: string, user: string, a: Time, b: Time): Trace<Step> {
    Then(Then(Then(Start, Create(sid, user, 0.0)), Select(0, sid, a, a)), Select(1, sid, b, b))
  }

  lemma OverlappingState(sid: string, user: string, a: Time, b: Time)
    requires 0.0 <= a < b <= A.SESSION_DURATION
    ensures Legal(OverlappingRun(sid, user, a, b)) && AllPrompt(OverlappingRun(sid, user, a, b))
    ensures Run(OverlappingRun(sid, user, a, b)) ==
            Store(map[sid := A.Session(user, A.SESSION_DURATION)], {sid},
                  map[0 := Renewing(sid, user, a, a + A.SESSION_DURATION),
                      1 := Renewing(sid, user, b, b + A.SESSION_DURATION)],
                  {0, 1}, b)
    ensures HistoryOf(OverlappingRun(sid, user, a, b), sid)
              == History([Visit(0.0, 0.0), Visit(a, a), Visit(b, b)], false, user)
  {
    var created := Then(Start, Create(sid, user, 0.0));
    assert Run(created) == Store(map[sid := A.Session(user, A.SESSION_DURATION)], {sid}, map[], {}, 0.0);
    assert HistoryOf(created, sid) == History([Visit(0.0, 0.0)], false, user);
    assert Legal(created) && AllPrompt(created);
    var first := Then(created, Select(0, sid, a, a));
    assert Run(first)
        == Run(created).(flights := map[0 := Renewing(sid, user, a, a + A.SESSION_DURATION)], seen := {0}, clock := a);
    assert HistoryOf(first, sid) == History([Visit(0.0, 0.0), Visit(a, a)], false, user);
    assert Legal(first) && AllPrompt(first);
  }

  /** The later one is written first. */
  function CrossedRun(sid: string, user: string, a: Time, b: Time): Trace<Step> {
    Then(Then(OverlappingRun(sid, user, a, b), Renew(1, b)), Renew(0, b))
  }

  lemma CrossedState(sid: string, user: string, a: Time, b: Time)
    requires 0.0 <= a < b <= A.SESSION_DURATION && b - a <= A.EXPIRED_SESSION_GRACE
    ensures Legal(CrossedRun(sid, user, a, b)) && AllPrompt(CrossedRun(sid, user, a, b))
    ensures Run(CrossedRun(sid, user, a, b))
              == Store(map[sid := A.Session(user, a + A.SESSION_DURATION)], {sid}, map[], {0, 1}, b)
    ensures HistoryOf(CrossedRun(sid, user, a, b), sid)
              == History([Visit(0.0, 0.0), Visit(a, a), Visit(b, b)], false, user)
  {
    OverlappingState(sid, user, a, b);
    var overlapping := OverlappingRun(sid, user, a, b);
    var later := Then(overlapping, Renew(1, b));
    assert Run(later) == Run(overlapping).(rows := map[sid := A.Session(user, b + A.SESSION_DURATION)],
                                           flights := map[0 := Renewing(sid, user, a, a + A.SESSION_DURATION)]);
    assert Legal(later) && AllPrompt(later) && HistoryOf(later, sid) == HistoryOf(overlapping, sid);
  }

  /**
   Without the condition the decision differs: of two overlapping lookups the
   earlier is written last, and one that comes within a day of the later lookup,
   but not of the earlier, is refused.
   */
  lemma CrossedRenewalsForget(sid: string, user: string, a: Time, b: Time, t: Time)
    requires 0.0 <= a < b <= A.SESSION_DURATION && b - a <= A.EXPIRED_SESSION_GRACE
    requires a + A.SESSION_DURATION < t <= b + A.SESSION_DURATION
    ensures var steps := CrossedRun(sid, user, a, b);
            && Legal(Then(steps, Select(2, sid, t, t))) && AllPrompt(steps)
            && Live(HistoryOf(Then(steps, Select(2, sid, t, t)), sid))
            && Respond(Run(steps), Select(2, sid, t, t)) == NoUser
  {
    CrossedState(sid, user, a, b);
    VisitKeepsAlive(HistoryOf(CrossedRun(sid, user, a, b), sid), Visit(t, t));
  }

  /** A lookup is accepted at the last moment, and another one refused before the first is written. */
  function RevivedRun(sid: string, user: string, refusedAt: Time): Trace<Step> {
    Then(Then(CheckedRun(sid, user), Select(1, sid, refusedAt, refusedAt)), Renew(0, refusedAt))
  }

  /** Nor is a refusal final: a session that was refused while its renewal was on its way is accepted again. */
  lemma RefusedSessionRevives(sid: string, user: string, refusedAt: Time, t: Time)
    requires A.SESSION_DURATION < refusedAt <= A.SESSION_DURATION + A.EXPIRED_SESSION_GRACE
    requires refusedAt <= t <= A.SESSION_DURATION + A.SESSION_DURATION
    ensures var steps := RevivedRun(sid, user, refusedAt);
            && Legal(Then(steps, Select(2, sid, t, t))) && AllPrompt(steps)
            && Respond(Run(CheckedRun(sid, user)), Select(1, sid, refusedAt, refusedAt)) == NoUser
            && Respond(Run(steps), Select(2, sid, t, t)) == Found
  {
    CheckedState(sid, user);
    var refused := Then(CheckedRun(sid, user), Select(1, sid, refusedAt, refusedAt));
    assert Run(refused).rows == Run(CheckedRun(sid, user)).rows;
    assert Run(refused).flights == Run(CheckedRun(sid, user)).flights[1 := Dropping(sid)];
    assert AllPrompt(CheckedRun(sid, user));
    assert AllPrompt(refused);
  }

  // ---- Whole lookups -------------------------------------------------------

  /** Taken apart, a run of whole lookups is undisturbed. */
  lemma {:induction false} ExpandedIsUndisturbed(steps: Trace<A.Step>, sid: string)
    requires A.Legal(steps)
    ensures Legal(Expand(steps)) && Matches(Run(Expand(steps)), A.Run(steps))
    ensures Undisturbed(Expand(steps), sid)
  {
    ExpandedRun(steps);
    if steps.Then? {
      ExpandedIsUndisturbed(steps.before, sid);
    }
  }

  /** So the decision holds of whole lookups with no further condition. */
  lemma WholeLookupDecision(steps: Trace<A.Step>, sid: string, now: Time, renewAt: Time)
    requires A.Legal(steps) && A.Timely(A.Run(steps), A.Lookup(sid, now, renewAt))
    ensures var h := HistoryOf(Expand(Then(steps, A.Lookup(sid, now, renewAt))), sid);
            A.Respond(A.Run(steps), A.Lookup(sid, now, renewAt)) == if Live(h) then A.User(h.owner) else A.NoUser
  {
    ExpandedIsUndisturbed(steps, sid);
    ExpandedRun(steps);
    var select := Select(Length(steps), sid, now, renewAt);
    LookupIsBoth(Run(Expand(steps)), A.Run(steps), Length(steps), sid, now, renewAt);
    LookupDecision(Expand(steps), sid, Length(steps), now, renewAt);
    RunAgrees(Expand(steps), sid);
  }
}
