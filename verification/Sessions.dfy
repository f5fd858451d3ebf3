/**
 Admin sessions, a request at a time: created by a login, renewed by every
 accepted lookup, deleted by a late lookup, a logout or a sweep. A lookup reads
 the clock twice, once to check the expiry and once to renew it. What overlapping
 lookups do is the subject of `SessionLookups` and `SessionHistory`.
 */
module Sessions {
  import opened Prelude

  const SESSION_DURATION: Time := 24.0 * HOUR
  const EXPIRED_SESSION_GRACE: Time := HOUR

  datatype Session = Session(user: string, expiresAt: Time)

  /** The table, with the ids ever issued and the latest clock reading. */
  datatype Store = Store(rows: map<string, Session>, issued: set<string>, clock: Time)

  datatype Step =
    | Create(sid: string, user: string, now: Time)
    | Lookup(sid: string, now: Time, renewAt: Time)
    | Logout(sid: string, now: Time)
    | Sweep(now: Time)

  datatype Reply = Created | User(user: string) | NoUser | LoggedOut | Swept

  const NO_SESSIONS := Store(map[], {}, 0.0)

  predicate Accepts(s: Store, sid: string, now: Time) {
    sid in s.rows && !(s.rows[sid].expiresAt < now)
  }

  function Respond(s: Store, step: Step): Reply {
    match step
    case Create(_, _, _) => Created
    case Lookup(sid, now, _) => if Accepts(s, sid, now) then User(s.rows[sid].user) else NoUser
    case Logout(_, _) => LoggedOut
    case Sweep(_) => Swept
  }

  /** DELETE ... WHERE expires_at < cutoff. */
  function Purge(rows: map<string, Session>, cutoff: Time): map<string, Session> {
    map sid | sid in rows && !(rows[sid].expiresAt < cutoff) :: rows[sid]
  }

  function Apply(s: Store, step: Step): Store {
    match step
    case Create(sid, user, now) => Store(s.rows[sid := Session(user, now + SESSION_DURATION)], s.issued + {sid}, now)
    case Lookup(sid, now, renewAt) =>
      if Accepts(s, sid, now) then
        s.(rows := s.rows[sid := Session(s.rows[sid].user, renewAt + SESSION_DURATION)], clock := renewAt)
      else s.(rows := s.rows - {sid}, clock := renewAt)
    case Logout(sid, now) => s.(rows := s.rows - {sid}, clock := now)
    case Sweep(now) => s.(rows := Purge(s.rows, now - EXPIRED_SESSION_GRACE), clock := now)
  }

  /** The clock never runs backwards, and ids are never issued twice. */
  predicate Timely(s: Store, step: Step) {
    s.clock <= step.now &&
    match step
    case Create(sid, _, _) => sid !in s.issued
    case Lookup(_, now, renewAt) => now <= renewAt
    case _ => true
  }

  function Run(steps: Trace<Step>): Store {
    match steps
    case Start => NO_SESSIONS
    case Then(before, last) => Apply(Run(before), last)
  }

  ghost predicate Legal(steps: Trace<Step>) {
    match steps
    case Start => true
    case Then(before, last) => Legal(before) && Timely(Run(before), last)
  }
}
