/**
 Logins interleaving: a request counts the failures, looks up the last one,
 checks the password and records the outcome, each step possibly long after the
 one before, with other requests and retention sweeps in between. A request may
 also end before its record, by an error of the database or its client leaving.
 */
module LoginRuns {
  import opened Prelude
  import opened Windows
  import opened Tables
  import opened LoginLimiter

  const LOGIN_ATTEMPT_RETENTION: Time := 30.0 * DAY

  /** Where a request is suspended. */
  datatype Phase =
    | BackingOff(ip: string, countedAt: Time, failures: nat)
    | Authenticating(ip: string, countedAt: Time, clearedAt: Time)

  datatype Logins = Logins(attempts: seq<Row<Attempt>>, waiting: map<nat, Phase>, clock: Time)

  datatype Step =
    | Count(id: nat, ip: string, now: Time)
    | LookUpLast(id: nat, now: Time)
    | Fail(id: nat, stamp: Time, now: Time)
    | Succeed(id: nat, stamp: Time, now: Time)
    | Abort(id: nat, now: Time)
    | Sweep(now: Time)

  /** What the client, or the next step of its request, gets to know. */
  datatype Reply = Proceed | RetryAfter(seconds: nat) | Unauthorized | Authenticated | Aborted | Swept

  const NO_LOGINS := Logins([], map[], 0.0)

  function Respond(l: Logins, s: Step): Reply {
    match s
    case Count(_, ip, now) =>
      if RecentFailures(l.attempts, ip, now) >= RATE_LIMIT_MAX_ATTEMPTS then RetryAfter(RATE_LIMIT_WINDOW) else Proceed
    case LookUpLast(id, now) =>
      if id in l.waiting && l.waiting[id].BackingOff? then
        match BackoffVerdict(l.waiting[id].failures, Latest(Failures(l.attempts, l.waiting[id].ip)), now)
        case Some(r) => RetryAfter(r)
        case None => Proceed
      else Proceed
    case Fail(_, _, _) => Unauthorized
    case Succeed(_, _, _) => Authenticated
    case Abort(_, _) => Aborted
    case Sweep(_) => Swept
  }

  function Apply(l: Logins, s: Step): Logins {
    match s
    case Count(id, ip, now) =>
      var n := RecentFailures(l.attempts, ip, now);
      if n >= RATE_LIMIT_MAX_ATTEMPTS then l.(clock := now)
      else if n == 0 then l.(waiting := l.waiting[id := Authenticating(ip, now, now)], clock := now)
      else l.(waiting := l.waiting[id := BackingOff(ip, now, n)], clock := now)
    case LookUpLast(id, now) =>
      if id in l.waiting && l.waiting[id].BackingOff? then
        if Respond(l, s) == Proceed then
          l.(waiting := l.waiting[id := Authenticating(l.waiting[id].ip, l.waiting[id].countedAt, now)], clock := now)
        else l.(waiting := l.waiting - {id}, clock := now)
      else l
    case Fail(id, stamp, now) => Insert(l, id, false, stamp, now)
    case Succeed(id, stamp, now) => Insert(l, id, true, stamp, now)
    case Abort(id, now) => l.(waiting := l.waiting - {id}, clock := now)
    case Sweep(now) => l.(attempts := Since(l.attempts, now - LOGIN_ATTEMPT_RETENTION), clock := now)
  }

  function Insert(l: Logins, id: nat, success: bool, stamp: Time, now: Time): Logins {
    if id in l.waiting then
      Logins(l.attempts + [Row(stamp, Attempt(l.waiting[id].ip, success))], l.waiting - {id}, now)
    else l
  }

  /**
   Steps happen in clock order and in the order of the route. The database
   stamps a row with the start of its transaction, which is the count query.
   */
  predicate Timely(l: Logins, s: Step) {
    l.clock <= s.now &&
    match s
    case Count(id, _, _) => id !in l.waiting
    case LookUpLast(id, _) => id in l.waiting && l.waiting[id].BackingOff?
    case Fail(id, stamp, now) =>
        id in l.waiting && l.waiting[id].Authenticating? && l.waiting[id].countedAt <= stamp <= now
    case Succeed(id, stamp, now) =>
        id in l.waiting && l.waiting[id].Authenticating? && l.waiting[id].countedAt <= stamp <= now
    case Abort(id, _) => id in l.waiting
    case Sweep(_) => true
  }

  function Run(steps: Trace<Step>): Logins {
    match steps
    case Start => NO_LOGINS
    case Then(before, last) => Apply(Run(before), last)
  }

  ghost predicate Legal(steps: Trace<Step>) {
    match steps
    case Start => true
    case Then(before, last) => Legal(before) && Timely(Run(before), last)
  }

  // ---- Sweeps leave every answer alone -------------------------------------

  /** Two tables agree from a moment on. */
  ghost predicate AgreeFrom(a: seq<Row<Attempt>>, b: seq<Row<Attempt>>, since: Time) {
    Since(a, since) == Since(b, since)
  }

  /** The same state but for rows older than the retention, which are gone on the left. */
  ghost predicate Related(swept: Logins, kept: Logins) {
    && swept.waiting == kept.waiting
    && kept.clock <= swept.clock
    && AgreeFrom(swept.attempts, kept.attempts, swept.clock - LOGIN_ATTEMPT_RETENTION)
  }

  lemma FailuresSnoc(rows: seq<Row<Attempt>>, row: Row<Attempt>, ip: string)
    ensures Failures(rows + [row], ip) ==
            if row.body.ip == ip && !row.body.success then Failures(rows, ip) + [row.createdAt] else Failures(rows, ip)
  {
    assert (rows + [row])[..|rows|] == rows;
  }

  lemma {:induction false} SinceCounts(rows: seq<Row<Attempt>>, ip: string, cutoff: Time)
    ensures CountAfter(Failures(Since(rows, cutoff), ip), cutoff, Closed)
              == CountAfter(Failures(rows, ip), cutoff, Closed)
  {
    if |rows| > 0 {
      var front, last := rows[..|rows| - 1], rows[|rows| - 1];
      SinceCounts(front, ip, cutoff);
      FailuresSnoc(Since(front, cutoff), last, ip);
      CountAfterSnoc(Failures(front, ip), last.createdAt, cutoff, Closed);
      CountAfterSnoc(Failures(Since(front, cutoff), ip), last.createdAt, cutoff, Closed);
    }
  }

  /** The last failure since a moment is the last failure, if that is no older. */
  lemma {:induction false} SinceLatest(rows: seq<Row<Attempt>>, ip: string, cutoff: Time)
    ensures var last, recent := Latest(Failures(rows, ip)), Latest(Failures(Since(rows, cutoff), ip));
            recent == if last.Some? && last.value >= cutoff then last else None
  {
    if |rows| > 0 {
      var front, last := rows[..|rows| - 1], rows[|rows| - 1];
      SinceLatest(front, ip, cutoff);
      FailuresSnoc(Since(front, cutoff), last, ip);
      LatestSnoc(Failures(front, ip), last.createdAt);
      LatestSnoc(Failures(Since(front, cutoff), ip), last.createdAt);
    }
  }

  lemma LatestSnoc(stamps: seq<Time>, stamp: Time)
    ensures Latest(stamps + [stamp]) ==
            match Latest(stamps) case None => Some(stamp) case Some(t) => Some(if t > stamp then t else stamp)
  {
    assert (stamps + [stamp])[..|stamps|] == stamps;
  }

  lemma SameCount(a: seq<Row<Attempt>>, b: seq<Row<Attempt>>, agreeFrom: Time, ip: string, now: Time)
    requires AgreeFrom(a, b, agreeFrom) && agreeFrom <= now - RATE_LIMIT_WINDOW as Time
    ensures RecentFailures(a, ip, now) == RecentFailures(b, ip, now)
  {
    var cutoff := now - RATE_LIMIT_WINDOW as Time;
    AgreeLater(a, b, agreeFrom, cutoff);
    SinceCounts(a, ip, cutoff);
    SinceCounts(b, ip, cutoff);
  }

  /** The last failure has no time bound in the query, but one that old is past every backoff. */
  lemma SameBackoff(a: seq<Row<Attempt>>, b: seq<Row<Attempt>>, agreeFrom: Time, ip: string, failures: nat, now: Time)
    requires AgreeFrom(a, b, agreeFrom) && agreeFrom <= now - BACKOFF_CAP_SECONDS as Time
    ensures BackoffVerdict(failures, Latest(Failures(a, ip)), now)
              == BackoffVerdict(failures, Latest(Failures(b, ip)), now)
  {
    SinceLatest(a, ip, agreeFrom);
    SinceLatest(b, ip, agreeFrom);
  }

  lemma InsertAgrees(a: seq<Row<Attempt>>, b: seq<Row<Attempt>>, row: Row<Attempt>, since: Time)
    requires AgreeFrom(a, b, since)
    ensures AgreeFrom(a + [row], b + [row], since)
  {
    SinceSnoc(a, row, since);
    SinceSnoc(b, row, since);
  }

  lemma AgreesLater(a: seq<Row<Attempt>>, b: seq<Row<Attempt>>, early: Time, late: Time)
    requires AgreeFrom(a, b, early) && early <= late
    ensures AgreeFrom(a, b, late) && AgreeFrom(Since(a, late), b, late)
  {
    AgreeLater(a, b, early, late);
    PurgeUnseen(a, late, late);
  }

  /** Both decisions see the same failures. */
  lemma SameDecision(swept: Logins, kept: Logins, s: Step)
    requires Related(swept, kept) && Timely(swept, s)
    ensures s.Count? ==> RecentFailures(swept.attempts, s.ip, s.now) == RecentFailures(kept.attempts, s.ip, s.now)
    ensures s.LookUpLast? ==>
              var p := swept.waiting[s.id];
              BackoffVerdict(p.failures, Latest(Failures(swept.attempts, p.ip)), s.now)
                == BackoffVerdict(p.failures, Latest(Failures(kept.attempts, p.ip)), s.now)
  {
    hide RecentFailures, BackoffVerdict, Failures, Latest;
    var before := swept.clock - LOGIN_ATTEMPT_RETENTION;
    match s {
      case Count(_, ip, now) => SameCount(swept.attempts, kept.attempts, before, ip, now);
      case LookUpLast(id, now) =>
        SameBackoff(swept.attempts, kept.attempts, before, swept.waiting[id].ip, swept.waiting[id].failures, now);
      case _ =>
    }
  }

  lemma StepRelated(swept: Logins, kept: Logins, s: Step)
    requires Related(swept, kept) && Timely(swept, s)
    ensures Respond(swept, s) == (if s.Sweep? then Swept else Respond(kept, s))
    ensures s.Sweep? ==> Related(Apply(swept, s), kept)
    ensures !s.Sweep? ==> Timely(kept, s) && Related(Apply(swept, s), Apply(kept, s))
  {
    hide RecentFailures, BackoffVerdict, Failures, Latest, AgreeFrom, Since;
    SameDecision(swept, kept, s);
    var before, after := swept.clock - LOGIN_ATTEMPT_RETENTION, s.now - LOGIN_ATTEMPT_RETENTION;
    AgreesLater(swept.attempts, kept.attempts, before, after);
    match s {
      case Fail(id, stamp, _) =>
        InsertAgrees(swept.attempts, kept.attempts, Row(stamp, Attempt(swept.waiting[id].ip, false)), after);
      case Succeed(id, stamp, _) =>
        InsertAgrees(swept.attempts, kept.attempts, Row(stamp, Attempt(swept.waiting[id].ip, true)), after);
      case _ =>
    }
  }

  /** The run as it would have been without a single sweep. */
  function Erase(steps: Trace<Step>): Trace<Step> {
    match steps
    case Start => Start
    case Then(before, last) => if last.Sweep? then Erase(before) else Then(Erase(before), last)
  }

  /** What is left is every step but the sweeps, each as often as before. */
  lemma {:induction false} ErasedIsExact(steps: Trace<Step>, x: Step)
    ensures Times(Erase(steps), x) == if x.Sweep? then 0 else Times(steps, x)
  {
    if steps.Then? {
      ErasedIsExact(steps.before, x);
    }
  }

  /** All answers of a run, sweeps aside. */
  function Replies(steps: Trace<Step>): seq<Reply> {
    match steps
    case Start => []
    case Then(before, last) => if last.Sweep? then Replies(before) else Replies(before) + [Respond(Run(before), last)]
  }

  /** Sweeps inserted anywhere change no answer of any run. */
  lemma {:induction false} SweepsUnseen(steps: Trace<Step>)
    requires Legal(steps)
    ensures Legal(Erase(steps)) && Related(Run(steps), Run(Erase(steps)))
    ensures Replies(steps) == Replies(Erase(steps))
    ensures steps.Then? && !steps.last.Sweep? ==>
              Respond(Run(steps.before), steps.last) == Respond(Run(Erase(steps.before)), steps.last)
  {
    match steps {
      case Start =>
      case Then(before, last) =>
        SweepsUnseen(before);
        StepRelated(Run(before), Run(Erase(before)), last);
    }
  }
}
