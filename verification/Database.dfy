/**
 The services that change rows, as one request at a time sees them. What
 interleaving does to them is the subject of the modules about runs.
 */
module Database {
  import opened Prelude
  import opened Tables
  import opened Events
  import opened LoginLimiter
  import LoginRuns
  import EventRuns
  import Sessions
  import Metadata

  /** `total.rowcount` of each table a sweep has purged. */
  datatype Deleted = Deleted(events: nat, attempts: nat, sessions: nat)

  datatype LoginReply = TooMany(retryAfter: nat) | Unauthorized | Authenticated(sid: string, expiresAt: Time)

  /** A validated beacon, its client's address and agent already reduced to a hash and a class. */
  datatype Payload = Payload(
    kind: EventType,
    session: string,
    slug: Option<string>,
    locale: Option<Locale>,
    metadata: Option<map<string, string>>)

  /** The row that a beacon becomes. */
  function EventOf(p: Payload, ipHash: string, device: string): Event {
    var stored := Metadata.Stored(p.metadata);
    Event(p.kind, p.session, p.slug, p.locale, stored.0, Some(ipHash), Some(device), stored.1)
  }

  /** Column by column, the row that should be stored. */
  ghost predicate IsRowOf(row: Row<Event>, p: Payload, ipHash: string, device: string, stamp: Time) {
    && row.createdAt == stamp
    && row.body.kind == p.kind && row.body.session == p.session && row.body.slug == p.slug
        && row.body.locale == p.locale
    && row.body.ipHash == Some(ipHash) && row.body.device == Some(device)
    && row.body.referrer == Sent(p, "ref")
    && forall key :: (if key in row.body.metadata then Some(row.body.metadata[key]) else None)
                  == if key == "ref" then None else Sent(p, key)
  }

  /** What the payload has under a key. */
  function Sent(p: Payload, key: string): Option<string> {
    if p.metadata.Some? && key in p.metadata.value then Some(p.metadata.value[key]) else None
  }

  lemma EventIsRow(p: Payload, ipHash: string, device: string, stamp: Time)
    ensures IsRowOf(Row(stamp, EventOf(p, ipHash, device)), p, ipHash, device, stamp)
  {
  }

  /** Such a row holds the sanitised metadata of the beacon, exactly. */
  lemma RowRebuilds(row: Row<Event>, p: Payload, ipHash: string, device: string, stamp: Time,
                    sent: Option<map<string, Metadata.Json>>)
    requires IsRowOf(row, p, ipHash, device, stamp) && p.metadata == Metadata.Sanitized(sent)
    ensures Metadata.Rebuilt((row.body.metadata, row.body.referrer)) == Metadata.Sanitized(sent)
  {
    Metadata.StoredRebuilds(sent);
    var stored := Metadata.Stored(p.metadata);
    assert stored.1 == row.body.referrer;
    forall key
      ensures key in stored.0 <==> key in row.body.metadata
      ensures key in stored.0 ==> stored.0[key] == row.body.metadata[key]
    {
      assert (if key in row.body.metadata then Some(row.body.metadata[key]) else None)
          == if key == "ref" then None else Sent(p, key);
    }
    assert stored.0 == row.body.metadata;
  }

  /** The path compared by the duplicate check is the path that would be stored. */
  lemma PathIsStored(p: Payload, ipHash: string, device: string)
    ensures PathOf(EventOf(p, ipHash, device)) ==
            if p.metadata.Some? && "path" in p.metadata.value then Some(p.metadata.value["path"]) else None
  {
    assert "path"[0] != "ref"[0];
  }

  class Store {
    var attempts: seq<Row<Attempt>>
    var events: Rows
    var sessions: map<string, Sessions.Session>

    // ---- auth_service and its routes ---------------------------------------

    method RecordLoginAttempt(ip: string, success: bool, stamp: Time)
      modifies this`attempts
      ensures attempts == old(attempts) + [Row(stamp, Attempt(ip, success))]
    {
      attempts := attempts + [Row(stamp, Attempt(ip, success))];
    }

    method CreateSession(sid: string, user: string, now: Time) returns (expiresAt: Time)
      modifies this`sessions
      ensures expiresAt == now + Sessions.SESSION_DURATION
      ensures sessions == old(sessions)[sid := Sessions.Session(user, expiresAt)]
    {
      expiresAt := now + Sessions.SESSION_DURATION;
      sessions := sessions[sid := Sessions.Session(user, expiresAt)];
    }

    /** An expired session is deleted on sight, any other is renewed. */
    method GetSessionUser(sid: string, now: Time, renewAt: Time) returns (user: Option<string>)
      modifies this`sessions
      ensures var before := Sessions.Store(old(sessions), {}, now);
              && sessions == Sessions.Apply(before, Sessions.Lookup(sid, now, renewAt)).rows
              && Sessions.Respond(before, Sessions.Lookup(sid, now, renewAt)) ==
                   (if user.Some? then Sessions.User(user.value) else Sessions.NoUser)
    {
      if sid !in sessions {
        assert sessions - {sid} == sessions;
        return None;
      }
      var session := sessions[sid];
      if session.expiresAt < now {
        sessions := sessions - {sid};
        return None;
      }
      sessions := sessions[sid := Sessions.Session(session.user, renewAt + Sessions.SESSION_DURATION)];
      user := Some(session.user);
    }

    method DeleteSession(sid: string)
      modifies this`sessions
      ensures sessions == old(sessions) - {sid}
    {
      if sid in sessions {
        sessions := sessions - {sid};
      } else {
        assert sessions - {sid} == sessions;
      }
    }

    /** The limiter's decision; it changes nothing. */
    method LimitLogins(ip: string, counted: Time, measured: Time) returns (retry: Option<nat>)
      ensures retry == CheckRateLimit(attempts, ip, counted, measured)
      ensures IsDecision(attempts, ip, counted, measured, retry)
    {
      DecisionIsExact(attempts, ip, counted, measured);
      var recent := RecentFailures(attempts, ip, counted);
      if recent >= RATE_LIMIT_MAX_ATTEMPTS {
        return Some(RATE_LIMIT_WINDOW);
      }
      if recent == 0 {
        return None;
      }
      var last := Latest(Failures(attempts, ip));
      if last.None? {
        return None;
      }
      var remaining := Backoff(recent) as Time - (measured - last.value);
      retry := if remaining > 0.0 then Some(remaining.Floor) else None;
    }

    /**
     A refused login changes nothing, a wrong password adds one failure, and a
     right one adds a success and a session; `user` is what authentication found.
     */
    method Login(ip: string, user: Option<string>, sid: string, counted: Time, measured: Time, stamp: Time, now: Time)
      returns (reply: LoginReply)
      modifies this`attempts, this`sessions
      ensures reply.TooMany? <==> CheckRateLimit(old(attempts), ip, counted, measured).Some?
      ensures reply.TooMany? ==>
                && reply.retryAfter == CheckRateLimit(old(attempts), ip, counted, measured).value
                && attempts == old(attempts) && sessions == old(sessions)
      ensures !reply.TooMany? ==>
                && attempts == old(attempts) + [Row(stamp, Attempt(ip, user.Some?))]
                && (reply.Authenticated? <==> user.Some?)
      ensures reply.Unauthorized? ==> sessions == old(sessions)
      ensures reply.Authenticated? ==>
                && reply.sid == sid && reply.expiresAt == now + Sessions.SESSION_DURATION
                && sessions == old(sessions)[sid := Sessions.Session(user.value, reply.expiresAt)]
    {
      var retry := LimitLogins(ip, counted, measured);
      if retry.Some? {
        return TooMany(retry.value);
      }
      if user.None? {
        RecordLoginAttempt(ip, false, stamp);
        return Unauthorized;
      }
      RecordLoginAttempt(ip, true, stamp);
      var expiresAt := CreateSession(sid, user.value, now);
      reply := Authenticated(sid, expiresAt);
    }

    // ---- analytics_service -------------------------------------------------

    /** One row exactly when the answer is "recorded", and it is the payload's row. */
    method RecordEvent(p: Payload, bot: bool, ipHash: string, device: string, counted: Time, checked: Time, stamp: Time)
      returns (status: EventRuns.Reply)
      modifies this`events
      ensures status in {EventRuns.Recorded, EventRuns.Ignored, EventRuns.RateLimited}
      ensures events == old(events) + (if status.Recorded? then [Row(stamp, EventOf(p, ipHash, device))] else [])
      ensures status.Recorded? <==>
                && p.session != "" && !bot
                && EventRuns.CountInWindow(old(events), p.session, counted) < EventRuns.EVENT_RATE_LIMIT_MAX
                && !(p.kind == PageView && EventRuns.IsDuplicate(old(events), EventOf(p, ipHash, device), checked))
      ensures status.Recorded? ==>
                |events| == |old(events)| + 1 && IsRowOf(events[|old(events)|], p, ipHash, device, stamp)
      ensures status.Recorded? <==>
                && p.session != "" && !bot
                && |EventRuns.SessionSince(old(events), p.session, counted - 60.0)| < 60
                && !(p.kind == PageView
                    && EventRuns.ViewedSince(old(events), p.session, Sent(p, "path"), checked - 30.0))
      ensures status.RateLimited? <==>
                && p.session != "" && !bot
                && EventRuns.CountInWindow(old(events), p.session, counted) >= EventRuns.EVENT_RATE_LIMIT_MAX
    {
      EventIsRow(p, ipHash, device, stamp);
      PathIsStored(p, ipHash, device);
      EventRuns.DecisionsAreExact(events, EventOf(p, ipHash, device), counted);
      EventRuns.DecisionsAreExact(events, EventOf(p, ipHash, device), checked);
      if p.session == "" || bot {
        return EventRuns.Ignored;
      }
      if EventRuns.CountInWindow(events, p.session, counted) >= EventRuns.EVENT_RATE_LIMIT_MAX {
        return EventRuns.RateLimited;
      }
      var event := EventOf(p, ipHash, device);
      if p.kind == PageView && EventRuns.IsDuplicate(events, event, checked) {
        return EventRuns.Ignored;
      }
      events := events + [Row(stamp, event)];
      status := EventRuns.Recorded;
    }

    // ---- retention_service -------------------------------------------------

    /** Each purge reports exactly the rows that are gone, and every other row stays. */
    method PurgeAnalyticsEvents(now: Time) returns (deleted: nat)
      modifies this`events
      ensures events == Since(old(events), now - ANALYTICS_RETENTION)
      ensures deleted == |Before(old(events), now - ANALYTICS_RETENTION)|
      ensures forall r :: multiset(events)[r] == if r.createdAt >= now - 90.0 * DAY then multiset(old(events))[r] else 0
      ensures deleted + |events| == |old(events)|
    {
      forall r {
        SinceIsExact(events, now - ANALYTICS_RETENTION, r);
      }
      PurgePartitions(events, now - ANALYTICS_RETENTION);
      var kept := Since(events, now - ANALYTICS_RETENTION);
      deleted := |events| - |kept|;
      events := kept;
    }

    method PurgeLoginAttempts(now: Time) returns (deleted: nat)
      modifies this`attempts
      ensures attempts == Since(old(attempts), now - LoginRuns.LOGIN_ATTEMPT_RETENTION)
      ensures deleted == |Before(old(attempts), now - LoginRuns.LOGIN_ATTEMPT_RETENTION)|
      ensures forall r :: multiset(attempts)[r] == if r.createdAt >= now - 30.0 * DAY then multiset(old(attempts))[r]
                else 0
      ensures deleted + |attempts| == |old(attempts)|
    {
      forall r {
        SinceIsExact(attempts, now - LoginRuns.LOGIN_ATTEMPT_RETENTION, r);
      }
      PurgePartitions(attempts, now - LoginRuns.LOGIN_ATTEMPT_RETENTION);
      var kept := Since(attempts, now - LoginRuns.LOGIN_ATTEMPT_RETENTION);
      deleted := |attempts| - |kept|;
      attempts := kept;
    }

    method PurgeExpiredSessions(now: Time) returns (deleted: nat)
      modifies this`sessions
      ensures sessions == Sessions.Purge(old(sessions), now - Sessions.EXPIRED_SESSION_GRACE)
      ensures deleted == |old(sessions).Keys - sessions.Keys|
      ensures forall sid :: sid in sessions <==> sid in old(sessions) && old(sessions)[sid].expiresAt >= now - HOUR
      ensures forall sid :: sid in sessions ==> sessions[sid] == old(sessions)[sid]
    {
      var kept := Sessions.Purge(sessions, now - Sessions.EXPIRED_SESSION_GRACE);
      deleted := |sessions.Keys - kept.Keys|;
      sessions := kept;
    }

    /** The three purges in turn, each with its own clock reading. */
    method PurgeAll(first: Time, second: Time, third: Time) returns (deleted: Deleted)
      modifies this
      ensures events == Since(old(events), first - ANALYTICS_RETENTION)
      ensures attempts == Since(old(attempts), second - LoginRuns.LOGIN_ATTEMPT_RETENTION)
      ensures sessions == Sessions.Purge(old(sessions), third - Sessions.EXPIRED_SESSION_GRACE)
      ensures deleted.events + |events| == |old(events)|
      ensures deleted.attempts + |attempts| == |old(attempts)|
      ensures deleted.sessions + |sessions| == |old(sessions)|
    {
      hide Since, Before;
      PurgedSessions(sessions, third - Sessions.EXPIRED_SESSION_GRACE);
      var e := PurgeAnalyticsEvents(first);
      var a := PurgeLoginAttempts(second);
      var s := PurgeExpiredSessions(third);
      deleted := Deleted(e, a, s);
    }
  }

  lemma PurgedSessions(sessions: map<string, Sessions.Session>, cutoff: Time)
    ensures |sessions.Keys - Sessions.Purge(sessions, cutoff).Keys| + |Sessions.Purge(sessions, cutoff)| == |sessions|
  {
    var kept := Sessions.Purge(sessions, cutoff).Keys;
    assert sessions.Keys == kept + (sessions.Keys - kept);
    assert |Sessions.Purge(sessions, cutoff)| == |kept|;
  }

  // ---- One request at a time is a run --------------------------------------

  /** The steps of an undisturbed login request decide as `CheckRateLimit` does, and add the one row of its outcome. */
  lemma StepsAreLogin(l: LoginRuns.Logins, id: nat, ip: string, counted: Time, measured: Time, stamp: Time, now: Time)
    requires LoginRuns.Timely(l, LoginRuns.Count(id, ip, counted)) && counted <= measured
    ensures var verdict := CheckRateLimit(l.attempts, ip, counted, measured);
            var next := LoginRuns.Apply(l, LoginRuns.Count(id, ip, counted));
            var done :=
              if id in next.waiting && next.waiting[id].BackingOff? then
                LoginRuns.Apply(next, LoginRuns.LookUpLast(id, measured))
              else next;
            && done.attempts == l.attempts
            && (LoginRuns.Respond(l, LoginRuns.Count(id, ip, counted)).RetryAfter? <==> id !in next.waiting)
            && (id !in next.waiting ==>
                  verdict == Some(LoginRuns.Respond(l, LoginRuns.Count(id, ip, counted)).seconds))
            && (id in next.waiting && next.waiting[id].BackingOff? ==>
                  LoginRuns.Respond(next, LoginRuns.LookUpLast(id, measured)) ==
                  (if verdict.None? then LoginRuns.Proceed else LoginRuns.RetryAfter(verdict.value)))
            && (verdict.None? <==> id in done.waiting)
            && (verdict.None? ==> done.waiting[id].Authenticating?)
            && LoginRuns.Respond(done, LoginRuns.Fail(id, stamp, now)) == LoginRuns.Unauthorized
            && LoginRuns.Respond(done, LoginRuns.Succeed(id, stamp, now)) == LoginRuns.Authenticated
            && (verdict.None? ==>
                  && LoginRuns.Apply(done, LoginRuns.Fail(id, stamp, now)).attempts
                      == l.attempts + [Row(stamp, Attempt(ip, false))]
                  && LoginRuns.Apply(done, LoginRuns.Succeed(id, stamp, now)).attempts
                      == l.attempts + [Row(stamp, Attempt(ip, true))])
            && (id in next.waiting && next.waiting[id].BackingOff? ==>
                  LoginRuns.Timely(next, LoginRuns.LookUpLast(id, measured)))
            && (verdict.None? && counted <= stamp <= now && measured <= now ==>
                  && LoginRuns.Timely(done, LoginRuns.Fail(id, stamp, now))
                  && LoginRuns.Timely(done, LoginRuns.Succeed(id, stamp, now))
                  && LoginRuns.Timely(done, LoginRuns.Abort(id, now)))
  {
  }

  /** The steps of an undisturbed beacon store the row under the condition of `RecordEvent`. */
  lemma StepsAreRecordEvent(s: EventRuns.Store, id: nat, bot: bool, e: Event, counted: Time, checked: Time,
                            stamp: Time, now: Time, w: EventRuns.World)
    requires EventRuns.Timely(s, EventRuns.Arrive(id, bot, e, counted)) && counted <= checked
    ensures var arrived := EventRuns.Respond(s, EventRuns.Arrive(id, bot, e, counted), w);
            var crowded := |EventRuns.SessionSince(s.rows, e.session, counted - 60.0)| >= 60;
            && (arrived == EventRuns.Ignored <==> e.session == "" || bot)
            && (arrived == EventRuns.RateLimited <==> e.session != "" && !bot && crowded)
    ensures var next := EventRuns.Apply(s, EventRuns.Arrive(id, bot, e, counted));
            id in next.waiting && next.waiting[id].Deduping? ==>
              var duplicate := EventRuns.ViewedSince(s.rows, e.session, PathOf(e), checked - 30.0);
              (EventRuns.Respond(next, EventRuns.Dedup(id, checked), w) == EventRuns.Ignored <==> duplicate)
    ensures var next := EventRuns.Apply(s, EventRuns.Arrive(id, bot, e, counted));
            var done :=
              if id in next.waiting && next.waiting[id].Deduping? then
                EventRuns.Apply(next, EventRuns.Dedup(id, checked))
              else next;
            && done.rows == s.rows
            && (id in done.waiting <==>
                  && e.session != "" && !bot
                  && EventRuns.CountInWindow(s.rows, e.session, counted) < EventRuns.EVENT_RATE_LIMIT_MAX
                  && !(e.kind == PageView && EventRuns.IsDuplicate(s.rows, e, checked)))
            && (id in done.waiting ==>
                  done.waiting[id].Inserting?
                      && EventRuns.Apply(done, EventRuns.Commit(id, stamp, now)).rows == s.rows + [Row(stamp, e)])
            && (id in next.waiting && next.waiting[id].Deduping? ==>
                  EventRuns.Timely(next, EventRuns.Dedup(id, checked)))
            && (id in done.waiting && counted <= stamp <= now && checked <= now ==>
                  && EventRuns.Timely(done, EventRuns.Commit(id, stamp, now))
                  && EventRuns.Timely(done, EventRuns.Abort(id, now)))
  {
    EventRuns.DecisionsAreExact(s.rows, e, counted);
    EventRuns.DecisionsAreExact(s.rows, e, checked);
  }

  /** A sweep step of each run leaves the table that the purge of that table leaves. */
  lemma SweepsArePurges(l: LoginRuns.Logins, e: EventRuns.Store, s: Sessions.Store, now: Time)
    ensures forall r :: multiset(LoginRuns.Apply(l, LoginRuns.Sweep(now)).attempts)[r]
                     == if r.createdAt >= now - 30.0 * DAY then multiset(l.attempts)[r] else 0
    ensures forall r :: multiset(EventRuns.Apply(e, EventRuns.Sweep(now)).rows)[r]
                     == if r.createdAt >= now - 90.0 * DAY then multiset(e.rows)[r] else 0
    ensures forall sid :: sid in Sessions.Apply(s, Sessions.Sweep(now)).rows
                     <==> sid in s.rows && s.rows[sid].expiresAt >= now - HOUR
    ensures forall sid :: sid in Sessions.Apply(s, Sessions.Sweep(now)).rows ==>
                            Sessions.Apply(s, Sessions.Sweep(now)).rows[sid] == s.rows[sid]
  {
    hide Since, Before;
    forall r {
      SinceIsExact(l.attempts, now - 30.0 * DAY, r);
    }
    forall r {
      SinceIsExact(e.rows, now - 90.0 * DAY, r);
    }
  }
}
