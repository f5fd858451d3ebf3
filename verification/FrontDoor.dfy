/**
 The two public routes that stand behind the in-memory limiter, with their
 requests interleaving at every `await`. They share one map, so an eviction
 caused by one scope may forget a client of the other.

 Beside the map each state carries a log that the program does not keep: every
 stamp recorded for a key since the key was last evicted, none of them pruned.
 */
module FrontDoor {
  import opened Prelude
  import opened SlidingWindow
  import opened Clients

  /** A contact request suspended in the mail server, with the time of its check. */
  datatype Waiting = Waiting(key: Key, checkedAt: Time)

  datatype Door = Door(table: Table, log: map<Key, seq<Time>>, pending: map<nat, Waiting>, clock: Time)

  datatype Step =
    | ContactCheck(id: nat, ip: string, now: Time)
    | Honeypot(ip: string, checkAt: Time, recordAt: Time)
    | Delivered(id: nat, now: Time)
    | NotDelivered(id: nat, now: Time)
    | Beacon(ip: string, checkAt: Time, recordAt: Time)

  const OPENED := Door(NO_CLIENTS, map[], map[], 0.0)

  function LimitsOf(scope: Scope): seq<RateLimit> {
    match scope
    case Contact => [CONTACT_BURST, CONTACT_HOURLY]
    case Analytics => [ANALYTICS_PER_IP]
  }

  function Horizon(scope: Scope): nat {
    Longest(LimitsOf(scope))
  }

  function LogOf(d: Door, k: Key): seq<Time> {
    if k in d.log then d.log[k] else []
  }

  /** What the limiter answers. */
  function Answer(d: Door, k: Key, now: Time): Option<nat> {
    Verdict(Deque(d.table, k), now, LimitsOf(k.scope))
  }

  function Look(d: Door, k: Key, now: Time): Door {
    d.(table := Checked(d.table, k, now, LimitsOf(k.scope)), clock := now)
  }

  function Mark(d: Door, k: Key, now: Time, cap: nat): Door {
    var full := Put(d.table, k, Deque(d.table, k) + [now]);
    var log := d.log[k := LogOf(d, k) + [now]];
    d.(table := Recorded(d.table, k, now, cap),
       log := map x | x in log && x !in Victims(full, cap) :: log[x],
       clock := now)
  }

  /** Check and record with no await between them. */
  function LookAndMark(d: Door, k: Key, checkAt: Time, recordAt: Time, cap: nat): Door {
    var looked := Look(d, k, checkAt);
    if Answer(d, k, checkAt) == None then Mark(looked, k, recordAt, cap) else looked
  }

  function Apply(d: Door, s: Step, cap: nat): Door {
    match s
    case ContactCheck(id, ip, now) =>
      var k := Key(Contact, ip);
      var looked := Look(d, k, now);
      if Answer(d, k, now) == None then looked.(pending := d.pending[id := Waiting(k, now)]) else looked
    case Honeypot(ip, checkAt, recordAt) => LookAndMark(d, Key(Contact, ip), checkAt, recordAt, cap)
    case Delivered(id, now) =>
      if id in d.pending then
        Mark(d, d.pending[id].key, now, cap).(pending := d.pending - {id})
      else d
    case NotDelivered(id, now) => d.(pending := d.pending - {id}, clock := now)
    case Beacon(ip, checkAt, recordAt) => LookAndMark(d, Key(Analytics, ip), checkAt, recordAt, cap)
  }

  /** The clock never runs backwards, and every request has its own id. */
  predicate Timely(d: Door, s: Step) {
    match s
    case ContactCheck(id, _, now) => d.clock <= now && id !in d.pending
    case Honeypot(_, checkAt, recordAt) => d.clock <= checkAt <= recordAt
    case Delivered(id, now) => id in d.pending && d.clock <= now
    case NotDelivered(id, now) => id in d.pending && d.clock <= now
    case Beacon(_, checkAt, recordAt) => d.clock <= checkAt <= recordAt
  }

  function Run(steps: Trace<Step>, cap: nat): Door {
    match steps
    case Start => OPENED
    case Then(before, last) => Apply(Run(before, cap), last, cap)
  }

  ghost predicate Legal(steps: Trace<Step>, cap: nat) {
    match steps
    case Start => true
    case Then(before, last) => Legal(before, cap) && Timely(Run(before, cap), last)
  }

  // ---- The pruned deque against the full log -------------------------------

  ghost predicate SortedUpTo(stamps: seq<Time>, now: Time) {
    && (forall i, j :: 0 <= i < j < |stamps| ==> stamps[i] <= stamps[j])
    && (forall i :: 0 <= i < |stamps| ==> stamps[i] <= now)
  }

  /** The deque is the log but for stamps too old for any limit of the scope, and both are sorted. */
  ghost predicate Faithful(log: seq<Time>, kept: seq<Time>, now: Time, horizon: nat) {
    DroppedBefore(log, kept, now - horizon as Time) && SortedUpTo(log, now)
  }

  ghost predicate Agrees(d: Door, k: Key) {
    Faithful(LogOf(d, k), Deque(d.table, k), d.clock, Horizon(k.scope))
  }

  lemma FaithfulLater(log: seq<Time>, kept: seq<Time>, early: Time, late: Time, horizon: nat)
    requires Faithful(log, kept, early, horizon) && early <= late
    ensures Faithful(log, kept, late, horizon)
  {
  }

  lemma FaithfulPruned(log: seq<Time>, kept: seq<Time>, now: Time, horizon: nat)
    requires Faithful(log, kept, now, horizon)
    ensures Faithful(log, Prune(kept, now, horizon), now, horizon)
  {
    PruneDropsOld(kept, now, horizon);
    DroppedTwice(log, kept, Prune(kept, now, horizon), now - horizon as Time, now - horizon as Time);
  }

  lemma FaithfulSnoc(log: seq<Time>, kept: seq<Time>, now: Time, horizon: nat)
    requires Faithful(log, kept, now, horizon)
    ensures Faithful(log + [now], kept + [now], now, horizon)
  {
    assert (log + [now])[|log| - |kept|..] == kept + [now];
  }

  lemma PutAt(t: Table, k: Key, stamps: seq<Time>, x: Key)
    ensures Deque(Put(t, k, stamps), x) == if x == k then stamps else Deque(t, x)
    ensures Valid(t) ==> Valid(Put(t, k, stamps))
  {
  }

  lemma LookAgrees(d: Door, k: Key, now: Time, x: Key)
    requires Valid(d.table) && Agrees(d, x) && d.clock <= now
    ensures Valid(Look(d, k, now).table) && Agrees(Look(d, k, now), x)
  {
    PutAt(d.table, k, Prune(Deque(d.table, k), now, Horizon(k.scope)), x);
    FaithfulLater(LogOf(d, x), Deque(d.table, x), d.clock, now, Horizon(x.scope));
    FaithfulPruned(LogOf(d, x), Deque(d.table, x), now, Horizon(x.scope));
  }

  /** What a record does to the deque and the log of any key. */
  lemma MarkAt(d: Door, k: Key, now: Time, cap: nat, x: Key)
    requires Valid(d.table)
    ensures Valid(Mark(d, k, now, cap).table)
    ensures var after := Mark(d, k, now, cap);
            || (LogOf(after, x) == [] && Deque(after.table, x) == [])
            || (x == k && LogOf(after, x) == LogOf(d, x) + [now] && Deque(after.table, x) == Deque(d.table, x) + [now])
            || (x != k && LogOf(after, x) == LogOf(d, x) && Deque(after.table, x) == Deque(d.table, x))
  {
    var full := Put(d.table, k, Deque(d.table, k) + [now]);
    PutAt(d.table, k, Deque(d.table, k) + [now], x);
    EvictionDropsExcess(full, cap);
    EvictionAt(full, cap, x);
  }

  lemma MarkAgrees(d: Door, k: Key, now: Time, cap: nat, x: Key)
    requires Valid(d.table) && Agrees(d, x) && d.clock <= now
    ensures Valid(Mark(d, k, now, cap).table) && Agrees(Mark(d, k, now, cap), x)
  {
    MarkAt(d, k, now, cap, x);
    FaithfulLater(LogOf(d, x), Deque(d.table, x), d.clock, now, Horizon(x.scope));
    FaithfulSnoc(LogOf(d, x), Deque(d.table, x), now, Horizon(x.scope));
  }

  lemma LookAndMarkAgrees(d: Door, k: Key, checkAt: Time, recordAt: Time, cap: nat, x: Key)
    requires Valid(d.table) && Agrees(d, x) && d.clock <= checkAt <= recordAt
    ensures Valid(LookAndMark(d, k, checkAt, recordAt, cap).table)
              && Agrees(LookAndMark(d, k, checkAt, recordAt, cap), x)
  {
    LookAgrees(d, k, checkAt, x);
    if Answer(d, k, checkAt) == None {
      MarkAgrees(Look(d, k, checkAt), k, recordAt, cap, x);
    }
  }

  lemma StepAgrees(d: Door, s: Step, cap: nat, x: Key)
    requires Valid(d.table) && Agrees(d, x) && Timely(d, s)
    ensures Valid(Apply(d, s, cap).table) && Agrees(Apply(d, s, cap), x)
  {
    match s {
      case ContactCheck(id, ip, now) => LookAgrees(d, Key(Contact, ip), now, x);
      case Honeypot(ip, checkAt, recordAt) => LookAndMarkAgrees(d, Key(Contact, ip), checkAt, recordAt, cap, x);
      case Delivered(id, now) => MarkAgrees(d, d.pending[id].key, now, cap, x);
      case NotDelivered(id, now) => FaithfulLater(LogOf(d, x), Deque(d.table, x), d.clock, now, Horizon(x.scope));
      case Beacon(ip, checkAt, recordAt) => LookAndMarkAgrees(d, Key(Analytics, ip), checkAt, recordAt, cap, x);
    }
  }

  lemma {:induction false} RunAgrees(steps: Trace<Step>, cap: nat, x: Key)
    requires Legal(steps, cap)
    ensures Valid(Run(steps, cap).table) && Agrees(Run(steps, cap), x)
  {
    match steps {
      case Start =>
      case Then(before, last) =>
        RunAgrees(before, cap, x);
        StepAgrees(Run(before, cap), last, cap, x);
    }
  }

  lemma VerdictFromLog(log: seq<Time>, kept: seq<Time>, clock: Time, now: Time, scope: Scope)
    requires Faithful(log, kept, clock, Horizon(scope)) && clock <= now
    ensures Verdict(kept, now, LimitsOf(scope)) == Verdict(log, now, LimitsOf(scope))
  {
    forall l | l in LimitsOf(scope)
      ensures clock - Horizon(scope) as Time <= now - l.Window()
    {
      LongestCovers(LimitsOf(scope), l);
    }
    DroppedUnseen(log, kept, clock - Horizon(scope) as Time, now, LimitsOf(scope));
  }

  /**
   Over every run, the limiter answers from its pruned deques exactly what it
   would answer from everything recorded since the key was last evicted.
   */
  lemma AnswersFromFullHistory(steps: Trace<Step>, cap: nat, k: Key, now: Time)
    requires Legal(steps, cap) && Run(steps, cap).clock <= now
    ensures Answer(Run(steps, cap), k, now) == Verdict(LogOf(Run(steps, cap), k), now, LimitsOf(k.scope))
    ensures SortedUpTo(Deque(Run(steps, cap).table, k), Run(steps, cap).clock)
  {
    RunAgrees(steps, cap, k);
    VerdictFromLog(LogOf(Run(steps, cap), k), Deque(Run(steps, cap).table, k), Run(steps, cap).clock, now, k.scope);
  }

  // ---- The answer in numbers -----------------------------------------------

  /**
   Over every run: a contact client with a record in the last five minutes is
   told when the first of those leaves that window; otherwise one with five in
   the last hour is told when the first of those leaves that one; any other passes.
   */
  lemma ContactAnswer(steps: Trace<Step>, cap: nat, ip: string, now: Time)
    requires Legal(steps, cap) && Run(steps, cap).clock <= now
    ensures var log, r := LogOf(Run(steps, cap), Key(Contact, ip)), Answer(Run(steps, cap), Key(Contact, ip), now);
            if exists i :: 0 <= i < |log| && log[i] > now - 300.0 then r.Some?
                && IsWait(log, now, RateLimit(1, 300), r.value)
            else if |set i | 0 <= i < |log| && log[i] > now - 3600.0| >= 5 then
              r.Some? && IsWait(log, now, RateLimit(5, 3600), r.value)
            else r.None?
  {
    var log, r := LogOf(Run(steps, cap), Key(Contact, ip)), Answer(Run(steps, cap), Key(Contact, ip), now);
    AnswersFromFullHistory(steps, cap, Key(Contact, ip), now);
    hide Legal, Run, LogOf, Answer, Verdict, IsWait;
    VerdictIsFirstFull(log, now, LimitsOf(Contact));
    TwoLimits(log, now, r);
  }

  lemma TwoLimits(log: seq<Time>, now: Time, r: Option<nat>)
    requires IsVerdict(log, now, [RateLimit(1, 300), RateLimit(5, 3600)], r)
    ensures if exists i :: 0 <= i < |log| && log[i] > now - 300.0 then r.Some?
              && IsWait(log, now, RateLimit(1, 300), r.value)
            else if |set i | 0 <= i < |log| && log[i] > now - 3600.0| >= 5 then
              r.Some? && IsWait(log, now, RateLimit(5, 3600), r.value)
            else r.None?
  {
    var limits := [RateLimit(1, 300), RateLimit(5, 3600)];
    var burst, hourly := Counted(log, now, limits[0]), Counted(log, now, limits[1]);
    assert hourly == set i | 0 <= i < |log| && log[i] > now - 3600.0;
    assert limits[0] in limits && limits[1] in limits;
    if i :| 0 <= i < |log| && log[i] > now - 300.0 {
      assert i in burst && |burst| >= 1;
    } else {
      assert burst == {};
    }
  }

  /** The same for beacons: 300 in the last minute. */
  lemma BeaconAnswer(steps: Trace<Step>, cap: nat, ip: string, now: Time)
    requires Legal(steps, cap) && Run(steps, cap).clock <= now
    ensures var log, r := LogOf(Run(steps, cap), Key(Analytics, ip)), Answer(Run(steps, cap), Key(Analytics, ip), now);
            if |set i | 0 <= i < |log| && log[i] > now - 60.0| >= 300 then
              r.Some? && IsWait(log, now, RateLimit(300, 60), r.value)
            else r.None?
  {
    var log, r := LogOf(Run(steps, cap), Key(Analytics, ip)), Answer(Run(steps, cap), Key(Analytics, ip), now);
    AnswersFromFullHistory(steps, cap, Key(Analytics, ip), now);
    hide Legal, Run, LogOf, Answer, Verdict, IsWait;
    VerdictIsFirstFull(log, now, LimitsOf(Analytics));
    OneLimit(log, now, r);
  }

  lemma OneLimit(log: seq<Time>, now: Time, r: Option<nat>)
    requires IsVerdict(log, now, [RateLimit(300, 60)], r)
    ensures if |set i | 0 <= i < |log| && log[i] > now - 60.0| >= 300 then
              r.Some? && IsWait(log, now, RateLimit(300, 60), r.value)
            else r.None?
  {
    var limits := [RateLimit(300, 60)];
    assert Counted(log, now, limits[0]) == set i | 0 <= i < |log| && log[i] > now - 60.0;
    assert limits[0] in limits;
  }
}
