/** How many requests get through the front door, over every interleaving. */
module FrontDoorBounds {
  import opened Prelude
  import opened Windows
  import opened SlidingWindow
  import opened Clients
  import opened FrontDoor
  import A = Admission

  function AsLimit(l: RateLimit): A.Limit {
    A.Limit(l.maxEvents, l.Window(), Open)
  }

  /** Requests of one key between their check and their record. */
  function PendingOf(d: Door, x: Key): map<nat, Time> {
    map id | id in d.pending && d.pending[id].key == x :: d.pending[id].checkedAt
  }

  function GateOf(d: Door, x: Key): A.Gate {
    A.Gate(LogOf(d, x), PendingOf(d, x))
  }

  /** Stamps recorded for a key within one window, since its last eviction. */
  function Recorded(d: Door, x: Key, l: RateLimit, lo: Time): nat {
    A.InWindow(LogOf(d, x), AsLimit(l), lo)
  }

  /** One step keeps the requests of a key that are between check and record to at most n. */
  ghost predicate Overlaps(d: Door, s: Step, cap: nat, x: Key, n: nat) {
    match s
    case Honeypot(ip, _, _) => Key(Contact, ip) == x ==> |PendingOf(d, x)| + 1 <= n
    case Beacon(ip, _, _) => Key(Analytics, ip) == x ==> |PendingOf(d, x)| + 1 <= n
    case _ => |PendingOf(Apply(d, s, cap), x)| <= n
  }

  ghost predicate OverlapAtMost(steps: Trace<Step>, cap: nat, x: Key, n: nat) {
    match steps
    case Start => true
    case Then(before, last) => OverlapAtMost(before, cap, x, n) && Overlaps(Run(before, cap), last, cap, x, n)
  }

  lemma AdmittedPasses(d: Door, x: Key, now: Time, l: RateLimit)
    requires Agrees(d, x) && d.clock <= now && Answer(d, x, now) == None && l in LimitsOf(x.scope)
    ensures A.Passes([AsLimit(l)], LogOf(d, x), now)
  {
    VerdictFromLog(LogOf(d, x), Deque(d.table, x), d.clock, now, x.scope);
    PassesWithRoom(LogOf(d, x), now, LimitsOf(x.scope));
    assert Recent(LogOf(d, x), now, l) < l.maxEvents;
  }

  lemma PendingAdded(d: Door, d': Door, id: nat, x: Key, now: Time, k: Key)
    requires id !in d.pending && d'.pending == d.pending[id := Waiting(k, now)]
    ensures PendingOf(d', x) == if k == x then PendingOf(d, x)[id := now] else PendingOf(d, x)
  {
  }

  lemma PendingRemoved(d: Door, d': Door, id: nat, x: Key)
    requires id in d.pending && d'.pending == d.pending - {id}
    ensures PendingOf(d', x) == PendingOf(d, x) - {id}
  {
  }

  lemma ForgetKeepsLoad(g: A.Gate, l: A.Limit, lo: Time)
    ensures A.Load(g.(rows := []), l, lo) <= A.Load(g, l, lo)
  {
  }

  /** The key's own record, or one that may evict it. */
  lemma AtOnceBound(d: Door, k: Key, checkAt: Time, recordAt: Time, cap: nat, x: Key, l: RateLimit, n: nat, lo: Time)
    requires Valid(d.table) && Agrees(d, x) && d.clock <= checkAt <= recordAt
    requires l in LimitsOf(x.scope) && (k == x ==> |PendingOf(d, x)| + 1 <= n)
    requires A.Load(GateOf(d, x), AsLimit(l), lo) <= l.maxEvents + n - 1
    ensures A.Load(GateOf(LookAndMark(d, k, checkAt, recordAt, cap), x), AsLimit(l), lo) <= l.maxEvents + n - 1
  {
    var looked := Look(d, k, checkAt);
    assert GateOf(looked, x) == GateOf(d, x);
    if Answer(d, k, checkAt) == None {
      LookAgrees(d, k, checkAt, x);
      LookValid(d, k, checkAt);
      MarkAt(looked, k, recordAt, cap, x);
      ForgetKeepsLoad(GateOf(d, x), AsLimit(l), lo);
      if k == x {
        AdmittedPasses(d, x, checkAt, l);
        A.AtOnceKeepsLoad([AsLimit(l)], AsLimit(l), n, GateOf(d, x), checkAt, recordAt, lo);
      }
    }
  }

  lemma LookValid(d: Door, k: Key, now: Time)
    requires Valid(d.table)
    ensures Valid(Look(d, k, now).table)
  {
    PutAt(d.table, k, Prune(Deque(d.table, k), now, Horizon(k.scope)), k);
  }

  lemma DeliveredBound(d: Door, id: nat, now: Time, cap: nat, x: Key, l: RateLimit, lo: Time)
    requires Valid(d.table) && id in d.pending && d.pending[id].checkedAt <= now
    ensures A.Load(GateOf(Apply(d, Delivered(id, now), cap), x), AsLimit(l), lo) <= A.Load(GateOf(d, x), AsLimit(l), lo)
  {
    var k, after := d.pending[id].key, Apply(d, Delivered(id, now), cap);
    MarkAt(d, k, now, cap, x);
    PendingRemoved(d, after, id, x);
    A.AbandonKeepsLoad(AsLimit(l), GateOf(d, x), id, lo);
    ForgetKeepsLoad(A.Apply(GateOf(d, x), A.Abandon(id)), AsLimit(l), lo);
    if k == x {
      A.CommitKeepsLoad(AsLimit(l), GateOf(d, x), id, now, lo);
    }
  }

  lemma CheckBound(d: Door, id: nat, ip: string, now: Time, cap: nat, x: Key, l: RateLimit, n: nat, lo: Time)
    requires Agrees(d, x) && d.clock <= now && id !in d.pending
    requires l in LimitsOf(x.scope) && n >= 1
    requires |PendingOf(Apply(d, ContactCheck(id, ip, now), cap), x)| <= n
    requires A.Load(GateOf(d, x), AsLimit(l), lo) <= l.maxEvents + n - 1
    ensures A.Load(GateOf(Apply(d, ContactCheck(id, ip, now), cap), x), AsLimit(l), lo) <= l.maxEvents + n - 1
  {
    var k, after := Key(Contact, ip), Apply(d, ContactCheck(id, ip, now), cap);
    if Answer(d, k, now) == None {
      PendingAdded(d, after, id, x, now, k);
      if k == x {
        AdmittedPasses(d, x, now, l);
        A.AdmitKeepsLoad([AsLimit(l)], AsLimit(l), n, GateOf(d, x), id, now, lo);
      }
    } else {
      assert GateOf(after, x) == GateOf(d, x);
    }
  }

  /** Only contact requests wait, and none was checked in the future. */
  ghost predicate PendingSane(d: Door) {
    forall id :: id in d.pending ==> d.pending[id].key.scope.Contact? && d.pending[id].checkedAt <= d.clock
  }

  lemma StepSane(d: Door, s: Step, cap: nat)
    requires PendingSane(d) && Timely(d, s)
    ensures PendingSane(Apply(d, s, cap))
  {
  }

  lemma {:induction false} RunSane(steps: Trace<Step>, cap: nat)
    requires Legal(steps, cap)
    ensures PendingSane(Run(steps, cap))
  {
    match steps {
      case Start =>
      case Then(before, last) =>
        RunSane(before, cap);
        StepSane(Run(before, cap), last, cap);
    }
  }

  lemma StepBound(d: Door, s: Step, cap: nat, x: Key, l: RateLimit, n: nat, lo: Time)
    requires Valid(d.table) && Agrees(d, x) && PendingSane(d) && Timely(d, s)
    requires l in LimitsOf(x.scope) && n >= 1 && Overlaps(d, s, cap, x, n)
    requires A.Load(GateOf(d, x), AsLimit(l), lo) <= l.maxEvents + n - 1
    ensures A.Load(GateOf(Apply(d, s, cap), x), AsLimit(l), lo) <= l.maxEvents + n - 1
  {
    match s {
      case ContactCheck(id, ip, now) => CheckBound(d, id, ip, now, cap, x, l, n, lo);
      case Honeypot(ip, checkAt, recordAt) => AtOnceBound(d, Key(Contact, ip), checkAt, recordAt, cap, x, l, n, lo);
      case Delivered(id, now) => DeliveredBound(d, id, now, cap, x, l, lo);
      case NotDelivered(id, now) =>
        PendingRemoved(d, Apply(d, s, cap), id, x);
        A.AbandonKeepsLoad(AsLimit(l), GateOf(d, x), id, lo);
      case Beacon(ip, checkAt, recordAt) => AtOnceBound(d, Key(Analytics, ip), checkAt, recordAt, cap, x, l, n, lo);
    }
  }

  /**
   Over every interleaving in which at most n requests of a client are between
   check and record, no window holds more than the cap and n - 1 of its records.
   */
  lemma {:induction false} OverlapBound(steps: Trace<Step>, cap: nat, x: Key, l: RateLimit, n: nat, lo: Time)
    requires Legal(steps, cap) && OverlapAtMost(steps, cap, x, n)
    requires l in LimitsOf(x.scope) && n >= 1
    ensures Recorded(Run(steps, cap), x, l, lo) <= l.maxEvents + n - 1
    ensures A.Load(GateOf(Run(steps, cap), x), AsLimit(l), lo) <= l.maxEvents + n - 1
  {
    match steps {
      case Start =>
        assert PendingOf(OPENED, x) == map[];
        assert A.Early(map[], lo + l.Window()) == {};
      case Then(before, last) =>
        OverlapBound(before, cap, x, l, n, lo);
        RunAgrees(before, cap, x);
        RunSane(before, cap);
        StepBound(Run(before, cap), last, cap, x, l, n, lo);
    }
  }

  /** Contact requests sent one at a time never exceed either cap. */
  lemma ContactCaps(steps: Trace<Step>, cap: nat, ip: string, lo: Time)
    requires Legal(steps, cap) && OverlapAtMost(steps, cap, Key(Contact, ip), 1)
    ensures Recorded(Run(steps, cap), Key(Contact, ip), CONTACT_BURST, lo) <= 1
    ensures Recorded(Run(steps, cap), Key(Contact, ip), CONTACT_HOURLY, lo) <= 5
    ensures CountIn(LogOf(Run(steps, cap), Key(Contact, ip)), lo, lo + 300.0, Open) <= 1
    ensures CountIn(LogOf(Run(steps, cap), Key(Contact, ip)), lo, lo + 3600.0, Open) <= 5
  {
    OverlapBound(steps, cap, Key(Contact, ip), CONTACT_BURST, 1, lo);
    OverlapBound(steps, cap, Key(Contact, ip), CONTACT_HOURLY, 1, lo);
  }

  lemma {:induction false} BeaconsNeverWait(steps: Trace<Step>, cap: nat, ip: string)
    requires Legal(steps, cap)
    ensures OverlapAtMost(steps, cap, Key(Analytics, ip), 1)
  {
    match steps {
      case Start =>
      case Then(before, last) =>
        BeaconsNeverWait(before, cap, ip);
        RunSane(before, cap);
        RunSane(steps, cap);
        assert PendingOf(Run(before, cap), Key(Analytics, ip)) == map[];
        assert PendingOf(Run(steps, cap), Key(Analytics, ip)) == map[];
    }
  }

  /** Whatever the interleaving, at most 300 beacons of one client pass in any 60 seconds. */
  lemma BeaconCap(steps: Trace<Step>, cap: nat, ip: string, lo: Time)
    requires Legal(steps, cap)
    ensures CountIn(LogOf(Run(steps, cap), Key(Analytics, ip)), lo, lo + 60.0, Open) <= 300
  {
    BeaconsNeverWait(steps, cap, ip);
    OverlapBound(steps, cap, Key(Analytics, ip), ANALYTICS_PER_IP, 1, lo);
  }

  // ---- How long to wait ----------------------------------------------------

  lemma LogIsPast(steps: Trace<Step>, cap: nat, x: Key)
    requires Legal(steps, cap)
    ensures SortedUpTo(LogOf(Run(steps, cap), x), Run(steps, cap).clock)
  {
    RunAgrees(steps, cap, x);
  }

  /** One request at a time keeps every limit at or below its cap. */
  lemma AtMostCap(steps: Trace<Step>, cap: nat, x: Key, now: Time, l: RateLimit)
    requires Legal(steps, cap) && OverlapAtMost(steps, cap, x, 1) && Run(steps, cap).clock <= now
              && l in LimitsOf(x.scope)
    ensures Recent(LogOf(Run(steps, cap), x), now, l) <= l.maxEvents
  {
    hide Legal, OverlapAtMost, LogOf, Run;
    OverlapBound(steps, cap, x, l, 1, now - l.Window());
    LogIsPast(steps, cap, x);
    CountInIsAfter(LogOf(Run(steps, cap), x), now - l.Window(), now, Open);
  }

  /** What a log at its caps says about waiting. */
  lemma WaitOfLog(log: seq<Time>, now: Time, later: Time, limits: seq<RateLimit>) returns (l: RateLimit)
    requires SortedUpTo(log, now) && Verdict(log, now, limits).Some?
    requires forall x :: x in limits ==> Recent(log, now, x) <= x.maxEvents && x.maxEvents > 0 && x.windowSeconds > 0
    requires later >= now + Verdict(log, now, limits).value as Time + 1.0
    ensures l in limits && Recent(log, now, l) >= l.maxEvents && Recent(log, later, l) < l.maxEvents
    ensures 1 <= Verdict(log, now, limits).value <= l.windowSeconds
  {
    l := RefusalHasLimit(log, now, limits);
    RetryInRange(log, now, l);
    WaitSuffices(log, now, later, l);
  }

  /**
   A client that sends one request at a time, is refused, and stays quiet for
   one second more than it was told is not refused by that limit again.
   */
  lemma QuietWaitSuffices(steps: Trace<Step>, cap: nat, x: Key, now: Time, later: Time) returns (l: RateLimit)
    requires Legal(steps, cap) && OverlapAtMost(steps, cap, x, 1)
    requires Run(steps, cap).clock <= now && Answer(Run(steps, cap), x, now).Some?
    requires later >= now + Answer(Run(steps, cap), x, now).value as Time + 1.0
    ensures l in LimitsOf(x.scope) && Recent(LogOf(Run(steps, cap), x), now, l) >= l.maxEvents
    ensures 1 <= Answer(Run(steps, cap), x, now).value <= l.windowSeconds
    ensures Recent(LogOf(Run(steps, cap), x), later, l) < l.maxEvents
  {
    hide Legal, OverlapAtMost, Answer, LogOf, Run, Recent, Verdict;
    AnswersFromFullHistory(steps, cap, x, now);
    LogIsPast(steps, cap, x);
    forall limit | limit in LimitsOf(x.scope)
      ensures Recent(LogOf(Run(steps, cap), x), now, limit) <= limit.maxEvents
    {
      AtMostCap(steps, cap, x, now, limit);
    }
    l := WaitOfLog(LogOf(Run(steps, cap), x), now, later, LimitsOf(x.scope));
  }

  lemma RecentFromLog(log: seq<Time>, kept: seq<Time>, clock: Time, now: Time, scope: Scope, l: RateLimit)
    requires Faithful(log, kept, clock, Horizon(scope)) && clock <= now && l in LimitsOf(scope)
    ensures Recent(kept, now, l) == Recent(log, now, l)
  {
    LongestCovers(LimitsOf(scope), l);
    DroppedUncounted(log, kept, clock - Horizon(scope) as Time, now - l.Window());
  }

  lemma DequeCountsAsLog(steps: Trace<Step>, cap: nat, x: Key, now: Time, l: RateLimit)
    requires Legal(steps, cap) && Run(steps, cap).clock <= now && l in LimitsOf(x.scope)
    ensures Recent(Deque(Run(steps, cap).table, x), now, l) == Recent(LogOf(Run(steps, cap), x), now, l)
  {
    RunAgrees(steps, cap, x);
    RecentFromLog(LogOf(Run(steps, cap), x), Deque(Run(steps, cap).table, x), Run(steps, cap).clock, now, x.scope, l);
  }

  /** The same in any later state, whatever others did meanwhile, as long as the client's log is what it was. */
  lemma RefusalEnds(steps: Trace<Step>, longer: Trace<Step>, cap: nat, x: Key, now: Time, later: Time)
    returns (l: RateLimit)
    requires Legal(steps, cap) && OverlapAtMost(steps, cap, x, 1) && Legal(longer, cap)
    requires Run(steps, cap).clock <= now && Answer(Run(steps, cap), x, now).Some?
    requires LogOf(Run(longer, cap), x) == LogOf(Run(steps, cap), x) && Run(longer, cap).clock <= later
    requires later >= now + Answer(Run(steps, cap), x, now).value as Time + 1.0
    ensures l in LimitsOf(x.scope) && Recent(Deque(Run(steps, cap).table, x), now, l) >= l.maxEvents
    ensures Recent(Deque(Run(longer, cap).table, x), later, l) < l.maxEvents
  {
    l := QuietWaitSuffices(steps, cap, x, now, later);
    DequeCountsAsLog(steps, cap, x, now, l);
    DequeCountsAsLog(longer, cap, x, later, l);
  }
}
