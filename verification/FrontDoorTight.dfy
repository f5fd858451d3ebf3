/**
 Every bound of the front door is reached, for every number of overlapping
 requests, by a run that the rules of the service allow.
 */
module FrontDoorTight {
  import opened Prelude
  import opened Windows
  import opened SlidingWindow
  import opened Clients
  import opened FrontDoor
  import opened FrontDoorBounds
  import A = Admission

  /** The map can take the key without evicting anyone. */
  predicate HasRoom(d: Door, k: Key, cap: nat) {
    |Put(d.table, k, []).order| <= cap
  }

  /** What is recorded for a client, and its requests `i` up to `j`, all checked at `t` and none recorded. */
  ghost predicate Stands(d: Door, cap: nat, x: Key, stamps: seq<Time>, i: nat, j: nat, t: Time) {
    && HasRoom(d, x, cap) && LogOf(d, x) == stamps
    && PendingOf(d, x) == A.Crowd(i, j, t) && d.clock <= t
    && (forall id :: id in d.pending ==> id < j)
  }

  /** A run to such a state that respects the clock and the overlap. */
  ghost predicate Reaches(steps: Trace<Step>, cap: nat, x: Key, k: nat, stamps: seq<Time>, i: nat, j: nat, t: Time) {
    Legal(steps, cap) && OverlapAtMost(steps, cap, x, k) && Stands(Run(steps, cap), cap, x, stamps, i, j, t)
  }

  // ---- One step ------------------------------------------------------------

  lemma CheckStands(d: Door, cap: nat, x: Key, stamps: seq<Time>, i: nat, j: nat, t: Time)
    requires x.scope.Contact? && Valid(d.table) && Agrees(d, x) && Stands(d, cap, x, stamps, i, j, t) && i <= j
    requires Verdict(stamps, t, LimitsOf(Contact)) == None
    ensures Timely(d, ContactCheck(j, x.ip, t))
    ensures Stands(Apply(d, ContactCheck(j, x.ip, t), cap), cap, x, stamps, i, j + 1, t)
  {
    VerdictFromLog(LogOf(d, x), Deque(d.table, x), d.clock, t, Contact);
    PendingAdded(d, Apply(d, ContactCheck(j, x.ip, t), cap), j, x, t, x);
  }

  lemma MarkAppends(d: Door, x: Key, t: Time, cap: nat)
    requires Valid(d.table) && HasRoom(d, x, cap)
    ensures var after := Mark(d, x, t, cap);
            HasRoom(after, x, cap) && LogOf(after, x) == LogOf(d, x) + [t] && after.pending == d.pending
                && after.clock == t
  {
    MarkAt(d, x, t, cap, x);
    EvictionDropsExcess(Put(d.table, x, Deque(d.table, x) + [t]), cap);
  }

  lemma DeliveredStands(d: Door, cap: nat, x: Key, stamps: seq<Time>, i: nat, j: nat, t: Time)
    requires Valid(d.table) && Stands(d, cap, x, stamps, i, j, t) && i < j
    ensures Timely(d, Delivered(i, t))
    ensures Stands(Apply(d, Delivered(i, t), cap), cap, x, stamps + [t], i + 1, j, t)
  {
    A.CrowdDrop(i, j, t);
    assert i in PendingOf(d, x) && d.pending[i].key == x;
    MarkAppends(d, x, t, cap);
    PendingRemoved(d, Apply(d, Delivered(i, t), cap), i, x);
  }

  lemma CrowdFits(d: Door, x: Key, i: nat, j: nat, t: Time)
    requires i <= j && PendingOf(d, x) == A.Crowd(i, j, t)
    ensures |PendingOf(d, x)| == j - i
  {
    A.CrowdValues(i, j, t);
  }

  lemma Extend(steps: Trace<Step>, s: Step, cap: nat, x: Key, k: nat, stamps: seq<Time>, i: nat, j: nat, t: Time)
    requires Legal(steps, cap) && OverlapAtMost(steps, cap, x, k) && (s.ContactCheck? || s.Delivered?)
    requires Timely(Run(steps, cap), s) && i <= j <= i + k
    requires Stands(Apply(Run(steps, cap), s, cap), cap, x, stamps, i, j, t)
    ensures Reaches(Then(steps, s), cap, x, k, stamps, i, j, t)
  {
    CrowdFits(Apply(Run(steps, cap), s, cap), x, i, j, t);
    assert Run(Then(steps, s), cap) == Apply(Run(steps, cap), s, cap);
  }

  lemma Checks(steps: Trace<Step>, cap: nat, x: Key, k: nat, stamps: seq<Time>, i: nat, j: nat, t: Time)
    requires Reaches(steps, cap, x, k, stamps, i, j, t) && x.scope.Contact? && i <= j < i + k
    requires Verdict(stamps, t, LimitsOf(Contact)) == None
    ensures Reaches(Then(steps, ContactCheck(j, x.ip, t)), cap, x, k, stamps, i, j + 1, t)
  {
    hide Stands, Legal, OverlapAtMost, Apply, Timely;
    RunAgrees(steps, cap, x);
    CheckStands(Run(steps, cap), cap, x, stamps, i, j, t);
    Extend(steps, ContactCheck(j, x.ip, t), cap, x, k, stamps, i, j + 1, t);
  }

  lemma Delivers(steps: Trace<Step>, cap: nat, x: Key, k: nat, stamps: seq<Time>, i: nat, j: nat, t: Time)
    requires Reaches(steps, cap, x, k, stamps, i, j, t) && i < j <= i + k
    ensures Reaches(Then(steps, Delivered(i, t)), cap, x, k, stamps + [t], i + 1, j, t)
  {
    hide Stands, Legal, OverlapAtMost, Apply, Timely;
    RunAgrees(steps, cap, x);
    DeliveredStands(Run(steps, cap), cap, x, stamps, i, j, t);
    Extend(steps, Delivered(i, t), cap, x, k, stamps + [t], i + 1, j, t);
  }

  // ---- A crowd -------------------------------------------------------------

  lemma {:induction false} AllCheck(before: Trace<Step>, cap: nat, x: Key, k: nat, stamps: seq<Time>, first: nat,
                                    n: nat, t: Time)
    returns (steps: Trace<Step>)
    requires Reaches(before, cap, x, k, stamps, first, first, t) && x.scope.Contact? && n <= k
    requires Verdict(stamps, t, LimitsOf(Contact)) == None
    ensures Reaches(steps, cap, x, k, stamps, first, first + n, t)
  {
    hide Reaches;
    if n == 0 {
      return before;
    }
    var most := AllCheck(before, cap, x, k, stamps, first, n - 1, t);
    Checks(most, cap, x, k, stamps, first, first + n - 1, t);
    steps := Then(most, ContactCheck(first + n - 1, x.ip, t));
  }

  lemma {:induction false} AllDeliver(before: Trace<Step>, cap: nat, x: Key, k: nat, stamps: seq<Time>, first: nat,
                                      n: nat, t: Time)
    returns (steps: Trace<Step>)
    requires Reaches(before, cap, x, k, stamps, first, first + k, t) && n <= k
    ensures Reaches(steps, cap, x, k, stamps + Repeat(n, t), first + n, first + k, t)
  {
    hide Reaches;
    if n == 0 {
      assert stamps + Repeat(0, t) == stamps;
      return before;
    }
    var most := AllDeliver(before, cap, x, k, stamps, first, n - 1, t);
    var soFar := stamps + Repeat(n - 1, t);
    assert stamps + Repeat(n, t) == soFar + [t];
    Delivers(most, cap, x, k, soFar, first + n - 1, first + k, t);
    steps := Then(most, Delivered(first + n - 1, t));
  }

  /**
   From any state of any run in which one request of a client would pass, k of
   them pass at once: all are checked before the first is delivered.
   */
  lemma CrowdPasses(before: Trace<Step>, cap: nat, x: Key, k: nat, stamps: seq<Time>, first: nat, t: Time)
    returns (steps: Trace<Step>)
    requires Reaches(before, cap, x, k, stamps, first, first, t) && x.scope.Contact?
    requires Verdict(stamps, t, LimitsOf(Contact)) == None
    ensures Reaches(steps, cap, x, k, stamps + Repeat(k, t), first + k, first + k, t)
  {
    var checked := AllCheck(before, cap, x, k, stamps, first, k, t);
    steps := AllDeliver(checked, cap, x, k, stamps, first, k, t);
  }

  // ---- Both caps -----------------------------------------------------------

  /** n records, each a second more than the burst window after the one before. */
  function Spaced(n: nat): seq<Time> {
    if n == 0 then [] else Spaced(n - 1) + [(n - 1) as Time * 301.0]
  }

  lemma {:induction false} SpacedAt(n: nat)
    ensures |Spaced(n)| == n && forall i :: 0 <= i < n ==> 0.0 <= Spaced(n)[i] <= (n - 1) as Time * 301.0
  {
    if n > 0 {
      SpacedAt(n - 1);
    }
  }

  lemma SpacedPasses(n: nat)
    requires n < 5
    ensures Verdict(Spaced(n), n as Time * 301.0, LimitsOf(Contact)) == None
  {
    var now := n as Time * 301.0;
    SpacedAt(n);
    CountAfterNone(Spaced(n), now - 300.0, Open);
    CountAfterAtMostAll(Spaced(n), now - 3600.0, Open);
    assert Recent(Spaced(n), now, CONTACT_BURST) == 0;
    assert Recent(Spaced(n), now, CONTACT_HOURLY) <= n;
    PassesWithRoom(Spaced(n), now, LimitsOf(Contact));
  }

  lemma NothingYet(cap: nat, x: Key, k: nat)
    requires cap >= 1
    ensures Reaches(Start, cap, x, k, [], 0, 0, 0.0)
  {
    assert PendingOf(OPENED, x) == map[];
  }

  /** Some time later. */
  lemma Waits(steps: Trace<Step>, cap: nat, x: Key, k: nat, stamps: seq<Time>, i: nat, t: Time, later: Time)
    requires Reaches(steps, cap, x, k, stamps, i, i, t) && t <= later
    ensures Reaches(steps, cap, x, k, stamps, i, i, later)
  {
    assert A.Crowd<Time>(i, i, t) == A.Crowd<Time>(i, i, later);
  }

  /** n requests one after the other, each passing both caps. */
  lemma {:induction false} OneByOne(cap: nat, x: Key, k: nat, n: nat) returns (steps: Trace<Step>)
    requires x.scope.Contact? && cap >= 1 && k >= 1 && n < 5
    ensures Reaches(steps, cap, x, k, Spaced(n), n, n, n as Time * 301.0)
  {
    hide Reaches;
    if n == 0 {
      NothingYet(cap, x, k);
      return Start;
    }
    var before := OneByOne(cap, x, k, n - 1);
    var t := (n - 1) as Time * 301.0;
    SpacedPasses(n - 1);
    Checks(before, cap, x, k, Spaced(n - 1), n - 1, n - 1, t);
    var checked := Then(before, ContactCheck(n - 1, x.ip, t));
    assert Spaced(n) == Spaced(n - 1) + [t];
    Delivers(checked, cap, x, k, Spaced(n - 1), n - 1, n, t);
    steps := Then(checked, Delivered(n - 1, t));
    Waits(steps, cap, x, k, Spaced(n), n, t, n as Time * 301.0);
  }

  /** A run with at most k requests of the client in between that fills a window of the limit beyond its cap. */
  ghost predicate Fills(steps: Trace<Step>, cap: nat, x: Key, l: RateLimit, k: nat) {
    && Legal(steps, cap) && OverlapAtMost(steps, cap, x, k)
    && FrontDoorBounds.Recorded(Run(steps, cap), x, l, -1.0) == l.maxEvents + k - 1
  }

  lemma AllRecorded(steps: Trace<Step>, cap: nat, x: Key, k: nat, stamps: seq<Time>, j: nat, t: Time, l: RateLimit)
    requires Reaches(steps, cap, x, k, stamps, j, j, t) && |stamps| == l.maxEvents + k - 1
    requires forall i :: 0 <= i < |stamps| ==> -1.0 < stamps[i] <= -1.0 + l.Window()
    ensures Fills(steps, cap, x, l, k)
  {
    CountInAll(stamps, -1.0, -1.0 + l.Window(), Open);
  }

  lemma StampsOfCrowd(n: nat, k: nat)
    ensures var stamps := Spaced(n) + Repeat(k, n as Time * 301.0);
            |stamps| == n + k && forall i :: 0 <= i < |stamps| ==> 0.0 <= stamps[i] <= n as Time * 301.0
  {
    SpacedAt(n);
    RepeatAt(k, n as Time * 301.0);
  }

  /** k requests at once, after n that were sent one by one. */
  lemma CrowdAfter(cap: nat, x: Key, k: nat, n: nat, l: RateLimit)
    requires x.scope.Contact? && cap >= 1 && k >= 1 && n < 5
    requires n as Time * 301.0 <= -1.0 + l.Window() && n + 1 == l.maxEvents
    ensures exists steps :: Fills(steps, cap, x, l, k)
  {
    hide Reaches, Fills;
    SpacedPasses(n);
    var before := OneByOne(cap, x, k, n);
    var steps := CrowdPasses(before, cap, x, k, Spaced(n), n, n as Time * 301.0);
    StampsOfCrowd(n, k);
    AllRecorded(steps, cap, x, k, Spaced(n) + Repeat(k, n as Time * 301.0), n + k, n as Time * 301.0, l);
  }

  /**
   For every k, the contact form can be made to record `1 + k - 1` messages of a
   client in five minutes and `5 + k - 1` in an hour, with no more than k of its
   requests in between at any moment: no smaller bound than `OverlapBound` holds
   of either limit, whatever the other one does.
   */
  lemma ContactBoundIsReached(cap: nat, ip: string, k: nat)
    requires cap >= 1 && k >= 1
    ensures exists steps :: Fills(steps, cap, Key(Contact, ip), CONTACT_BURST, k)
    ensures exists steps :: Fills(steps, cap, Key(Contact, ip), CONTACT_HOURLY, k)
  {
    CrowdAfter(cap, Key(Contact, ip), k, 0, CONTACT_BURST);
    CrowdAfter(cap, Key(Contact, ip), k, 4, CONTACT_HOURLY);
  }

  // ---- Beacons -------------------------------------------------------------

  lemma FewBeaconsPass(n: nat)
    requires n < 300
    ensures Verdict(Repeat(n, 0.0), 0.0, LimitsOf(Analytics)) == None
  {
    RepeatAt(n, 0.0);
    CountAfterAtMostAll(Repeat(n, 0.0), 0.0 - 60.0, Open);
    assert Recent(Repeat(n, 0.0), 0.0, ANALYTICS_PER_IP) < 300;
    PassesWithRoom(Repeat(n, 0.0), 0.0, LimitsOf(Analytics));
  }

  ghost predicate Beaconed(d: Door, cap: nat, x: Key, n: nat) {
    HasRoom(d, x, cap) && LogOf(d, x) == Repeat(n, 0.0) && d.clock == 0.0
  }

  lemma BeaconMarks(d: Door, cap: nat, x: Key, n: nat)
    requires x.scope.Analytics? && n < 300 && Valid(d.table) && Agrees(d, x) && Beaconed(d, cap, x, n)
    ensures Beaconed(Apply(d, Beacon(x.ip, 0.0, 0.0), cap), cap, x, n + 1)
  {
    FewBeaconsPass(n);
    VerdictFromLog(LogOf(d, x), Deque(d.table, x), d.clock, 0.0, Analytics);
    LookValid(d, x, 0.0);
    MarkAppends(Look(d, x, 0.0), x, 0.0, cap);
  }

  lemma {:induction false} Beacons(cap: nat, x: Key, n: nat) returns (steps: Trace<Step>)
    requires x.scope.Analytics? && cap >= 1 && n <= 300
    ensures Legal(steps, cap) && Beaconed(Run(steps, cap), cap, x, n)
  {
    if n == 0 {
      return Start;
    }
    var before := Beacons(cap, x, n - 1);
    RunAgrees(before, cap, x);
    BeaconMarks(Run(before, cap), cap, x, n - 1);
    steps := Then(before, Beacon(x.ip, 0.0, 0.0));
  }

  /** The beacon cap is reached as well. */
  lemma BeaconCapIsReached(cap: nat, ip: string)
    requires cap >= 1
    ensures exists steps :: Fills(steps, cap, Key(Analytics, ip), ANALYTICS_PER_IP, 1)
  {
    var x := Key(Analytics, ip);
    var steps := Beacons(cap, x, 300);
    BeaconsNeverWait(steps, cap, ip);
    RepeatAt(300, 0.0);
    CountInAll(Repeat(300, 0.0), -1.0, -1.0 + 60.0, Open);
    assert Fills(steps, cap, x, ANALYTICS_PER_IP, 1);
  }
}
