/**
 The arithmetic of the in-memory sliding-window limiter: what one deque of
 stamps says about a request, and what pruning its front leaves unsaid.
 */
module SlidingWindow {
  import opened Prelude
  import opened Windows

  /** `maxEvents` permitted per `windowSeconds`, per client. */
  datatype RateLimit = RateLimit(maxEvents: nat, windowSeconds: nat) {
    function Window(): Time { windowSeconds as Time }
  }

  const CONTACT_BURST := RateLimit(1, 300)
  const CONTACT_HOURLY := RateLimit(5, 3600)
  const ANALYTICS_PER_IP := RateLimit(300, 60)

  /** A limit of no events at all has no oldest event to report, and the code has none. */
  predicate Usable(limits: seq<RateLimit>) {
    |limits| > 0 && forall l :: l in limits ==> l.maxEvents > 0
  }

  function Longest(limits: seq<RateLimit>): nat {
    if |limits| == 0 then 0
    else
      var rest := Longest(limits[1..]);
      if limits[0].windowSeconds > rest then limits[0].windowSeconds else rest
  }

  /** Drops stamps from the front while they are older than the longest window. */
  function Prune(stamps: seq<Time>, now: Time, longest: nat): seq<Time> {
    if |stamps| > 0 && now - stamps[0] > longest as Time then Prune(stamps[1..], now, longest) else stamps
  }

  /** Stamps that a limit counts. */
  function Recent(stamps: seq<Time>, now: Time, l: RateLimit): nat {
    CountAfter(stamps, now - l.Window(), Open)
  }

  /** The first stamp in the deque that is after the cutoff. */
  function FirstAfter(stamps: seq<Time>, cutoff: Time): Option<Time> {
    if |stamps| == 0 then None
    else if stamps[0] > cutoff then Some(stamps[0])
    else FirstAfter(stamps[1..], cutoff)
  }

  /** Whole seconds until the first counted stamp leaves the window, but never less than one. */
  function Retry(stamps: seq<Time>, now: Time, l: RateLimit): nat {
    match FirstAfter(stamps, now - l.Window())
    case None => 1
    case Some(oldest) =>
      var left := (l.Window() - (now - oldest)).Floor;
      if left > 1 then left else 1
  }

  /** The first limit that refuses decides; None lets the request through. */
  function Verdict(stamps: seq<Time>, now: Time, limits: seq<RateLimit>): Option<nat> {
    if |limits| == 0 then None
    else if Recent(stamps, now, limits[0]) >= limits[0].maxEvents then Some(Retry(stamps, now, limits[0]))
    else Verdict(stamps, now, limits[1..])
  }

  // ---- Pruning is invisible ------------------------------------------------

  lemma {:induction false} LongestCovers(limits: seq<RateLimit>, l: RateLimit)
    requires l in limits
    ensures l.windowSeconds <= Longest(limits)
  {
    if l != limits[0] {
      LongestCovers(limits[1..], l);
    }
  }

  /** What may be missing from the front of a deque without any limit noticing. */
  predicate DroppedBefore(stamps: seq<Time>, kept: seq<Time>, horizon: Time) {
    && |kept| <= |stamps|
    && kept == stamps[|stamps| - |kept|..]
    && forall i :: 0 <= i < |stamps| - |kept| ==> stamps[i] < horizon
  }

  lemma {:induction false} PruneDropsOld(stamps: seq<Time>, now: Time, longest: nat)
    ensures DroppedBefore(stamps, Prune(stamps, now, longest), now - longest as Time)
  {
    if |stamps| > 0 && now - stamps[0] > longest as Time {
      PruneDropsOld(stamps[1..], now, longest);
      var kept := Prune(stamps[1..], now, longest);
      assert stamps[1..][|stamps| - 1 - |kept|..] == stamps[|stamps| - |kept|..];
      assert forall i :: 1 <= i < |stamps| - |kept| ==> stamps[i] == stamps[1..][i - 1];
    } else {
      assert stamps[0..] == stamps;
    }
  }

  lemma DroppedTwice(stamps: seq<Time>, kept: seq<Time>, less: seq<Time>, early: Time, late: Time)
    requires DroppedBefore(stamps, kept, early) && DroppedBefore(kept, less, late) && early <= late
    ensures DroppedBefore(stamps, less, late)
  {
    var d := |stamps| - |kept|;
    assert stamps[d..][|kept| - |less|..] == stamps[|stamps| - |less|..];
    forall i | 0 <= i < |stamps| - |less|
      ensures stamps[i] < late
    {
      if i >= d {
        assert stamps[i] == kept[i - d];
      }
    }
  }

  lemma {:induction false} DroppedUncounted(stamps: seq<Time>, kept: seq<Time>, horizon: Time, cutoff: Time)
    requires DroppedBefore(stamps, kept, horizon) && horizon <= cutoff
    ensures CountAfter(kept, cutoff, Open) == CountAfter(stamps, cutoff, Open)
    ensures FirstAfter(kept, cutoff) == FirstAfter(stamps, cutoff)
    decreases |stamps|
  {
    if |kept| < |stamps| {
      var rest := stamps[1..];
      assert rest[|rest| - |kept|..] == stamps[|stamps| - |kept|..];
      assert forall i :: 0 <= i < |rest| ==> rest[i] == stamps[i + 1];
      DroppedUncounted(rest, kept, horizon, cutoff);
      assert stamps == [stamps[0]] + rest;
      CountAfterConcat([stamps[0]], rest, cutoff, Open);
    } else {
      assert kept == stamps;
    }
  }

  /** Stamps older than every window change no verdict, neither whether nor how long. */
  lemma {:induction false} DroppedUnseen(stamps: seq<Time>, kept: seq<Time>, horizon: Time, now: Time,
                                         limits: seq<RateLimit>)
    requires DroppedBefore(stamps, kept, horizon)
    requires forall l :: l in limits ==> horizon <= now - l.Window()
    ensures Verdict(kept, now, limits) == Verdict(stamps, now, limits)
  {
    if |limits| > 0 {
      DroppedUncounted(stamps, kept, horizon, now - limits[0].Window());
      DroppedUnseen(stamps, kept, horizon, now, limits[1..]);
    }
  }

  /** A check may prune before it counts. */
  lemma PruneUnseen(stamps: seq<Time>, now: Time, limits: seq<RateLimit>)
    ensures Verdict(Prune(stamps, now, Longest(limits)), now, limits) == Verdict(stamps, now, limits)
  {
    PruneDropsOld(stamps, now, Longest(limits));
    forall l | l in limits
      ensures now - Longest(limits) as Time <= now - l.Window()
    {
      LongestCovers(limits, l);
    }
    DroppedUnseen(stamps, Prune(stamps, now, Longest(limits)), now - Longest(limits) as Time, now, limits);
  }

  // ---- What a verdict means ------------------------------------------------

  /** A request passes exactly when every limit has room. */
  lemma {:induction false} PassesWithRoom(stamps: seq<Time>, now: Time, limits: seq<RateLimit>)
    ensures Verdict(stamps, now, limits) == None <==> forall l :: l in limits ==> Recent(stamps, now, l) < l.maxEvents
  {
    if |limits| > 0 {
      PassesWithRoom(stamps, now, limits[1..]);
      assert forall l :: l in limits <==> l == limits[0] || l in limits[1..];
    }
  }

  lemma {:induction false} FirstAfterFound(stamps: seq<Time>, cutoff: Time)
    ensures FirstAfter(stamps, cutoff).Some? <==> CountAfter(stamps, cutoff, Open) > 0
    ensures FirstAfter(stamps, cutoff).Some? ==>
              FirstAfter(stamps, cutoff).value in stamps && FirstAfter(stamps, cutoff).value > cutoff
  {
    if |stamps| > 0 {
      FirstAfterFound(stamps[1..], cutoff);
      assert stamps == [stamps[0]] + stamps[1..];
      CountAfterConcat([stamps[0]], stamps[1..], cutoff, Open);
    }
  }

  /** The limit that a refusal comes from. */
  lemma {:induction false} RefusalHasLimit(stamps: seq<Time>, now: Time, limits: seq<RateLimit>) returns (l: RateLimit)
    requires Verdict(stamps, now, limits).Some?
    ensures l in limits && Recent(stamps, now, l) >= l.maxEvents
    ensures Verdict(stamps, now, limits) == Some(Retry(stamps, now, l))
  {
    if Recent(stamps, now, limits[0]) >= limits[0].maxEvents {
      l := limits[0];
    } else {
      l := RefusalHasLimit(stamps, now, limits[1..]);
    }
  }

  /** A wait is at least one second and at most the window, and one second more outlasts the oldest counted stamp. */
  lemma RetryInRange(stamps: seq<Time>, now: Time, l: RateLimit)
    requires l.windowSeconds > 0
    requires forall i :: 0 <= i < |stamps| ==> stamps[i] <= now
    ensures 1 <= Retry(stamps, now, l) <= l.windowSeconds
    ensures FirstAfter(stamps, now - l.Window()).Some? ==>
              FirstAfter(stamps, now - l.Window()).value < now + Retry(stamps, now, l) as Time + 1.0 - l.Window()
  {
    FirstAfterFound(stamps, now - l.Window());
    if FirstAfter(stamps, now - l.Window()).Some? {
      var oldest := FirstAfter(stamps, now - l.Window()).value;
      var left := l.Window() - (now - oldest);
      assert left <= l.windowSeconds as Time;
      assert left.Floor <= l.windowSeconds;
    }
  }

  /** Once the oldest counted stamp has left, at least one stamp fewer is counted. */
  lemma {:induction false} OldestLeaves(stamps: seq<Time>, early: Time, late: Time)
    requires early <= late
    requires FirstAfter(stamps, early).Some? && FirstAfter(stamps, early).value <= late
    ensures CountAfter(stamps, late, Open) < CountAfter(stamps, early, Open)
  {
    assert stamps == [stamps[0]] + stamps[1..];
    CountAfterConcat([stamps[0]], stamps[1..], early, Open);
    CountAfterConcat([stamps[0]], stamps[1..], late, Open);
    if stamps[0] > early {
      CountAfterMonotone(stamps[1..], early, late, Open);
    } else {
      OldestLeaves(stamps[1..], early, late);
    }
  }

  /**
   A refused client that waits one second more than it was told, while its count
   was at the cap and nothing of its own is recorded, finds room in that window.
   */
  lemma WaitSuffices(stamps: seq<Time>, now: Time, later: Time, l: RateLimit)
    requires l.windowSeconds > 0 && l.maxEvents > 0
    requires forall i :: 0 <= i < |stamps| ==> stamps[i] <= now
    requires Recent(stamps, now, l) == l.maxEvents
    requires later >= now + Retry(stamps, now, l) as Time + 1.0
    ensures Recent(stamps, later, l) < l.maxEvents
  {
    FirstAfterFound(stamps, now - l.Window());
    RetryInRange(stamps, now, l);
    OldestLeaves(stamps, now - l.Window(), later - l.Window());
  }

  /** The seconds until the oldest counted stamp leaves the window, before they are truncated. */
  function Left(stamps: seq<Time>, now: Time, l: RateLimit): Time {
    match FirstAfter(stamps, now - l.Window())
    case None => 0.0
    case Some(oldest) => l.Window() - (now - oldest)
  }

  ghost predicate Ordered(stamps: seq<Time>) {
    forall i, j :: 0 <= i < j < |stamps| ==> stamps[i] <= stamps[j]
  }

  lemma {:induction false} AllAfter(stamps: seq<Time>, cutoff: Time)
    requires forall i :: 0 <= i < |stamps| ==> stamps[i] > cutoff
    ensures CountAfter(stamps, cutoff, Open) == |stamps|
  {
    if |stamps| > 0 {
      AllAfter(stamps[..|stamps| - 1], cutoff);
    }
  }

  /** While the oldest counted stamp stays, so do all that were counted. */
  lemma {:induction false} OldestStays(stamps: seq<Time>, early: Time, late: Time)
    requires Ordered(stamps) && early <= late
    requires FirstAfter(stamps, early).Some? && FirstAfter(stamps, early).value > late
    ensures CountAfter(stamps, late, Open) == CountAfter(stamps, early, Open)
  {
    assert stamps == [stamps[0]] + stamps[1..];
    CountAfterConcat([stamps[0]], stamps[1..], early, Open);
    CountAfterConcat([stamps[0]], stamps[1..], late, Open);
    if stamps[0] > early {
      assert forall i :: 0 <= i < |stamps[1..]| ==> stamps[1..][i] == stamps[i + 1];
      AllAfter(stamps[1..], late);
      AllAfter(stamps[1..], early);
    } else {
      OldestStays(stamps[1..], early, late);
    }
  }

  /**
   The announced wait itself is enough exactly when the truncation took nothing
   away: at most one second was left, or a whole number of them.
   */
  lemma WaitAloneSuffices(stamps: seq<Time>, now: Time, l: RateLimit)
    requires l.windowSeconds > 0 && l.maxEvents > 0
    requires Ordered(stamps) && forall i :: 0 <= i < |stamps| ==> stamps[i] <= now
    requires Recent(stamps, now, l) == l.maxEvents
    ensures Recent(stamps, now + Retry(stamps, now, l) as Time, l) < l.maxEvents
       <==> Left(stamps, now, l) <= 1.0 || Left(stamps, now, l).Floor as Time == Left(stamps, now, l)
  {
    var early, late := now - l.Window(), now + Retry(stamps, now, l) as Time - l.Window();
    FirstAfterFound(stamps, early);
    RetryInRange(stamps, now, l);
    if FirstAfter(stamps, early).value <= late {
      OldestLeaves(stamps, early, late);
    } else {
      OldestStays(stamps, early, late);
    }
  }

  /** For one: 10.5 seconds into a wait of five minutes, 289.5 are left and 289 are announced. */
  lemma WaitAloneFails()
    ensures var stamps := [0.0];
            && Verdict(stamps, 10.5, [CONTACT_BURST]) == Some(289)
            && Verdict(stamps, 10.5 + 289.0, [CONTACT_BURST]).Some?
  {
    assert CountAfter([0.0], 10.5 - 300.0, Open) == 1;
    assert CountAfter([0.0], 299.5 - 300.0, Open) == 1;
    assert (300.0 - (10.5 - 0.0)).Floor == 289;
  }

  // ---- The answer, stamp by stamp ------------------------------------------

  /** The positions of the stamps that a limit counts. */
  function Counted(stamps: seq<Time>, now: Time, l: RateLimit): set<int> {
    set i | 0 <= i < |stamps| && stamps[i] > now - l.windowSeconds as Time
  }

  /** The wait of a full limit: whole seconds until the first of its stamps leaves the window, one at least. */
  ghost predicate IsWait(stamps: seq<Time>, now: Time, l: RateLimit, r: nat) {
    exists i :: 0 <= i < |stamps| && IsFirstCounted(stamps, now, l, i) && IsWaitFor(stamps[i], now, l, r)
  }

  ghost predicate IsFirstCounted(stamps: seq<Time>, now: Time, l: RateLimit, i: int)
    requires 0 <= i < |stamps|
  {
    i in Counted(stamps, now, l) && forall j :: 0 <= j < i ==> j !in Counted(stamps, now, l)
  }

  /** A fraction of a second is dropped, and less than a second counts as one. */
  predicate IsWaitFor(oldest: Time, now: Time, l: RateLimit, r: nat) {
    var left := oldest + l.windowSeconds as Time - now;
    r >= 1 && (r as Time <= left < r as Time + 1.0 || (r == 1 && left < 1.0))
  }

  /**
   The first limit in order that is full refuses with its own wait; without a
   full one the request passes.
   */
  ghost predicate IsVerdict(stamps: seq<Time>, now: Time, limits: seq<RateLimit>, answer: Option<nat>) {
    || (answer.None? && forall l :: l in limits ==> |Counted(stamps, now, l)| < l.maxEvents)
    || (answer.Some? && exists i :: 0 <= i < |limits| && IsFirstFull(stamps, now, limits, i)
                                  && IsWait(stamps, now, limits[i], answer.value))
  }

  ghost predicate IsFirstFull(stamps: seq<Time>, now: Time, limits: seq<RateLimit>, i: int)
    requires 0 <= i < |limits|
  {
    && |Counted(stamps, now, limits[i])| >= limits[i].maxEvents
    && forall j :: 0 <= j < i ==> |Counted(stamps, now, limits[j])| < limits[j].maxEvents
  }

  lemma RecentIsSize(stamps: seq<Time>, now: Time, l: RateLimit)
    ensures Recent(stamps, now, l) == |Counted(stamps, now, l)|
  {
    CountAfterIsSize(stamps, now - l.Window(), Open);
    assert Counted(stamps, now, l) == Past(stamps, now - l.Window(), Open);
  }

  /** Where the first counted stamp is. */
  lemma {:induction false} FirstAfterAt(stamps: seq<Time>, cutoff: Time) returns (i: nat)
    requires FirstAfter(stamps, cutoff).Some?
    ensures i < |stamps| && stamps[i] == FirstAfter(stamps, cutoff).value > cutoff
    ensures forall j :: 0 <= j < i ==> stamps[j] <= cutoff
  {
    if stamps[0] > cutoff {
      i := 0;
    } else {
      var rest := FirstAfterAt(stamps[1..], cutoff);
      i := rest + 1;
      assert forall j :: 1 <= j < |stamps| ==> stamps[j] == stamps[1..][j - 1];
    }
  }

  lemma RetryIsWait(stamps: seq<Time>, now: Time, l: RateLimit)
    requires |Counted(stamps, now, l)| > 0
    ensures IsWait(stamps, now, l, Retry(stamps, now, l))
  {
    RecentIsSize(stamps, now, l);
    FirstAfterFound(stamps, now - l.Window());
    var i := FirstAfterAt(stamps, now - l.Window());
    assert IsFirstCounted(stamps, now, l, i);
    assert IsWaitFor(stamps[i], now, l, Retry(stamps, now, l));
  }

  /** The verdict is that answer, for limits that permit anything at all. */
  lemma {:induction false} VerdictIsFirstFull(stamps: seq<Time>, now: Time, limits: seq<RateLimit>)
    requires forall l :: l in limits ==> l.maxEvents > 0
    ensures IsVerdict(stamps, now, limits, Verdict(stamps, now, limits))
  {
    PassesWithRoom(stamps, now, limits);
    forall l | l in limits
      ensures Recent(stamps, now, l) == |Counted(stamps, now, l)|
    {
      RecentIsSize(stamps, now, l);
    }
    if Verdict(stamps, now, limits).Some? {
      var i := FirstFull(stamps, now, limits);
      RetryIsWait(stamps, now, limits[i]);
    }
  }

  /** The limit that decides. */
  lemma {:induction false} FirstFull(stamps: seq<Time>, now: Time, limits: seq<RateLimit>) returns (i: nat)
    requires Verdict(stamps, now, limits).Some?
    ensures i < |limits| && IsFirstFull(stamps, now, limits, i)
    ensures Verdict(stamps, now, limits).value == Retry(stamps, now, limits[i])
  {
    RecentIsSize(stamps, now, limits[0]);
    if Recent(stamps, now, limits[0]) >= limits[0].maxEvents {
      i := 0;
    } else {
      var rest := FirstFull(stamps, now, limits[1..]);
      i := rest + 1;
      assert forall j :: 1 <= j < |limits| ==> limits[j] == limits[1..][j - 1];
    }
  }

  lemma WaitIsOne(stamps: seq<Time>, now: Time, l: RateLimit, r: nat, r': nat)
    requires IsWait(stamps, now, l, r) && IsWait(stamps, now, l, r')
    ensures r == r'
  {
    var i :| 0 <= i < |stamps| && IsFirstCounted(stamps, now, l, i) && IsWaitFor(stamps[i], now, l, r);
    var j :| 0 <= j < |stamps| && IsFirstCounted(stamps, now, l, j) && IsWaitFor(stamps[j], now, l, r');
    assert i == j;
  }

  /** There is no other such answer. */
  lemma VerdictIsOne(stamps: seq<Time>, now: Time, limits: seq<RateLimit>, a: Option<nat>, b: Option<nat>)
    requires IsVerdict(stamps, now, limits, a) && IsVerdict(stamps, now, limits, b)
    ensures a == b
  {
    if a.Some? && b.Some? {
      var i :| 0 <= i < |limits| && IsFirstFull(stamps, now, limits, i) && IsWait(stamps, now, limits[i], a.value);
      var j :| 0 <= j < |limits| && IsFirstFull(stamps, now, limits, j) && IsWait(stamps, now, limits[j], b.value);
      assert i == j;
      WaitIsOne(stamps, now, limits[i], a.value, b.value);
    }
  }

  // ---- What is pruned ------------------------------------------------------

  /** Pruning drops exactly the leading stamps that are older than the longest window. */
  lemma {:induction false} PruneIsExact(stamps: seq<Time>, now: Time, longest: nat)
    ensures var kept := Prune(stamps, now, longest);
            && |kept| <= |stamps| && kept == stamps[|stamps| - |kept|..]
            && (forall i :: 0 <= i < |stamps| - |kept| ==> now - stamps[i] > longest as Time)
            && (kept != [] ==> now - kept[0] <= longest as Time)
  {
    PruneDropsOld(stamps, now, longest);
    if |stamps| > 0 && now - stamps[0] > longest as Time {
      PruneIsExact(stamps[1..], now, longest);
    }
  }

  /** The longest window is the window of one of the limits. */
  lemma {:induction false} LongestIsOne(limits: seq<RateLimit>)
    requires |limits| > 0
    ensures exists l :: l in limits && l.windowSeconds == Longest(limits)
  {
    if |limits| == 1 {
      assert Longest(limits[1..]) == 0 && limits[0] in limits;
    } else {
      LongestIsOne(limits[1..]);
      var l :| l in limits[1..] && l.windowSeconds == Longest(limits[1..]);
      assert l in limits && limits[0] in limits;
    }
  }
}
