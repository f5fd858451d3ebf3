/**
 Polling over whole runs, with backend restarts, poller restarts, polls that
 fail and samples that cannot be inserted, in any order.
 */
module PollerRuns {
  import opened Prelude
  import opened Counters

  /**
   One counter: its value in the running backend and the memory of the poller.
   The other fields no process keeps: everything counted by any incarnation of
   the backend, the sum of all deltas computed and of those stored, what no delta
   will ever report, and how much of the running value is already in one of them.
   */
  datatype Line = Line(
    total: nat, prev: Option<int>,
    counted: nat, computed: int, stored: int, lost: int, settled: nat)

  datatype Net = Net(requests: Line, errors: Line)

  datatype Step =
    | Request(outcome: Outcome)
    | BackendRestart
    | PollerRestart
    | Poll(reached: bool, inserted: bool)

  function FreshLine(): Line {
    Line(0, None, 0, 0, 0, 0, 0)
  }

  function Fresh(): Net {
    Net(FreshLine(), FreshLine())
  }

  // ---- One counter ---------------------------------------------------------

  function DeltaOf(l: Line): int {
    Delta(l.prev, Some(l.total)).value
  }

  /**
   What a poll passes over: all there is when it only sets a new baseline, and
   the old baseline when it takes a new incarnation for the old one.
   */
  function PassedOver(l: Line): int {
    (if l.prev.None? || l.total < l.prev.value then l.total else l.prev.value) - l.settled
  }

  function Bumped(l: Line, hit: bool): Line {
    if hit then l.(total := l.total + 1, counted := l.counted + 1) else l
  }

  /** A restart takes along what was not polled yet. */
  function Reset(l: Line): Line {
    l.(total := 0, lost := l.lost + (l.total - l.settled), settled := 0)
  }

  function Read(l: Line, inserted: bool): Line {
    l.(prev := Some(l.total),
       computed := l.computed + DeltaOf(l),
       stored := l.stored + (if inserted then DeltaOf(l) else 0),
       lost := l.lost + PassedOver(l),
       settled := l.total)
  }

  ghost predicate Sound(l: Line) {
    && l.settled <= l.total
    && (l.prev.Some? ==> l.prev.value >= l.settled)
    && l.counted == l.computed + l.lost + (l.total - l.settled)
    && 0 <= l.stored <= l.computed
    && 0 <= l.lost
  }

  /** A poll splits what is new since the last one into the delta and what it passes over, neither negative. */
  lemma ReadSplits(l: Line, inserted: bool)
    requires Sound(l)
    ensures DeltaOf(l) >= 0 && PassedOver(l) >= 0
    ensures DeltaOf(l) + PassedOver(l) == l.total - l.settled
    ensures Sound(Read(l, inserted))
  {
  }

  lemma LineSound(l: Line, hit: bool)
    requires Sound(l)
    ensures Sound(Bumped(l, hit)) && Sound(Reset(l)) && Sound(l.(prev := None))
  {
  }

  // ---- Both ----------------------------------------------------------------

  function Apply(n: Net, s: Step): Net {
    match s
    case Request(o) => Net(Bumped(n.requests, Counts(o)), Bumped(n.errors, Fails(o)))
    case BackendRestart => Net(Reset(n.requests), Reset(n.errors))
    case PollerRestart => Net(n.requests.(prev := None), n.errors.(prev := None))
    case Poll(reached, inserted) => if reached then Net(Read(n.requests, inserted), Read(n.errors, inserted)) else n
  }

  /** A step that reaches the backend yields the sample of `Poller` and leaves its memory. */
  lemma PollIsCycle(n: Net, inserted: bool)
    ensures var body := Metrics(Some(n.requests.total), Some(n.errors.total));
            && Measured(n.requests.prev, n.errors.prev, Some(body))
                == Sample(true, Some(DeltaOf(n.requests)), Some(DeltaOf(n.errors)))
            && Apply(n, Poll(true, inserted)).requests.prev == Remembered(n.requests.prev, body.requests)
            && Apply(n, Poll(true, inserted)).errors.prev == Remembered(n.errors.prev, body.errors)
  {
  }

  /**
   The other steps against the two objects: a call counts as `Handle` counts it,
   a backend starts at zero, a poller with nothing remembered; so its first poll
   yields zero, and passes over whatever no poll had seen.
   */
  lemma StepsAreObjects(n: Net, o: Outcome)
    ensures var after := Apply(n, Request(o));
            && after.requests.total == n.requests.total + (if o.Finished? then 1 else 0)
            && after.errors.total == n.errors.total
                 + (if o.Finished? && |o.statuses| > 0 && o.statuses[|o.statuses| - 1] >= 500 then 1 else 0)
            && after.requests.prev == n.requests.prev && after.errors.prev == n.errors.prev
    ensures var after := Apply(n, BackendRestart);
            && after.requests.total == 0 && after.errors.total == 0
            && after.requests.prev == n.requests.prev && after.errors.prev == n.errors.prev
            && after.requests.lost == n.requests.lost + (n.requests.total - n.requests.settled)
            && after.errors.lost == n.errors.lost + (n.errors.total - n.errors.settled)
    ensures var after := Apply(n, PollerRestart);
            && after.requests.total == n.requests.total && after.errors.total == n.errors.total
            && after.requests.prev == None && after.errors.prev == None
            && DeltaOf(after.requests) == 0 && PassedOver(after.requests) == n.requests.total - n.requests.settled
            && DeltaOf(after.errors) == 0 && PassedOver(after.errors) == n.errors.total - n.errors.settled
    ensures Apply(n, Poll(false, true)) == Apply(n, Poll(false, false)) == n
  {
  }

  function Run(base: Net, steps: Trace<Step>): Net {
    match steps
    case Start => base
    case Then(before, last) => Apply(Run(base, before), last)
  }

  // ---- Conservation --------------------------------------------------------

  ghost predicate BothSound(n: Net) {
    && Sound(n.requests) && Sound(n.errors)
    && n.errors.total <= n.requests.total && n.errors.counted <= n.requests.counted
  }

  lemma StepSound(n: Net, s: Step)
    requires BothSound(n)
    ensures BothSound(Apply(n, s))
    ensures n.requests.lost <= Apply(n, s).requests.lost && n.errors.lost <= Apply(n, s).errors.lost
  {
    match s {
      case Request(o) =>
        LineSound(n.requests, Counts(o));
        LineSound(n.errors, Fails(o));
      case BackendRestart =>
        LineSound(n.requests, false);
        LineSound(n.errors, false);
      case PollerRestart =>
        LineSound(n.requests, false);
        LineSound(n.errors, false);
      case Poll(reached, inserted) =>
        ReadSplits(n.requests, inserted);
        ReadSplits(n.errors, inserted);
    }
  }

  lemma NothingIsSound(n: Net)
    requires n.requests == FreshLine() && n.errors == FreshLine()
    ensures BothSound(n)
  {
  }

  lemma {:induction false} RunSound(steps: Trace<Step>)
    ensures BothSound(Run(Fresh(), steps))
  {
    hide BothSound, Apply;
    if steps.Start? {
      NothingIsSound(Fresh());
    } else {
      RunSound(steps.before);
      StepSound(Run(Fresh(), steps.before), steps.last);
    }
  }

  ghost predicate Conserved(l: Line) {
    && DeltaOf(l) >= 0
    && 0 <= l.lost && l.settled <= l.total
    && l.counted == l.computed + l.lost + (l.total - l.settled)
    && 0 <= l.stored <= l.computed <= l.counted
  }

  lemma SoundConserves(l: Line)
    requires Sound(l)
    ensures Conserved(l)
  {
    ReadSplits(l, true);
  }

  datatype Counter = OfRequests | OfErrors

  function At(n: Net, c: Counter): Line {
    match c
    case OfRequests => n.requests
    case OfErrors => n.errors
  }

  lemma PartSound(n: Net, c: Counter)
    requires BothSound(n)
    ensures Sound(At(n, c)) && Conserved(At(n, c))
  {
    SoundConserves(At(n, c));
  }

  lemma RunSoundAt(steps: Trace<Step>, c: Counter)
    ensures Sound(At(Run(Fresh(), steps), c))
  {
    RunSound(steps);
    PartSound(Run(Fresh(), steps), c);
  }

  /**
   Over any run, and for requests and errors alike: no delta is negative, and
   what was counted is the deltas, what restarts and baselines passed over, and
   what is still to be polled, so that what is stored never exceeds it.
   */
  lemma DeltasConserve(steps: Trace<Step>, c: Counter)
    ensures Conserved(At(Run(Fresh(), steps), c))
  {
    RunSound(steps);
    PartSound(Run(Fresh(), steps), c);
  }

  // ---- When nothing is missing ---------------------------------------------

  /** A restart finds everything polled; a poll finds its baseline where the last poll of this incarnation left it. */
  predicate Lossless(l: Line, s: Step) {
    match s
    case Request(_) => true
    case PollerRestart => true
    case BackendRestart => l.total == l.settled
    case Poll(reached, _) =>
      reached ==> if l.prev.Some? && l.total >= l.prev.value then l.prev.value == l.settled else l.total == l.settled
  }

  /** Every delta that is not zero is inserted. */
  predicate Inserts(l: Line, s: Step) {
    s.Poll? && s.reached && !s.inserted ==> DeltaOf(l) == 0
  }

  ghost predicate LosesNothing(steps: Trace<Step>, c: Counter) {
    steps.Then? ==> LosesNothing(steps.before, c) && Lossless(At(Run(Fresh(), steps.before), c), steps.last)
  }

  ghost predicate InsertsAll(steps: Trace<Step>, c: Counter) {
    steps.Then? ==> InsertsAll(steps.before, c) && Inserts(At(Run(Fresh(), steps.before), c), steps.last)
  }

  lemma StepLoses(l: Line, inserted: bool)
    requires Sound(l)
    ensures Reset(l).lost == l.lost <==> Lossless(l, BackendRestart)
    ensures Read(l, inserted).lost == l.lost <==> Lossless(l, Poll(true, inserted))
    ensures Reset(l).lost >= l.lost && Read(l, inserted).lost >= l.lost
    ensures Read(l, inserted).computed - Read(l, inserted).stored == l.computed - l.stored
       <==> Inserts(l, Poll(true, inserted))
    ensures Read(l, inserted).computed - Read(l, inserted).stored >= l.computed - l.stored
  {
    ReadSplits(l, inserted);
  }

  lemma StepLosesNothing(n: Net, s: Step, c: Counter)
    requires Sound(At(n, c))
    ensures At(Apply(n, s), c).lost == 0 <==> At(n, c).lost == 0 && Lossless(At(n, c), s)
    ensures At(Apply(n, s), c).computed == At(Apply(n, s), c).stored
       <==> At(n, c).computed == At(n, c).stored && Inserts(At(n, c), s)
  {
    StepLoses(At(n, c), s.Poll? && s.inserted);
  }

  lemma {:induction false} LostNothing(steps: Trace<Step>, c: Counter)
    ensures At(Run(Fresh(), steps), c).lost == 0 <==> LosesNothing(steps, c)
    ensures At(Run(Fresh(), steps), c).computed == At(Run(Fresh(), steps), c).stored <==> InsertsAll(steps, c)
  {
    if steps.Then? {
      LostNothing(steps.before, c);
      RunSoundAt(steps.before, c);
      StepLosesNothing(Run(Fresh(), steps.before), steps.last, c);
    }
  }

  /**
   The stored samples report every request, or every error, exactly when no
   restart came upon any not yet polled, no poll only set a baseline or mistook
   a new incarnation for the old one, no delta failed to be inserted, and the
   last poll has seen everything.
   */
  lemma NothingMissing(steps: Trace<Step>, c: Counter)
    ensures var l := At(Run(Fresh(), steps), c);
            l.stored == l.counted <==> LosesNothing(steps, c) && InsertsAll(steps, c) && l.total == l.settled
  {
    DeltasConserve(steps, c);
    LostNothing(steps, c);
  }

  // ---- Within one incarnation ----------------------------------------------

  predicate IsRestart(s: Step) {
    s.BackendRestart? || s.PollerRestart?
  }

  ghost predicate NoRestart(steps: Trace<Step>) {
    steps.Then? ==> !IsRestart(steps.last) && NoRestart(steps.before)
  }

  /** Both counters were remembered from one reading of the backend that is still running. */
  ghost predicate Aligned(n: Net) {
    && n.requests.prev.Some? && n.errors.prev.Some?
    && 0 <= n.errors.prev.value <= n.errors.total
    && 0 <= n.requests.prev.value <= n.requests.total
    && n.errors.total - n.errors.prev.value <= n.requests.total - n.requests.prev.value
  }

  /**
   After a poll that reached the backend and until the next restart, the deltas
   of both counters sum to last reading minus first reading, however many polls
   fail in between, and no errors delta exceeds its requests delta.
   */
  lemma {:induction false} DeltasTelescope(base: Net, steps: Trace<Step>)
    requires Aligned(base) && NoRestart(steps)
    ensures var n := Run(base, steps);
            && Aligned(n)
            && n.requests.computed - base.requests.computed == n.requests.prev.value - base.requests.prev.value
            && n.errors.computed - base.errors.computed == n.errors.prev.value - base.errors.prev.value
            && DeltaOf(n.errors) <= DeltaOf(n.requests)
  {
    if steps.Then? {
      DeltasTelescope(base, steps.before);
    }
  }

  lemma ReadAligns(n: Net, inserted: bool)
    requires BothSound(n)
    ensures Aligned(Apply(n, Poll(true, inserted)))
  {
  }

  /** Every poll that reaches the backend starts such a stretch. */
  lemma PollAligns(steps: Trace<Step>, inserted: bool)
    ensures Aligned(Apply(Run(Fresh(), steps), Poll(true, inserted)))
  {
    RunSound(steps);
    ReadAligns(Run(Fresh(), steps), inserted);
  }

  /**
   Whatever happened since, a sample reports no more errors than requests
   exactly when the errors counter did not grow or the difference of the two
   counters did not shrink.
   */
  lemma ErrorsFit(n: Net)
    requires n.requests.prev.Some? && n.errors.prev.Some?
    ensures DeltaOf(n.errors) <= DeltaOf(n.requests)
       <==> || n.errors.total <= n.errors.prev.value
            || n.requests.total - n.errors.total >= n.requests.prev.value - n.errors.prev.value
  {
  }

  /** For one: after an unnoticed restart a sample reports an error and no request. */
  lemma ErrorsMayExceedRequests(fine: Outcome, failed: Outcome)
    requires Counts(fine) && !Fails(fine) && Fails(failed)
    ensures var polled := Apply(Apply(Fresh(), Request(fine)), Poll(true, true));
            var n := Apply(Apply(polled, BackendRestart), Request(failed));
            DeltaOf(n.requests) == 0 && DeltaOf(n.errors) == 1
  {
    var polled := Apply(Apply(Fresh(), Request(fine)), Poll(true, true));
    assert polled.requests.prev == Some(1) && polled.errors.prev == Some(0);
  }
}
