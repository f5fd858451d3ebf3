/**
 Whether a request that was recorded is still in the limiter's map afterwards.
 It is, whatever else is in the map, unless the clock reads 0.
 */
module RecordedKeys {
  import opened Prelude
  import opened SlidingWindow
  import opened Clients
  import opened FrontDoor

  /** The key and the time that a step records, if it records any. */
  function RecordOf(d: Door, s: Step): Option<(Key, Time)> {
    match s
    case ContactCheck(_, _, _) => None
    case Honeypot(ip, checkAt, recordAt) =>
      if Answer(d, Key(Contact, ip), checkAt) == None then Some((Key(Contact, ip), recordAt)) else None
    case Delivered(id, now) => if id in d.pending then Some((d.pending[id].key, now)) else None
    case NotDelivered(_, _) => None
    case Beacon(ip, checkAt, recordAt) =>
      if Answer(d, Key(Analytics, ip), checkAt) == None then Some((Key(Analytics, ip), recordAt)) else None
  }

  // ---- Later than 0 --------------------------------------------------------

  lemma StepKeepsExtras(d: Door, s: Step, cap: nat)
    requires Valid(d.table) && ExtrasEmpty(d.table, cap)
    ensures ExtrasEmpty(Apply(d, s, cap).table, cap)
  {
    match s {
      case ContactCheck(_, ip, now) => LookKeepsExtras(d, Key(Contact, ip), now, cap);
      case Honeypot(ip, checkAt, recordAt) => BothKeepExtras(d, Key(Contact, ip), checkAt, recordAt, cap);
      case Delivered(id, now) =>
        if id in d.pending {
          RecordKeepsExtras(d.table, d.pending[id].key, now, cap);
        }
      case NotDelivered(_, _) =>
      case Beacon(ip, checkAt, recordAt) => BothKeepExtras(d, Key(Analytics, ip), checkAt, recordAt, cap);
    }
  }

  lemma LookKeepsExtras(d: Door, k: Key, now: Time, cap: nat)
    requires Valid(d.table) && ExtrasEmpty(d.table, cap)
    ensures Valid(Look(d, k, now).table) && ExtrasEmpty(Look(d, k, now).table, cap)
  {
    PutAt(d.table, k, Prune(Deque(d.table, k), now, Horizon(k.scope)), k);
    CheckKeepsExtras(d.table, k, now, LimitsOf(k.scope), cap);
  }

  lemma BothKeepExtras(d: Door, k: Key, checkAt: Time, recordAt: Time, cap: nat)
    requires Valid(d.table) && ExtrasEmpty(d.table, cap)
    ensures ExtrasEmpty(LookAndMark(d, k, checkAt, recordAt, cap).table, cap)
  {
    LookKeepsExtras(d, k, checkAt, cap);
    if Answer(d, k, checkAt) == None {
      RecordKeepsExtras(Look(d, k, checkAt).table, k, recordAt, cap);
    }
  }

  lemma {:induction false} RunKeepsExtras(steps: Trace<Step>, cap: nat, k: Key)
    requires Legal(steps, cap)
    ensures Valid(Run(steps, cap).table) && ExtrasEmpty(Run(steps, cap).table, cap)
  {
    RunAgrees(steps, cap, k);
    if steps.Then? {
      RunKeepsExtras(steps.before, cap, k);
      StepKeepsExtras(Run(steps.before, cap), steps.last, cap);
    }
  }

  /** No key was seen later than now. */
  ghost predicate SeenUpTo(d: Door, now: Time) {
    forall x :: x in d.table.hits ==> LastSeen(d.table, x) <= now
  }

  lemma SeenByNow(d: Door, x: Key, now: Time)
    requires Agrees(d, x) && d.clock <= now && 0.0 <= now
    ensures LastSeen(d.table, x) <= now
  {
    var log, kept := LogOf(d, x), Deque(d.table, x);
    if |kept| > 0 {
      assert kept[|kept| - 1] == log[|log| - 1];
    }
  }

  lemma AllSeenByNow(steps: Trace<Step>, cap: nat, now: Time)
    requires Legal(steps, cap) && Run(steps, cap).clock <= now && 0.0 <= now
    ensures SeenUpTo(Run(steps, cap), now)
  {
    forall x | x in Run(steps, cap).table.hits
      ensures LastSeen(Run(steps, cap).table, x) <= now
    {
      RunAgrees(steps, cap, x);
      SeenByNow(Run(steps, cap), x, now);
    }
  }

  lemma LookKeepsSeen(d: Door, k: Key, now: Time, later: Time)
    requires Valid(d.table) && SeenUpTo(d, later) && 0.0 <= later
    ensures SeenUpTo(Look(d, k, now), later)
  {
    hide Prune, Distinct, Longest;
    PrunedLast(Deque(d.table, k), now, Horizon(k.scope));
  }

  /** Pruning takes the front, so what is left ends as before. */
  lemma {:induction false} PrunedLast(stamps: seq<Time>, now: Time, longest: nat)
    ensures var kept := Prune(stamps, now, longest); |kept| > 0 ==>
              |stamps| > 0 && kept[|kept| - 1] == stamps[|stamps| - 1]
  {
    if |stamps| > 0 && now - stamps[0] > longest as Time {
      PrunedLast(stamps[1..], now, longest);
    }
  }

  /** The record is in the map, at the end of its key's stamps and of the key's log. */
  ghost predicate Kept(d: Door, d': Door, k: Key, t: Time) {
    && k in d'.table.hits && |d'.table.hits[k]| > 0 && d'.table.hits[k][|d'.table.hits[k]| - 1] == t
    && LogOf(d', k) == LogOf(d, k) + [t]
  }

  lemma MarkKeeps(d: Door, k: Key, t: Time, cap: nat)
    requires Valid(d.table) && ExtrasEmpty(d.table, cap) && SeenUpTo(d, t) && t > 0.0 && cap >= 1
    ensures Kept(d, Mark(d, k, t, cap), k, t)
  {
    RecordKeepsKey(d.table, k, t, cap);
    MarkAt(d, k, t, cap, k);
  }

  lemma BothKeep(d: Door, k: Key, checkAt: Time, recordAt: Time, cap: nat)
    requires Valid(d.table) && ExtrasEmpty(d.table, cap) && SeenUpTo(d, recordAt) && recordAt > 0.0 && cap >= 1
    requires Answer(d, k, checkAt) == None
    ensures Kept(d, LookAndMark(d, k, checkAt, recordAt, cap), k, recordAt)
  {
    LookKeepsExtras(d, k, checkAt, cap);
    LookKeepsSeen(d, k, checkAt, recordAt);
    MarkKeeps(Look(d, k, checkAt), k, recordAt, cap);
  }

  /** Every record of every run keeps its key, unless it is made at 0. */
  lemma RecordedKeyStays(steps: Trace<Step>, s: Step, cap: nat)
    requires Legal(Then(steps, s), cap) && cap >= 1 && RecordOf(Run(steps, cap), s).Some?
    requires RecordOf(Run(steps, cap), s).value.1 > 0.0
    ensures var (k, t) := RecordOf(Run(steps, cap), s).value; Kept(Run(steps, cap), Run(Then(steps, s), cap), k, t)
  {
    var d := Run(steps, cap);
    var (k, t) := RecordOf(d, s).value;
    RunKeepsExtras(steps, cap, k);
    AllSeenByNow(steps, cap, t);
    StepKeeps(d, s, cap);
  }

  lemma StepKeeps(d: Door, s: Step, cap: nat)
    requires Valid(d.table) && ExtrasEmpty(d.table, cap) && cap >= 1 && RecordOf(d, s).Some?
    requires RecordOf(d, s).value.1 > 0.0 && SeenUpTo(d, RecordOf(d, s).value.1)
    ensures var (k, t) := RecordOf(d, s).value; Kept(d, Apply(d, s, cap), k, t)
  {
    match s {
      case Honeypot(ip, checkAt, recordAt) => BothKeep(d, Key(Contact, ip), checkAt, recordAt, cap);
      case Delivered(id, now) => MarkKeeps(d, d.pending[id].key, now, cap);
      case Beacon(ip, checkAt, recordAt) => BothKeep(d, Key(Analytics, ip), checkAt, recordAt, cap);
    }
  }

  // ---- At 0 ----------------------------------------------------------------

  /** Address number n. */
  function Address(n: nat): string {
    if n == 0 then "" else Address(n - 1) + "x"
  }

  function Client(n: nat): Key {
    Key(Contact, Address(n))
  }

  lemma {:induction false} AddressLength(n: nat)
    ensures |Address(n)| == n
  {
    if n > 0 {
      AddressLength(n - 1);
    }
  }

  /** Contact requests of n clients, all checked at 0. */
  function Checks(n: nat): Trace<Step> {
    if n == 0 then Start else Then(Checks(n - 1), ContactCheck(n - 1, Address(n - 1), 0.0))
  }

  function ClientList(n: nat): seq<Key> {
    if n == 0 then [] else ClientList(n - 1) + [Client(n - 1)]
  }

  ghost predicate AllNew(d: Door, n: nat) {
    && Valid(d.table) && d.table.order == ClientList(n) && d.clock == 0.0
    && (forall x :: x in d.table.hits ==> d.table.hits[x] == [] && |x.ip| < n)
    && (forall id :: id in d.pending ==> id < n)
    && (n > 0 ==> 0 in d.pending && d.pending[0] == Waiting(Client(0), 0.0))
  }

  /** A new client passes, and its request waits. */
  lemma NewClientPasses(d: Door, n: nat, cap: nat)
    requires Client(n) !in d.table.hits
    ensures Apply(d, ContactCheck(n, Address(n), 0.0), cap) ==
            d.(table := Table(d.table.order + [Client(n)], d.table.hits[Client(n) := []]),
               pending := d.pending[n := Waiting(Client(n), 0.0)], clock := 0.0)
  {
    PassesWithRoom([], 0.0, LimitsOf(Contact));
    assert d.table.hits[Client(n) := []][Client(n) := []] == d.table.hits[Client(n) := []];
  }

  lemma OneMoreNew(d: Door, d': Door, n: nat)
    requires AllNew(d, n) && Client(n) !in d.table.hits && |Address(n)| == n
    requires d'.table == Table(d.table.order + [Client(n)], d.table.hits[Client(n) := []])
    requires d'.pending == d.pending[n := Waiting(Client(n), 0.0)] && d'.clock == 0.0
    ensures AllNew(d', n + 1)
  {
  }

  lemma OneMoreChecked(d: Door, n: nat, cap: nat)
    requires AllNew(d, n)
    ensures Timely(d, ContactCheck(n, Address(n), 0.0))
              && AllNew(Apply(d, ContactCheck(n, Address(n), 0.0), cap), n + 1)
  {
    AddressLength(n);
    assert Client(n) !in d.table.hits;
    NewClientPasses(d, n, cap);
    OneMoreNew(d, Apply(d, ContactCheck(n, Address(n), 0.0), cap), n);
    hide Apply, Valid;
  }

  lemma NothingNew()
    ensures AllNew(OPENED, 0)
  {
  }

  lemma {:induction false} ChecksState(n: nat, cap: nat)
    ensures Legal(Checks(n), cap) && AllNew(Run(Checks(n), cap), n)
  {
    hide AllNew, Apply, Timely;
    if n == 0 {
      NothingNew();
    } else {
      ChecksState(n - 1, cap);
      OneMoreChecked(Run(Checks(n - 1), cap), n - 1, cap);
    }
  }

  lemma {:induction false} ClientListSize(n: nat)
    ensures |ClientList(n)| == n && (n > 0 ==> ClientList(n)[0] == Client(0))
  {
    if n > 0 {
      ClientListSize(n - 1);
    }
  }

  /** For every capacity there is a run in which a message delivered at 0 drops its own client from the map. */
  lemma RecordedKeyMayGo(cap: nat)
    ensures var steps := Checks(cap + 1);
            && Legal(Then(steps, Delivered(0, 0.0)), cap)
            && RecordOf(Run(steps, cap), Delivered(0, 0.0)) == Some((Client(0), 0.0))
            && Client(0) !in Run(Then(steps, Delivered(0, 0.0)), cap).table.hits
  {
    ChecksState(cap + 1, cap);
    ClientListSize(cap + 1);
    RecordAtZeroDropsFirst(Run(Checks(cap + 1), cap).table, cap);
  }

  /** Every record made at a moment keeps its key. */
  ghost predicate RecordsStay(cap: nat, t: Time) {
    forall steps, s, k :: Legal(Then(steps, s), cap) && RecordOf(Run(steps, cap), s) == Some((k, t)) ==>
      k in Run(Then(steps, s), cap).table.hits
  }

  lemma StaysLater(cap: nat, t: Time)
    requires cap >= 1 && t > 0.0
    ensures RecordsStay(cap, t)
  {
    hide Legal, Run, RecordOf;
    forall steps, s, k | Legal(Then(steps, s), cap) && RecordOf(Run(steps, cap), s) == Some((k, t))
      ensures k in Run(Then(steps, s), cap).table.hits
    {
      RecordedKeyStays(steps, s, cap);
    }
  }

  /** That holds of every moment but 0. */
  lemma RecordsStayAfterZero(cap: nat, t: Time)
    requires cap >= 1 && t >= 0.0
    ensures RecordsStay(cap, t) <==> t > 0.0
  {
    hide Legal, Run, RecordOf;
    if t > 0.0 {
      StaysLater(cap, t);
    } else {
      RecordedKeyMayGo(cap);
    }
  }

  // ---- What a record is for ------------------------------------------------

  /** For five minutes after a message was recorded its client is refused. */
  lemma RecordedIsRefused(steps: Trace<Step>, s: Step, cap: nat, now: Time)
    requires Legal(Then(steps, s), cap) && cap >= 1 && RecordOf(Run(steps, cap), s).Some?
    requires var (k, t) := RecordOf(Run(steps, cap), s).value;
             k.scope.Contact? && 0.0 < t && Run(Then(steps, s), cap).clock <= now < t + 300.0
    ensures Answer(Run(Then(steps, s), cap), RecordOf(Run(steps, cap), s).value.0, now).Some?
  {
    var (k, t) := RecordOf(Run(steps, cap), s).value;
    RecordedKeyStays(steps, s, cap);
    ContactAnswer(Then(steps, s), cap, k.ip, now);
    var log, before := LogOf(Run(Then(steps, s), cap), k), LogOf(Run(steps, cap), k);
    assert log[|before|] == t;
  }
}
