/**
 The limiter's map of deques: a defaultdict, so that a mere look at a key adds
 it, in insertion order, and the eviction that bounds the map by dropping the
 least recently seen keys.
 */
module Clients {
  import opened Prelude
  import opened SlidingWindow
  import A = Admission

  const MAX_TRACKED_CLIENTS: nat := 10_000

  datatype Scope = Contact | Analytics

  /** The digest of an address identifies the address. */
  datatype Key = Key(scope: Scope, ip: string)

  /** A dict: its keys in insertion order, and the deque of each. */
  datatype Table = Table(order: seq<Key>, hits: map<Key, seq<Time>>)

  const NO_CLIENTS := Table([], map[])

  ghost predicate Distinct(keys: seq<Key>) {
    forall i, j :: 0 <= i < j < |keys| ==> keys[i] != keys[j]
  }

  ghost predicate Valid(t: Table) {
    Distinct(t.order) && forall k :: k in t.order <==> k in t.hits
  }

  /** Looking a key up in a defaultdict adds it with an empty deque. */
  function Touch(t: Table, k: Key): Table {
    if k in t.hits then t else Table(t.order + [k], t.hits[k := []])
  }

  function Deque(t: Table, k: Key): seq<Time> {
    if k in t.hits then t.hits[k] else []
  }

  function Put(t: Table, k: Key, stamps: seq<Time>): Table {
    Touch(t, k).(hits := Touch(t, k).hits[k := stamps])
  }

  /** `check` leaves the key behind, with its front pruned. */
  function Checked(t: Table, k: Key, now: Time, limits: seq<RateLimit>): Table {
    Put(t, k, Prune(Deque(t, k), now, Longest(limits)))
  }

  /** `record` appends, then evicts. */
  function Recorded(t: Table, k: Key, now: Time, cap: nat): Table {
    Evicted(Put(t, k, Deque(t, k) + [now]), cap)
  }

  /** A check inserts its key and evicts nothing, so at the cap a new client takes the map over it. */
  lemma CheckMayExceedCap(t: Table, k: Key, now: Time, limits: seq<RateLimit>, cap: nat)
    requires Valid(t) && |t.order| <= cap
    ensures |Checked(t, k, now, limits).order| <= cap <==> k in t.hits || |t.order| < cap
    ensures |Checked(t, k, now, limits).order| <= cap + 1
  {
  }

  // ---- Eviction ------------------------------------------------------------

  /** The sort key: the last stamp, or 0 for an empty deque. */
  function LastSeen(t: Table, k: Key): Time {
    var stamps := Deque(t, k);
    if |stamps| == 0 then 0.0 else stamps[|stamps| - 1]
  }

  /** Inserts a key behind every key seen no later, as a stable sort does. */
  function Insert(t: Table, sorted: seq<Key>, k: Key): (r: seq<Key>)
    ensures |r| == |sorted| + 1
  {
    if |sorted| == 0 || LastSeen(t, sorted[|sorted| - 1]) <= LastSeen(t, k) then sorted + [k]
    else Insert(t, sorted[..|sorted| - 1], k) + [sorted[|sorted| - 1]]
  }

  /** The first n keys of the dict, sorted by when they were last seen; ties stay in insertion order. */
  function Sorted(t: Table, n: nat): (r: seq<Key>)
    requires n <= |t.order|
    ensures |r| == n
  {
    if n == 0 then [] else Insert(t, Sorted(t, n - 1), t.order[n - 1])
  }

  function Without(keys: seq<Key>, k: Key): seq<Key> {
    if |keys| == 0 then []
    else if keys[0] == k then keys[1..]
    else [keys[0]] + Without(keys[1..], k)
  }

  function Delete(t: Table, k: Key): Table {
    Table(Without(t.order, k), t.hits - {k})
  }

  function DeleteFirst(t: Table, victims: seq<Key>, n: nat): Table
    requires n <= |victims|
  {
    if n == 0 then t else Delete(DeleteFirst(t, victims, n - 1), victims[n - 1])
  }

  function Evicted(t: Table, cap: nat): Table {
    if |t.order| <= cap then t
    else DeleteFirst(t, Sorted(t, |t.order|), |t.order| - cap)
  }

  // ---- The sort ------------------------------------------------------------

  function Position(keys: seq<Key>, k: Key): nat {
    if |keys| == 0 || keys[0] == k then 0 else 1 + Position(keys[1..], k)
  }

  lemma {:induction false} PositionIsIndex(keys: seq<Key>, i: nat)
    requires Distinct(keys) && i < |keys|
    ensures Position(keys, keys[i]) == i
  {
    if i > 0 {
      assert keys[0] != keys[i];
      PositionIsIndex(keys[1..], i - 1);
    }
  }

  /** Whether the eviction prefers to drop `a`: seen earlier, or as late but inserted earlier. */
  predicate Before(t: Table, a: Key, b: Key) {
    || LastSeen(t, a) < LastSeen(t, b)
    || (LastSeen(t, a) == LastSeen(t, b) && Position(t.order, a) < Position(t.order, b))
  }

  ghost predicate Ascending(t: Table, keys: seq<Key>) {
    forall i, j :: 0 <= i < j < |keys| ==> Before(t, keys[i], keys[j])
  }

  /** Where a stable insertion puts the new key. */
  lemma {:induction false} InsertCut(t: Table, sorted: seq<Key>, k: Key) returns (c: nat)
    requires Ascending(t, sorted)
    ensures c <= |sorted| && Insert(t, sorted, k) == sorted[..c] + [k] + sorted[c..]
    ensures forall i :: 0 <= i < c ==> LastSeen(t, sorted[i]) <= LastSeen(t, k)
    ensures forall i :: c <= i < |sorted| ==> LastSeen(t, k) < LastSeen(t, sorted[i])
  {
    hide LastSeen, Position;
    var n := |sorted|;
    if n == 0 || LastSeen(t, sorted[n - 1]) <= LastSeen(t, k) {
      c := n;
      assert sorted[..n] == sorted && sorted[n..] == [];
      forall i | 0 <= i < n
        ensures LastSeen(t, sorted[i]) <= LastSeen(t, k)
      {
        assert i < n - 1 ==> Before(t, sorted[i], sorted[n - 1]);
      }
    } else {
      var front := sorted[..n - 1];
      c := InsertCut(t, front, k);
      assert front[..c] == sorted[..c] && front[c..] + [sorted[n - 1]] == sorted[c..];
      assert forall i :: 0 <= i < n - 1 ==> front[i] == sorted[i];
    }
  }

  lemma SplicedAscending(t: Table, a: seq<Key>, k: Key, b: seq<Key>)
    requires Ascending(t, a + b)
    requires forall x :: x in a ==> Before(t, x, k)
    requires forall x :: x in b ==> Before(t, k, x)
    ensures Ascending(t, a + [k] + b)
  {
    var r, s := a + [k] + b, a + b;
    forall i, j | 0 <= i < j < |r|
      ensures Before(t, r[i], r[j])
    {
      if i == |a| {
        assert r[j] in b;
      } else if j == |a| {
        assert r[i] in a;
      } else {
        var i', j' := if i < |a| then i else i - 1, if j < |a| then j else j - 1;
        assert r[i] == s[i'] && r[j] == s[j'];
      }
    }
  }

  lemma InsertKeeps(t: Table, sorted: seq<Key>, k: Key)
    requires Ascending(t, sorted)
    requires forall x :: x in sorted ==> Position(t.order, x) < Position(t.order, k)
    ensures Ascending(t, Insert(t, sorted, k))
    ensures forall x :: x in Insert(t, sorted, k) <==> x == k || x in sorted
  {
    var c := InsertCut(t, sorted, k);
    var a, b := sorted[..c], sorted[c..];
    assert sorted == a + b;
    SplicedAscending(t, a, k, b);
  }

  lemma NoneAscending(t: Table)
    ensures Ascending(t, [])
  {
  }

  /** The sort returns exactly the keys of the dict, oldest first, ties in insertion order. */
  lemma {:induction false} SortedInOrder(t: Table, n: nat)
    requires Valid(t) && n <= |t.order|
    ensures Ascending(t, Sorted(t, n))
    ensures forall x :: x in Sorted(t, n) <==> x in t.order[..n]
  {
    hide Insert, LastSeen, Ascending;
    if n == 0 {
      NoneAscending(t);
    } else {
      SortedInOrder(t, n - 1);
      var sorted, k := Sorted(t, n - 1), t.order[n - 1];
      forall x | x in sorted
        ensures Position(t.order, x) < Position(t.order, k)
      {
        var j :| 0 <= j < n - 1 && t.order[j] == x;
        PositionIsIndex(t.order, j);
        PositionIsIndex(t.order, n - 1);
      }
      InsertKeeps(t, sorted, k);
      assert t.order[..n] == t.order[..n - 1] + [k];
    }
  }

  // ---- What is left --------------------------------------------------------

  lemma {:induction false} WithoutDrops(keys: seq<Key>, k: Key)
    requires Distinct(keys) && k in keys
    ensures |Without(keys, k)| == |keys| - 1 && Distinct(Without(keys, k))
    ensures forall x :: x in Without(keys, k) <==> x in keys && x != k
  {
    if keys[0] != k {
      WithoutDrops(keys[1..], k);
      assert keys[0] !in keys[1..];
      assert forall x :: x in keys <==> x == keys[0] || x in keys[1..];
    }
  }

  lemma {:induction false} DeleteFirstAt(t: Table, victims: seq<Key>, n: nat, k: Key)
    requires n <= |victims|
    ensures k in DeleteFirst(t, victims, n).hits <==> k in t.hits && k !in victims[..n]
    ensures k in DeleteFirst(t, victims, n).hits ==> DeleteFirst(t, victims, n).hits[k] == t.hits[k]
  {
    if n > 0 {
      DeleteFirstAt(t, victims, n - 1, k);
      assert victims[..n] == victims[..n - 1] + [victims[n - 1]];
    }
  }

  lemma {:induction false} DeleteFirstCounts(t: Table, victims: seq<Key>, n: nat)
    requires Valid(t) && n <= |victims| && Distinct(victims)
    requires forall x :: x in victims ==> x in t.hits
    ensures Valid(DeleteFirst(t, victims, n)) && |DeleteFirst(t, victims, n).order| == |t.order| - n
  {
    if n > 0 {
      DeleteFirstCounts(t, victims, n - 1);
      var before, k := DeleteFirst(t, victims, n - 1), victims[n - 1];
      DeleteFirstAt(t, victims, n - 1, k);
      assert k in victims;
      WithoutDrops(before.order, k);
    }
  }

  lemma AscendingDistinct(t: Table, keys: seq<Key>)
    requires Ascending(t, keys)
    ensures Distinct(keys)
  {
    forall i, j | 0 <= i < j < |keys|
      ensures keys[i] != keys[j]
    {
      assert Before(t, keys[i], keys[j]);
    }
  }

  /** The keys that the eviction drops. */
  function Victims(t: Table, cap: nat): seq<Key> {
    if |t.order| <= cap then [] else Sorted(t, |t.order|)[..|t.order| - cap]
  }

  lemma SortedIsAll(t: Table)
    requires Valid(t)
    ensures var oldest := Sorted(t, |t.order|);
            Ascending(t, oldest) && Distinct(oldest) && forall x :: x in oldest <==> x in t.hits
  {
    SortedInOrder(t, |t.order|);
    assert t.order[..|t.order|] == t.order;
    AscendingDistinct(t, Sorted(t, |t.order|));
  }

  /** An eviction brings the map down to the cap by dropping exactly the excess. */
  lemma EvictionDropsExcess(t: Table, cap: nat)
    requires Valid(t)
    ensures Valid(Evicted(t, cap))
    ensures |Evicted(t, cap).order| == |t.order| - |Victims(t, cap)|
    ensures |Victims(t, cap)| == if |t.order| > cap then |t.order| - cap else 0
  {
    hide Sorted, DeleteFirst, Ascending;
    if |t.order| > cap {
      var oldest := Sorted(t, |t.order|);
      SortedIsAll(t);
      DeleteFirstCounts(t, oldest, |t.order| - cap);
    }
  }

  /** No key is dropped twice. */
  lemma VictimsOnce(t: Table, cap: nat)
    requires Valid(t)
    ensures Distinct(Victims(t, cap))
  {
    SortedIsAll(t);
  }

  lemma PrefixIn(keys: seq<Key>, m: nat, k: Key)
    requires m <= |keys| && k in keys[..m]
    ensures k in keys
  {
  }

  /** A key outlives the eviction, with its stamps, unless it is one of the dropped. */
  lemma EvictionAt(t: Table, cap: nat, k: Key)
    requires Valid(t)
    ensures k in Evicted(t, cap).hits <==> k in t.hits && k !in Victims(t, cap)
    ensures k in Evicted(t, cap).hits ==> Evicted(t, cap).hits[k] == t.hits[k]
    ensures k in Victims(t, cap) ==> k in t.hits
  {
    if |t.order| > cap {
      var oldest, m := Sorted(t, |t.order|), |t.order| - cap;
      DeleteFirstAt(t, oldest, m, k);
      if k in oldest[..m] {
        PrefixIn(oldest, m, k);
        SortedIsAll(t);
      }
    }
  }

  lemma AscendingAcross(t: Table, keys: seq<Key>, m: nat, v: Key, s: Key)
    requires Ascending(t, keys) && m <= |keys|
    requires v in keys[..m] && s in keys && s !in keys[..m]
    ensures Before(t, v, s)
  {
    var i :| 0 <= i < m && keys[i] == v;
    assert keys == keys[..m] + keys[m..];
    var j :| 0 <= j < |keys[m..]| && keys[m..][j] == s;
    assert Before(t, keys[i], keys[m + j]);
  }

  /** Nothing an eviction drops was seen later than anything it leaves. */
  lemma EvictionDropsOldest(t: Table, cap: nat, v: Key, s: Key)
    requires Valid(t) && v in Victims(t, cap) && s in Evicted(t, cap).hits
    ensures Before(t, v, s) && LastSeen(t, v) <= LastSeen(t, s)
  {
    EvictionAt(t, cap, s);
    SortedIsAll(t);
    AscendingAcross(t, Sorted(t, |t.order|), |t.order| - cap, v, s);
  }

  // ---- Who survives --------------------------------------------------------

  /** The keys that the sort puts behind a given one. */
  function Behind(t: Table, k: Key): set<Key> {
    set x | x in t.hits && Before(t, k, x)
  }

  lemma {:induction false} DistinctSize(keys: seq<Key>)
    requires Distinct(keys)
    ensures |KeySet(keys)| == |keys|
  {
    if |keys| > 0 {
      var front, last := keys[..|keys| - 1], keys[|keys| - 1];
      DistinctSize(front);
      assert keys == front + [last];
      assert last !in KeySet(front);
      assert KeySet(keys) == KeySet(front) + {last};
    }
  }

  function KeySet(keys: seq<Key>): set<Key> {
    set x | x in keys
  }

  lemma BehindIsTail(t: Table, keys: seq<Key>, i: nat)
    requires Ascending(t, keys) && i < |keys|
    requires forall x :: x in keys <==> x in t.hits
    ensures Behind(t, keys[i]) == KeySet(keys[i + 1..])
  {
    forall x
      ensures x in Behind(t, keys[i]) <==> x in KeySet(keys[i + 1..])
    {
      if x in KeySet(keys[i + 1..]) {
        var j :| i + 1 <= j < |keys| && keys[j] == x;
        assert Before(t, keys[i], keys[j]);
      }
      if x in Behind(t, keys[i]) {
        var j :| 0 <= j < |keys| && keys[j] == x;
        assert j < i ==> Before(t, keys[j], keys[i]);
        assert keys[i + 1..][j - i - 1] == x;
      }
    }
  }

  /** A key outlives an eviction if and only if fewer than `cap` keys sort behind it. */
  lemma SurvivesIffFewBehind(t: Table, cap: nat, k: Key)
    requires Valid(t) && k in t.hits
    ensures k in Evicted(t, cap).hits <==> |t.order| <= cap || |Behind(t, k)| < cap
  {
    if |t.order| > cap {
      EvictionAt(t, cap, k);
      SortedIsAll(t);
      var oldest := Sorted(t, |t.order|);
      var i :| 0 <= i < |oldest| && oldest[i] == k;
      BehindIsTail(t, oldest, i);
      DistinctSize(oldest[i + 1..]);
      assert k in oldest[..|t.order| - cap] <==> i < |t.order| - cap;
    }
  }

  /** So a key whose last stamp is newer than every other's is never dropped. */
  lemma NewestSurvives(t: Table, cap: nat, k: Key)
    requires Valid(t) && k in t.hits && cap > 0
    requires forall x :: x in t.hits && x != k ==> LastSeen(t, x) < LastSeen(t, k)
    ensures k in Evicted(t, cap).hits
  {
    assert Behind(t, k) == {};
    SurvivesIffFewBehind(t, cap, k);
  }

  // ---- Why a record keeps its key ------------------------------------------

  /** Keys that a check inserted into a full map have no stamps. */
  ghost predicate ExtrasEmpty(t: Table, cap: nat) {
    forall i :: cap <= i < |t.order| ==> Deque(t, t.order[i]) == []
  }

  lemma CheckKeepsExtras(t: Table, k: Key, now: Time, limits: seq<RateLimit>, cap: nat)
    requires Valid(t) && ExtrasEmpty(t, cap)
    ensures ExtrasEmpty(Checked(t, k, now, limits), cap)
  {
  }

  lemma RecordKeepsExtras(t: Table, k: Key, now: Time, cap: nat)
    requires Valid(t)
    ensures ExtrasEmpty(Recorded(t, k, now, cap), cap)
  {
    EvictionDropsExcess(Put(t, k, Deque(t, k) + [now]), cap);
  }

  lemma {:induction false} PositionOfAppended(keys: seq<Key>, last: Key, x: Key)
    requires x in keys
    ensures Position(keys + [last], x) == Position(keys, x) < |keys|
  {
    if keys[0] != x {
      assert (keys + [last])[1..] == keys[1..] + [last];
      PositionOfAppended(keys[1..], last, x);
    }
  }

  /** A key with stamps sits among the first `cap`. */
  lemma StampedSitsEarly(t: Table, cap: nat, x: Key)
    requires Valid(t) && ExtrasEmpty(t, cap) && x in t.hits && t.hits[x] != []
    ensures Position(t.order, x) < cap
  {
    var i :| 0 <= i < |t.order| && t.order[i] == x;
    PositionIsIndex(t.order, i);
  }

  lemma FewPositions(keys: seq<Key>, cap: nat, some: set<Key>)
    requires Distinct(keys) && 1 <= cap <= |keys|
    requires forall x :: x in some ==> x in keys && 0 < Position(keys, x) < cap
    ensures |some| < cap
  {
    forall x | x in some
      ensures x in KeySet(keys[1..cap])
    {
      var i :| 0 <= i < |keys| && keys[i] == x;
      PositionIsIndex(keys, i);
      assert keys[1..cap][i - 1] == x;
    }
    DistinctSize(keys[1..cap]);
    A.SubsetSize(some, KeySet(keys[1..cap]));
  }

  /** What sorts behind a key recorded now, later than 0, has stamps and sits among the first `cap`. */
  lemma BehindSitsEarly(t: Table, k: Key, now: Time, cap: nat, x: Key)
    requires Valid(t) && ExtrasEmpty(t, cap) && now > 0.0
    requires forall y :: y in t.hits ==> LastSeen(t, y) <= now
    requires x in Behind(Put(t, k, Deque(t, k) + [now]), k)
    ensures 0 < Position(Put(t, k, Deque(t, k) + [now]).order, x) < cap
  {
    var full := Put(t, k, Deque(t, k) + [now]);
    assert LastSeen(full, k) == now;
    assert x != k && LastSeen(full, x) == LastSeen(t, x) == now;
    StampedSitsEarly(t, cap, x);
    if k !in t.hits {
      PositionOfAppended(t.order, k, x);
    }
  }

  /**
   A record keeps its own key, even against keys with the same last stamp, as
   long as no stamp is 0, which is what a key without stamps counts as.
   */
  lemma RecordKeepsKey(t: Table, k: Key, now: Time, cap: nat)
    requires Valid(t) && ExtrasEmpty(t, cap) && now > 0.0 && cap >= 1
    requires forall y :: y in t.hits ==> LastSeen(t, y) <= now
    ensures k in Recorded(t, k, now, cap).hits && Recorded(t, k, now, cap).hits[k] == Deque(t, k) + [now]
  {
    var full := Put(t, k, Deque(t, k) + [now]);
    if |full.order| > cap {
      forall x | x in Behind(full, k)
        ensures x in full.order && 0 < Position(full.order, x) < cap
      {
        BehindSitsEarly(t, k, now, cap, x);
      }
      FewPositions(full.order, cap, Behind(full, k));
    }
    SurvivesIffFewBehind(full, cap, k);
    EvictionAt(full, cap, k);
  }

  /** At 0 every other key ties with it, and those inserted later win. */
  lemma RecordAtZeroDropsFirst(t: Table, cap: nat)
    requires Valid(t) && |t.order| == cap + 1
    requires forall x :: x in t.hits ==> t.hits[x] == []
    ensures t.order[0] !in Recorded(t, t.order[0], 0.0, cap).hits
  {
    var k := t.order[0];
    var full := Put(t, k, Deque(t, k) + [0.0]);
    forall x | x in KeySet(t.order[1..])
      ensures x in Behind(full, k)
    {
      var i :| 0 <= i < cap && t.order[1..][i] == x;
      PositionIsIndex(t.order, i + 1);
      PositionIsIndex(t.order, 0);
      assert LastSeen(full, x) == 0.0;
    }
    DistinctSize(t.order[1..]);
    A.SubsetSize(KeySet(t.order[1..]), Behind(full, k));
    SurvivesIffFewBehind(full, cap, k);
  }
}
