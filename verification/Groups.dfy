/** GROUP BY with counts, zero-filling, and ORDER BY count DESC LIMIT k. */
module Groups {
  datatype Group<K> = Group(key: K, count: nat)

  /** One more row for a key: its group grows, or a new group of one starts. */
  function Bump<K(==)>(groups: seq<Group<K>>, k: K): seq<Group<K>> {
    if |groups| == 0 then [Group(k, 1)]
    else if groups[0].key == k then [Group(k, groups[0].count + 1)] + groups[1..]
    else [groups[0]] + Bump(groups[1..], k)
  }

  /** One pass over the keys. */
  function Tally<K(==)>(keys: seq<K>): seq<Group<K>> {
    if |keys| == 0 then [] else Bump(Tally(keys[..|keys| - 1]), keys[|keys| - 1])
  }

  function Total<K>(groups: seq<Group<K>>): nat {
    if |groups| == 0 then 0 else groups[0].count + Total(groups[1..])
  }

  /** The count of a key, or zero when it has no group. */
  function CountOf<K(==)>(groups: seq<Group<K>>, k: K): nat {
    if |groups| == 0 then 0
    else if groups[0].key == k then groups[0].count
    else CountOf(groups[1..], k)
  }

  function Occurrences<K(==)>(keys: seq<K>, k: K): nat {
    if |keys| == 0 then 0
    else Occurrences(keys[..|keys| - 1], k) + (if keys[|keys| - 1] == k then 1 else 0)
  }

  lemma {:induction false} BumpTotal<K>(groups: seq<Group<K>>, k: K)
    ensures Total(Bump(groups, k)) == Total(groups) + 1
  {
    if |groups| > 0 {
      if groups[0].key != k {
        BumpTotal(groups[1..], k);
        assert Bump(groups, k)[1..] == Bump(groups[1..], k);
      } else {
        assert Bump(groups, k)[1..] == groups[1..];
      }
    }
  }

  lemma {:induction false} BumpCount<K>(groups: seq<Group<K>>, k: K, x: K)
    ensures CountOf(Bump(groups, k), x) == CountOf(groups, x) + (if x == k then 1 else 0)
  {
    if |groups| > 0 {
      if groups[0].key != k {
        BumpCount(groups[1..], k, x);
        assert Bump(groups, k)[1..] == Bump(groups[1..], k);
      } else {
        assert Bump(groups, k)[1..] == groups[1..];
      }
    }
  }

  /** Grouping loses no row and counts none twice. */
  lemma {:induction false} TallyTotal<K>(keys: seq<K>)
    ensures Total(Tally(keys)) == |keys|
  {
    if |keys| > 0 {
      TallyTotal(keys[..|keys| - 1]);
      BumpTotal(Tally(keys[..|keys| - 1]), keys[|keys| - 1]);
    }
  }

  lemma {:induction false} TallyCount<K>(keys: seq<K>, k: K)
    ensures CountOf(Tally(keys), k) == Occurrences(keys, k)
  {
    if |keys| > 0 {
      TallyCount(keys[..|keys| - 1], k);
      BumpCount(Tally(keys[..|keys| - 1]), keys[|keys| - 1], k);
    }
  }

  // ---- Zero-filled ---------------------------------------------------------

  /** One group per member of a fixed domain, present in the data or not. */
  function ZeroFill<K(==)>(domain: seq<K>, groups: seq<Group<K>>): seq<Group<K>> {
    if |domain| == 0 then [] else [Group(domain[0], CountOf(groups, domain[0]))] + ZeroFill(domain[1..], groups)
  }

  lemma {:induction false} ZeroFillBump<K>(domain: seq<K>, groups: seq<Group<K>>, k: K)
    requires forall i, j :: 0 <= i < j < |domain| ==> domain[i] != domain[j]
    ensures Total(ZeroFill(domain, Bump(groups, k))) == Total(ZeroFill(domain, groups)) + (if k in domain then 1 else 0)
  {
    if |domain| > 0 {
      ZeroFillBump(domain[1..], groups, k);
      BumpCount(groups, k, domain[0]);
      assert ZeroFill(domain, groups)[1..] == ZeroFill(domain[1..], groups);
      assert ZeroFill(domain, Bump(groups, k))[1..] == ZeroFill(domain[1..], Bump(groups, k));
      assert k in domain <==> k == domain[0] || k in domain[1..];
    }
  }

  lemma {:induction false} ZeroFillNothing<K>(domain: seq<K>)
    ensures Total(ZeroFill<K>(domain, [])) == 0
  {
    if |domain| > 0 {
      ZeroFillNothing(domain[1..]);
      assert ZeroFill(domain, [])[1..] == ZeroFill(domain[1..], []);
    }
  }

  /** A zero-filled breakdown over a domain that covers the data sums to the number of rows. */
  lemma {:induction false} ZeroFillTotal<K>(domain: seq<K>, keys: seq<K>)
    requires forall i, j :: 0 <= i < j < |domain| ==> domain[i] != domain[j]
    requires forall i :: 0 <= i < |keys| ==> keys[i] in domain
    ensures Total(ZeroFill(domain, Tally(keys))) == |keys|
  {
    if |keys| == 0 {
      ZeroFillNothing(domain);
    } else {
      var front, last := keys[..|keys| - 1], keys[|keys| - 1];
      assert forall i :: 0 <= i < |front| ==> front[i] == keys[i];
      ZeroFillTotal(domain, front);
      ZeroFillBump(domain, Tally(front), last);
    }
  }

  // ---- The k largest -------------------------------------------------------

  /** Inserts a group behind every group with no fewer rows. */
  function InsertByCount<K>(ranked: seq<Group<K>>, g: Group<K>): seq<Group<K>> {
    if |ranked| == 0 || ranked[|ranked| - 1].count >= g.count then ranked + [g]
    else InsertByCount(ranked[..|ranked| - 1], g) + [ranked[|ranked| - 1]]
  }

  function Ranked<K>(groups: seq<Group<K>>): seq<Group<K>> {
    if |groups| == 0 then [] else InsertByCount(Ranked(groups[..|groups| - 1]), groups[|groups| - 1])
  }

  function Top<K>(groups: seq<Group<K>>, k: nat): seq<Group<K>> {
    if |Ranked(groups)| <= k then Ranked(groups) else Ranked(groups)[..k]
  }

  ghost predicate Descending<K>(ranked: seq<Group<K>>) {
    forall i, j :: 0 <= i < j < |ranked| ==> ranked[i].count >= ranked[j].count
  }

  lemma {:induction false} InsertKeepsGroups<K>(ranked: seq<Group<K>>, g: Group<K>)
    ensures multiset(InsertByCount(ranked, g)) == multiset(ranked) + multiset{g}
    ensures |InsertByCount(ranked, g)| == |ranked| + 1
  {
    if |ranked| > 0 && ranked[|ranked| - 1].count < g.count {
      InsertKeepsGroups(ranked[..|ranked| - 1], g);
      assert ranked == ranked[..|ranked| - 1] + [ranked[|ranked| - 1]];
    }
  }

  lemma DescendingSnoc<K>(ranked: seq<Group<K>>, g: Group<K>)
    requires Descending(ranked) && forall x :: x in ranked ==> x.count >= g.count
    ensures Descending(ranked + [g])
  {
  }

  lemma {:induction false} InsertKeepsOrder<K>(ranked: seq<Group<K>>, g: Group<K>)
    requires Descending(ranked)
    ensures Descending(InsertByCount(ranked, g))
  {
    if |ranked| > 0 && ranked[|ranked| - 1].count < g.count {
      var front, last := ranked[..|ranked| - 1], ranked[|ranked| - 1];
      InsertKeepsOrder(front, g);
      forall x | x in InsertByCount(front, g)
        ensures x.count >= last.count
      {
        InsertKeepsGroups(front, g);
        assert x in multiset(InsertByCount(front, g));
      }
      DescendingSnoc(InsertByCount(front, g), last);
    }
  }

  lemma {:induction false} RankedIsSorted<K>(groups: seq<Group<K>>)
    ensures Descending(Ranked(groups)) && multiset(Ranked(groups)) == multiset(groups)
    ensures |Ranked(groups)| == |groups|
  {
    if |groups| > 0 {
      var front, last := groups[..|groups| - 1], groups[|groups| - 1];
      RankedIsSorted(front);
      InsertKeepsOrder(Ranked(front), last);
      InsertKeepsGroups(Ranked(front), last);
      assert groups == front + [last];
    }
  }

  /** The groups that a limit cuts off. */
  function Rest<K>(groups: seq<Group<K>>, k: nat): seq<Group<K>> {
    if |Ranked(groups)| <= k then [] else Ranked(groups)[k..]
  }

  /** A top k lists groups in descending order, and nothing left out outranks anything listed. */
  lemma TopIsHighest<K>(groups: seq<Group<K>>, k: nat)
    ensures |Top(groups, k)| == if |groups| <= k then |groups| else k
    ensures Descending(Top(groups, k))
    ensures multiset(Top(groups, k)) + multiset(Rest(groups, k)) == multiset(groups)
    ensures forall i, j :: 0 <= i < |Top(groups, k)| && 0 <= j < |Rest(groups, k)| ==>
              Rest(groups, k)[j].count <= Top(groups, k)[i].count
  {
    RankedIsSorted(groups);
    hide Ranked;
    assert Ranked(groups) == Top(groups, k) + Rest(groups, k);
  }

  lemma {:induction false} TotalOfSum<K>(a: seq<Group<K>>, b: seq<Group<K>>)
    ensures Total(a + b) == Total(a) + Total(b)
  {
    if |a| == 0 {
      assert a + b == b;
    } else {
      assert (a + b)[1..] == a[1..] + b;
      TotalOfSum(a[1..], b);
    }
  }

  lemma {:induction false} InsertTotal<K>(ranked: seq<Group<K>>, g: Group<K>)
    ensures Total(InsertByCount(ranked, g)) == Total(ranked) + g.count
  {
    if |ranked| == 0 || ranked[|ranked| - 1].count >= g.count {
      TotalOfSum(ranked, [g]);
    } else {
      var front, last := ranked[..|ranked| - 1], ranked[|ranked| - 1];
      InsertTotal(front, g);
      TotalOfSum(InsertByCount(front, g), [last]);
      assert ranked == front + [last];
      TotalOfSum(front, [last]);
    }
  }

  /** Ranking moves groups around and keeps their total. */
  lemma {:induction false} RankedTotal<K>(groups: seq<Group<K>>)
    ensures Total(Ranked(groups)) == Total(groups)
  {
    if |groups| > 0 {
      var front, last := groups[..|groups| - 1], groups[|groups| - 1];
      RankedTotal(front);
      InsertTotal(Ranked(front), last);
      assert groups == front + [last];
      TotalOfSum(front, [last]);
    }
  }

  // ---- What a listed group says about the data -----------------------------

  ghost predicate KeysOnce<K>(groups: seq<Group<K>>) {
    forall i, j :: 0 <= i < j < |groups| ==> groups[i].key != groups[j].key
  }

  /** A bump touches the one group of its key, or appends one. */
  lemma {:induction false} BumpAt<K>(groups: seq<Group<K>>, k: K) returns (at: nat)
    requires KeysOnce(groups)
    ensures at <= |groups|
    ensures at < |groups| ==> groups[at].key == k && Bump(groups, k) == groups[at := Group(k, groups[at].count + 1)]
    ensures at == |groups| ==>
              Bump(groups, k) == groups + [Group(k, 1)] && forall i :: 0 <= i < |groups| ==> groups[i].key != k
  {
    if |groups| == 0 || groups[0].key == k {
      at := 0;
    } else {
      var rest := BumpAt(groups[1..], k);
      at := rest + 1;
      assert forall i :: 1 <= i < |groups| ==> groups[i] == groups[1..][i - 1];
    }
  }

  /** Each key has one group, whose count is the number of its rows. */
  lemma {:induction false} TallyExact<K>(keys: seq<K>)
    ensures KeysOnce(Tally(keys))
    ensures forall i :: 0 <= i < |Tally(keys)| ==> Tally(keys)[i].count == Occurrences(keys, Tally(keys)[i].key)
    ensures forall k :: k in keys ==> exists i :: 0 <= i < |Tally(keys)| && Tally(keys)[i].key == k
  {
    if |keys| > 0 {
      var front, last := keys[..|keys| - 1], keys[|keys| - 1];
      TallyExact(front);
      var groups := Tally(front);
      var at := BumpAt(groups, last);
      assert Tally(keys)[at].key == last;
      if at == |groups| {
        Unseen(front, last);
      }
      forall k | k in keys
        ensures exists i :: 0 <= i < |Tally(keys)| && Tally(keys)[i].key == k
      {
        if k != last {
          assert k in front;
          var i :| 0 <= i < |groups| && groups[i].key == k;
          assert Tally(keys)[i].key == k;
        }
      }
    }
  }

  lemma {:induction false} Unseen<K>(keys: seq<K>, k: K)
    ensures Occurrences(keys, k) == 0 <==> k !in keys
  {
    if |keys| > 0 {
      Unseen(keys[..|keys| - 1], k);
      assert keys == keys[..|keys| - 1] + [keys[|keys| - 1]];
    }
  }

  /** Every listed key has as many rows as the list says, and no key left out has more. */
  lemma TopOfData<K>(keys: seq<K>, k: nat, i: nat, other: K)
    requires i < |Top(Tally(keys), k)|
    requires forall j :: 0 <= j < |Top(Tally(keys), k)| ==> Top(Tally(keys), k)[j].key != other
    ensures Top(Tally(keys), k)[i].count == Occurrences(keys, Top(Tally(keys), k)[i].key)
    ensures Occurrences(keys, other) <= Top(Tally(keys), k)[i].count
  {
    var groups := Tally(keys);
    var top, rest := Top(groups, k), Rest(groups, k);
    TallyExact(keys);
    TopIsHighest(groups, k);
    assert top[i] in multiset(groups);
    Unseen(keys, other);
    if other in keys {
      var j :| 0 <= j < |groups| && groups[j].key == other;
      assert groups[j] in multiset(top) + multiset(rest);
      var m :| 0 <= m < |rest| && rest[m] == groups[j];
    }
  }

  // ---- Occurrences, one by one ---------------------------------------------

  /** Where a key stands. */
  function Positions<K(==)>(keys: seq<K>, k: K): set<int> {
    set i | 0 <= i < |keys| && keys[i] == k
  }

  lemma {:induction false} OccurrencesIsSize<K>(keys: seq<K>, k: K)
    ensures Occurrences(keys, k) == |Positions(keys, k)|
  {
    if |keys| > 0 {
      var front, n := keys[..|keys| - 1], |keys| - 1;
      OccurrencesIsSize(front, k);
      assert Positions(keys, k) == if keys[n] == k then Positions(front, k) + {n} else Positions(front, k);
    }
  }

  lemma {:induction false} ZeroFillAt<K>(domain: seq<K>, groups: seq<Group<K>>, i: nat)
    requires i < |domain|
    ensures |ZeroFill(domain, groups)| == |domain|
    ensures ZeroFill(domain, groups)[i] == Group(domain[i], CountOf(groups, domain[i]))
  {
    if i > 0 {
      ZeroFillAt(domain[1..], groups, i - 1);
    } else if |domain| > 1 {
      ZeroFillAt(domain[1..], groups, 0);
    }
  }

  /** A zero-filled breakdown has one group per member of the domain, in its order, with the number of its rows. */
  lemma BreakdownAt<K>(domain: seq<K>, keys: seq<K>, i: nat)
    requires i < |domain|
    ensures |ZeroFill(domain, Tally(keys))| == |domain|
    ensures ZeroFill(domain, Tally(keys))[i] == Group(domain[i], |Positions(keys, domain[i])|)
  {
    ZeroFillAt(domain, Tally(keys), i);
    TallyCount(keys, domain[i]);
    OccurrencesIsSize(keys, domain[i]);
  }

  ghost predicate Lists<K>(groups: seq<Group<K>>, k: K) {
    exists i :: 0 <= i < |groups| && groups[i].key == k
  }

  /** An unlimited list has one group per key that occurs, with the number of its rows. */
  lemma RankedOfData<K>(keys: seq<K>, k: K)
    ensures forall g :: g in Ranked(Tally(keys)) && g.key == k ==> g.count == |Positions(keys, k)|
    ensures k in keys <==> Lists(Ranked(Tally(keys)), k)
  {
    var groups, ranked := Tally(keys), Ranked(Tally(keys));
    TallyExact(keys);
    RankedIsSorted(groups);
    OccurrencesIsSize(keys, k);
    forall g | g in ranked && g.key == k
      ensures g.count == |Positions(keys, k)| && k in keys
    {
      assert g in multiset(groups);
      var i :| 0 <= i < |groups| && groups[i] == g;
      Unseen(keys, k);
      TallyPositive(keys, i);
    }
    if k in keys {
      var i :| 0 <= i < |groups| && groups[i].key == k;
      assert groups[i] in multiset(ranked);
      var j :| 0 <= j < |ranked| && ranked[j] == groups[i];
      assert ranked[j].key == k;
    }
  }

  lemma {:induction false} TallyPositive<K>(keys: seq<K>, i: nat)
    requires i < |Tally(keys)|
    ensures Tally(keys)[i].count > 0
  {
    if |keys| > 0 {
      var front := keys[..|keys| - 1];
      TallyExact(front);
      var at := BumpAt(Tally(front), keys[|keys| - 1]);
      if i < |Tally(front)| {
        TallyPositive(front, i);
      }
    }
  }
}
