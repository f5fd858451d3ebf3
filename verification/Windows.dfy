/**
 Counting time stamps in windows. The in-memory limiter compares stamps with a
 strict `>`, the database queries with `>=`; `Edge` says which.
 */
module Windows {
  import opened Prelude

  datatype Edge = Open | Closed

  predicate NotBefore(stamp: Time, cutoff: Time, edge: Edge) {
    if edge.Closed? then stamp >= cutoff else stamp > cutoff
  }

  /** How many stamps lie after the cutoff. */
  function CountAfter(stamps: seq<Time>, cutoff: Time, edge: Edge): nat {
    if |stamps| == 0 then 0
    else
      CountAfter(stamps[..|stamps| - 1], cutoff, edge)
      + (if NotBefore(stamps[|stamps| - 1], cutoff, edge) then 1 else 0)
  }

  /** How many stamps lie after `lo` and no later than `hi`. */
  function CountIn(stamps: seq<Time>, lo: Time, hi: Time, edge: Edge): nat {
    if |stamps| == 0 then 0
    else
      CountIn(stamps[..|stamps| - 1], lo, hi, edge)
      + (if NotBefore(stamps[|stamps| - 1], lo, edge) && stamps[|stamps| - 1] <= hi then 1 else 0)
  }

  lemma CountAfterSnoc(stamps: seq<Time>, stamp: Time, cutoff: Time, edge: Edge)
    ensures CountAfter(stamps + [stamp], cutoff, edge)
         == CountAfter(stamps, cutoff, edge) + (if NotBefore(stamp, cutoff, edge) then 1 else 0)
  {
    assert (stamps + [stamp])[..|stamps|] == stamps;
  }

  lemma CountInSnoc(stamps: seq<Time>, stamp: Time, lo: Time, hi: Time, edge: Edge)
    ensures CountIn(stamps + [stamp], lo, hi, edge)
         == CountIn(stamps, lo, hi, edge) + (if NotBefore(stamp, lo, edge) && stamp <= hi then 1 else 0)
  {
    assert (stamps + [stamp])[..|stamps|] == stamps;
  }

  lemma {:induction false} CountAfterConcat(a: seq<Time>, b: seq<Time>, cutoff: Time, edge: Edge)
    ensures CountAfter(a + b, cutoff, edge) == CountAfter(a, cutoff, edge) + CountAfter(b, cutoff, edge)
  {
    if |b| == 0 {
      assert a + b == a;
    } else {
      var front, last := b[..|b| - 1], b[|b| - 1];
      assert a + b == (a + front) + [last] && b == front + [last];
      CountAfterConcat(a, front, cutoff, edge);
      CountAfterSnoc(a + front, last, cutoff, edge);
    }
  }

  /** A window that starts no earlier than a cutoff holds no more than what lies after the cutoff. */
  lemma {:induction false} CountInAtMostAfter(stamps: seq<Time>, lo: Time, hi: Time, cutoff: Time, edge: Edge)
    requires cutoff <= lo
    ensures CountIn(stamps, lo, hi, edge) <= CountAfter(stamps, cutoff, edge)
  {
    if |stamps| > 0 {
      CountInAtMostAfter(stamps[..|stamps| - 1], lo, hi, cutoff, edge);
    }
  }

  /** The two counts agree once nothing is stamped after `hi`. */
  lemma {:induction false} CountInIsAfter(stamps: seq<Time>, lo: Time, hi: Time, edge: Edge)
    requires forall i :: 0 <= i < |stamps| ==> stamps[i] <= hi
    ensures CountIn(stamps, lo, hi, edge) == CountAfter(stamps, lo, edge)
  {
    if |stamps| > 0 {
      CountInIsAfter(stamps[..|stamps| - 1], lo, hi, edge);
    }
  }

  lemma {:induction false} CountAfterMonotone(stamps: seq<Time>, early: Time, late: Time, edge: Edge)
    requires early <= late
    ensures CountAfter(stamps, late, edge) <= CountAfter(stamps, early, edge)
  {
    if |stamps| > 0 {
      CountAfterMonotone(stamps[..|stamps| - 1], early, late, edge);
    }
  }

  lemma {:induction false} CountAfterNone(stamps: seq<Time>, cutoff: Time, edge: Edge)
    ensures CountAfter(stamps, cutoff, edge) == 0 <==> forall i :: 0 <= i < |stamps| ==>
              !NotBefore(stamps[i], cutoff, edge)
  {
    if |stamps| > 0 {
      CountAfterNone(stamps[..|stamps| - 1], cutoff, edge);
      assert forall i :: 0 <= i < |stamps| - 1 ==> stamps[..|stamps| - 1][i] == stamps[i];
    }
  }

  lemma {:induction false} CountInEmpty(stamps: seq<Time>, lo: Time, hi: Time, edge: Edge)
    requires hi < lo
    ensures CountIn(stamps, lo, hi, edge) == 0
  {
    if |stamps| > 0 {
      CountInEmpty(stamps[..|stamps| - 1], lo, hi, edge);
    }
  }

  /** A stretch is covered by any cut of it into two. */
  lemma {:induction false} CountInSplit(stamps: seq<Time>, lo: Time, mid: Time, hi: Time, edge: Edge)
    ensures CountIn(stamps, lo, hi, edge) <= CountIn(stamps, lo, mid, edge) + CountIn(stamps, mid, hi, edge)
  {
    if |stamps| > 0 {
      CountInSplit(stamps[..|stamps| - 1], lo, mid, hi, edge);
    }
  }

  /** Two positions inside one closed window count as two. */
  lemma {:induction false} CountInPair(stamps: seq<Time>, i: nat, j: nat, lo: Time, hi: Time)
    requires i < j < |stamps|
    requires lo <= stamps[i] <= hi && lo <= stamps[j] <= hi
    ensures CountIn(stamps, lo, hi, Closed) >= 2
  {
    var front := stamps[..|stamps| - 1];
    if j < |front| {
      CountInPair(front, i, j, lo, hi);
    } else {
      CountInOne(front, i, lo, hi);
    }
  }

  lemma {:induction false} CountInOne(stamps: seq<Time>, i: nat, lo: Time, hi: Time)
    requires i < |stamps| && lo <= stamps[i] <= hi
    ensures CountIn(stamps, lo, hi, Closed) >= 1
  {
    if i < |stamps| - 1 {
      CountInOne(stamps[..|stamps| - 1], i, lo, hi);
    }
  }

  function Repeat(n: nat, t: Time): seq<Time> {
    if n == 0 then [] else Repeat(n - 1, t) + [t]
  }

  lemma {:induction false} RepeatAt(n: nat, t: Time)
    ensures |Repeat(n, t)| == n && forall i :: 0 <= i < n ==> Repeat(n, t)[i] == t
  {
    if n > 0 {
      RepeatAt(n - 1, t);
    }
  }

  /** A window that holds every stamp counts every stamp. */
  lemma {:induction false} CountInAll(stamps: seq<Time>, lo: Time, hi: Time, edge: Edge)
    requires forall i :: 0 <= i < |stamps| ==> NotBefore(stamps[i], lo, edge) && stamps[i] <= hi
    ensures CountIn(stamps, lo, hi, edge) == |stamps|
  {
    if |stamps| > 0 {
      CountInAll(stamps[..|stamps| - 1], lo, hi, edge);
    }
  }

  lemma {:induction false} CountAfterAtMostAll(stamps: seq<Time>, cutoff: Time, edge: Edge)
    ensures CountAfter(stamps, cutoff, edge) <= |stamps|
  {
    if |stamps| > 0 {
      CountAfterAtMostAll(stamps[..|stamps| - 1], cutoff, edge);
    }
  }

  lemma {:induction false} CountAfterAll(stamps: seq<Time>, cutoff: Time, edge: Edge)
    requires forall i :: 0 <= i < |stamps| ==> NotBefore(stamps[i], cutoff, edge)
    ensures CountAfter(stamps, cutoff, edge) == |stamps|
  {
    if |stamps| > 0 {
      CountAfterAll(stamps[..|stamps| - 1], cutoff, edge);
    }
  }

  // ---- What is counted -----------------------------------------------------

  /** The positions of the stamps after the cutoff, the cutoff itself included or not. */
  function Past(stamps: seq<Time>, cutoff: Time, edge: Edge): set<int> {
    set i | 0 <= i < |stamps| && (cutoff < stamps[i] || (edge.Closed? && cutoff == stamps[i]))
  }

  lemma PastSnoc(stamps: seq<Time>, stamp: Time, cutoff: Time, edge: Edge)
    ensures |Past(stamps + [stamp], cutoff, edge)|
         == |Past(stamps, cutoff, edge)| + if cutoff < stamp || (edge.Closed? && cutoff == stamp) then 1 else 0
  {
    var n, before := |stamps|, Past(stamps, cutoff, edge);
    assert Past(stamps + [stamp], cutoff, edge) ==
           if n in Past(stamps + [stamp], cutoff, edge) then before + {n} else before;
  }

  lemma {:induction false} CountAfterIsSize(stamps: seq<Time>, cutoff: Time, edge: Edge)
    ensures CountAfter(stamps, cutoff, edge) == |Past(stamps, cutoff, edge)|
  {
    if |stamps| > 0 {
      var front, last := stamps[..|stamps| - 1], stamps[|stamps| - 1];
      CountAfterIsSize(front, cutoff, edge);
      PastSnoc(front, last, cutoff, edge);
      assert stamps == front + [last];
    }
  }

  /** The positions of the stamps in a window, which is closed on the right and on the left open or closed. */
  function Inside(stamps: seq<Time>, lo: Time, hi: Time, edge: Edge): set<int> {
    set i | 0 <= i < |stamps| && (lo < stamps[i] || (edge.Closed? && lo == stamps[i])) && stamps[i] <= hi
  }

  lemma InsideSnoc(stamps: seq<Time>, stamp: Time, lo: Time, hi: Time, edge: Edge)
    ensures |Inside(stamps + [stamp], lo, hi, edge)| == |Inside(stamps, lo, hi, edge)| +
            if (lo < stamp || (edge.Closed? && lo == stamp)) && stamp <= hi then 1 else 0
  {
    var n, before := |stamps|, Inside(stamps, lo, hi, edge);
    assert Inside(stamps + [stamp], lo, hi, edge) ==
           if n in Inside(stamps + [stamp], lo, hi, edge) then before + {n} else before;
  }

  lemma {:induction false} CountInIsSize(stamps: seq<Time>, lo: Time, hi: Time, edge: Edge)
    ensures CountIn(stamps, lo, hi, edge) == |Inside(stamps, lo, hi, edge)|
  {
    if |stamps| > 0 {
      var front, last := stamps[..|stamps| - 1], stamps[|stamps| - 1];
      CountInIsSize(front, lo, hi, edge);
      InsideSnoc(front, last, lo, hi, edge);
      assert stamps == front + [last];
    }
  }
}
