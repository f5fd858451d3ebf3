/** Rows with a creation time, and the part of a table that a query or a purge keeps. */
module Tables {
  import opened Prelude

  datatype Row<T> = Row(createdAt: Time, body: T)

  /** The rows created at the cutoff or later, in table order. A purge at the cutoff leaves the same rows. */
  function Since<T>(rows: seq<Row<T>>, cutoff: Time): seq<Row<T>> {
    if |rows| == 0 then []
    else
      var front, last := Since(rows[..|rows| - 1], cutoff), rows[|rows| - 1];
      if last.createdAt >= cutoff then front + [last] else front
  }

  lemma SinceSnoc<T>(rows: seq<Row<T>>, row: Row<T>, cutoff: Time)
    ensures Since(rows + [row], cutoff) == Since(rows, cutoff) + (if row.createdAt >= cutoff then [row] else [])
  {
    assert (rows + [row])[..|rows|] == rows;
  }

  /** A later cutoff makes an earlier one redundant. */
  lemma {:induction false} SinceTwice<T>(rows: seq<Row<T>>, early: Time, late: Time)
    requires early <= late
    ensures Since(Since(rows, early), late) == Since(rows, late)
  {
    if |rows| > 0 {
      var front, last := rows[..|rows| - 1], rows[|rows| - 1];
      SinceTwice(front, early, late);
      if last.createdAt >= early {
        SinceSnoc(Since(front, early), last, late);
      }
    }
  }

  /** Two tables that agree from a time on agree from every later time on. */
  lemma AgreeLater<T>(a: seq<Row<T>>, b: seq<Row<T>>, early: Time, late: Time)
    requires Since(a, early) == Since(b, early) && early <= late
    ensures Since(a, late) == Since(b, late)
  {
    SinceTwice(a, early, late);
    SinceTwice(b, early, late);
  }

  /** A purge leaves every query alone that looks back no further than the purge did. */
  lemma PurgeUnseen<T>(rows: seq<Row<T>>, purgedAt: Time, cutoff: Time)
    requires purgedAt <= cutoff
    ensures Since(Since(rows, purgedAt), cutoff) == Since(rows, cutoff)
  {
    SinceTwice(rows, purgedAt, cutoff);
  }

  lemma {:induction false} SinceAtLeast<T>(rows: seq<Row<T>>, cutoff: Time, i: nat)
    requires i < |Since(rows, cutoff)|
    ensures Since(rows, cutoff)[i].createdAt >= cutoff
  {
    var front := rows[..|rows| - 1];
    if i < |Since(front, cutoff)| {
      SinceAtLeast(front, cutoff, i);
    }
  }

  lemma {:induction false} SinceKeeps<T>(rows: seq<Row<T>>, cutoff: Time)
    ensures forall r :: r in Since(rows, cutoff) <==> r in rows && r.createdAt >= cutoff
  {
    if |rows| > 0 {
      var front, last := rows[..|rows| - 1], rows[|rows| - 1];
      SinceKeeps(front, cutoff);
      assert rows == front + [last];
    }
  }

  /** What a purge keeps and what it removes are the whole table, row for row. */
  function Before<T>(rows: seq<Row<T>>, cutoff: Time): seq<Row<T>> {
    if |rows| == 0 then []
    else
      var front, last := Before(rows[..|rows| - 1], cutoff), rows[|rows| - 1];
      if last.createdAt < cutoff then front + [last] else front
  }

  lemma {:induction false} PurgePartitions<T>(rows: seq<Row<T>>, cutoff: Time)
    ensures |Since(rows, cutoff)| + |Before(rows, cutoff)| == |rows|
    ensures multiset(Since(rows, cutoff)) + multiset(Before(rows, cutoff)) == multiset(rows)
  {
    if |rows| > 0 {
      var front, last := rows[..|rows| - 1], rows[|rows| - 1];
      PurgePartitions(front, cutoff);
      assert multiset(rows) == multiset(front) + multiset{last} by {
        assert rows == front + [last];
      }
    }
  }

  lemma {:induction false} SinceConcat<T>(a: seq<Row<T>>, b: seq<Row<T>>, cutoff: Time)
    ensures Since(a + b, cutoff) == Since(a, cutoff) + Since(b, cutoff)
  {
    if |b| == 0 {
      assert a + b == a;
    } else {
      var front, last := b[..|b| - 1], b[|b| - 1];
      assert a + b == (a + front) + [last];
      SinceConcat(a, front, cutoff);
      SinceSnoc(a + front, last, cutoff);
    }
  }

  /** A query after a purge lacks as many rows as were purged from its range; with none, it lacks nothing. */
  lemma {:induction false} PurgeSplits<T>(rows: seq<Row<T>>, purgedAt: Time, cutoff: Time)
    ensures |Since(Since(rows, purgedAt), cutoff)| + |Since(Before(rows, purgedAt), cutoff)| == |Since(rows, cutoff)|
    ensures Since(Before(rows, purgedAt), cutoff) == [] ==> Since(Since(rows, purgedAt), cutoff) == Since(rows, cutoff)
  {
    if |rows| > 0 {
      var front, last := rows[..|rows| - 1], rows[|rows| - 1];
      PurgeSplits(front, purgedAt, cutoff);
      SinceSnoc(Since(front, purgedAt), last, cutoff);
      SinceSnoc(Before(front, purgedAt), last, cutoff);
    }
  }

  lemma {:induction false} PurgedAreOld<T>(rows: seq<Row<T>>, purgedAt: Time)
    ensures Since(Before(rows, purgedAt), purgedAt) == []
  {
    if |rows| > 0 {
      var front, last := rows[..|rows| - 1], rows[|rows| - 1];
      PurgedAreOld(front, purgedAt);
      SinceSnoc(Before(front, purgedAt), last, purgedAt);
    }
  }

  lemma NoneLater<T>(rows: seq<Row<T>>, early: Time, late: Time)
    requires Since(rows, early) == [] && early <= late
    ensures Since(rows, late) == []
  {
    SinceTwice(rows, early, late);
  }

  /** Row for row: a query or a purge keeps exactly what was created at the cutoff or later. */
  lemma {:induction false} SinceIsExact<T>(rows: seq<Row<T>>, cutoff: Time, r: Row<T>)
    ensures multiset(Since(rows, cutoff))[r] == if r.createdAt >= cutoff then multiset(rows)[r] else 0
    ensures multiset(Before(rows, cutoff))[r] == if r.createdAt < cutoff then multiset(rows)[r] else 0
  {
    if |rows| > 0 {
      var front, last := rows[..|rows| - 1], rows[|rows| - 1];
      SinceIsExact(front, cutoff, r);
      assert rows == front + [last];
    }
  }
}
