/** Session-shaped metrics: fold the events to one record per session, then aggregate the records. */
module Engagement {
  import opened Prelude
  import opened Tables
  import opened Events
  import A = Admission

  datatype Stats = Stats(events: nat, views: nat, firstSeen: Time, lastSeen: Time, days: set<int>)

  datatype Entry = Entry(session: string, stats: Stats)

  // ---- By definition: one aggregate query per session ----------------------

  function Earliest(rows: Rows): Time {
    if |rows| == 0 then 0.0
    else if |rows| == 1 then rows[0].createdAt
    else
      var rest, t := Earliest(rows[..|rows| - 1]), rows[|rows| - 1].createdAt;
      if t < rest then t else rest
  }

  function Newest(rows: Rows): Time {
    if |rows| == 0 then 0.0
    else if |rows| == 1 then rows[0].createdAt
    else
      var rest, t := Newest(rows[..|rows| - 1]), rows[|rows| - 1].createdAt;
      if t > rest then t else rest
  }

  function Days(rows: Rows): set<int> {
    set r | r in rows :: DayOf(r.createdAt)
  }

  function StatsOf(rows: Rows): Stats {
    Stats(|rows|, |OfType(rows, PageView)|, Earliest(rows), Newest(rows), Days(rows))
  }

  function StatsFor(rows: Rows, sessions: seq<string>): seq<Entry> {
    if |sessions| == 0 then []
    else
      var s := sessions[|sessions| - 1];
      StatsFor(rows, sessions[..|sessions| - 1]) + [Entry(s, StatsOf(OfSession(rows, s)))]
  }

  /** The subquery: one record for every session in range. */
  function PerSession(rows: Rows): seq<Entry> {
    StatsFor(rows, Sessions(rows))
  }

  // ---- In one pass: an accumulator per session -----------------------------

  function Opening(row: Row<Event>): Stats {
    Stats(1, if row.body.kind == PageView then 1 else 0, row.createdAt, row.createdAt, {DayOf(row.createdAt)})
  }

  function Absorb(s: Stats, row: Row<Event>): Stats {
    var t := row.createdAt;
    Stats(
      s.events + 1,
      s.views + (if row.body.kind == PageView then 1 else 0),
      if t < s.firstSeen then t else s.firstSeen,
      if t > s.lastSeen then t else s.lastSeen,
      s.days + {DayOf(t)})
  }

  function Upsert(entries: seq<Entry>, row: Row<Event>): seq<Entry> {
    if |entries| == 0 then [Entry(row.body.session, Opening(row))]
    else if entries[0].session == row.body.session then
        [entries[0].(stats := Absorb(entries[0].stats, row))] + entries[1..]
    else [entries[0]] + Upsert(entries[1..], row)
  }

  function Fold(rows: Rows): seq<Entry> {
    if |rows| == 0 then [] else Upsert(Fold(rows[..|rows| - 1]), rows[|rows| - 1])
  }

  // ---- Both are the same ---------------------------------------------------

  lemma StatsSnoc(rows: Rows, row: Row<Event>)
    ensures StatsOf(rows + [row]) == if |rows| == 0 then Opening(row) else Absorb(StatsOf(rows), row)
  {
    assert (rows + [row])[..|rows|] == rows;
    OfTypeSnoc(rows, row, PageView);
    DaysSnoc(rows, row);
    if |rows| == 0 {
      assert OfType(rows, PageView) == [] && Days(rows) == {};
    }
  }

  lemma DaysSnoc(rows: Rows, row: Row<Event>)
    ensures Days(rows + [row]) == Days(rows) + {DayOf(row.createdAt)}
  {
  }

  lemma {:induction false} StatsForAt(rows: Rows, sessions: seq<string>)
    ensures |StatsFor(rows, sessions)| == |sessions|
    ensures forall i :: 0 <= i < |sessions| ==>
              StatsFor(rows, sessions)[i] == Entry(sessions[i], StatsOf(OfSession(rows, sessions[i])))
  {
    if |sessions| > 0 {
      StatsForAt(rows, sessions[..|sessions| - 1]);
    }
  }

  /** An upsert touches the entry of its session, or appends one. */
  lemma {:induction false} UpsertAt(entries: seq<Entry>, row: Row<Event>) returns (at: nat)
    requires forall i, j :: 0 <= i < j < |entries| ==> entries[i].session != entries[j].session
    ensures at <= |entries|
    ensures at < |entries| ==>
              && entries[at].session == row.body.session
              && Upsert(entries, row) == entries[at := Entry(row.body.session, Absorb(entries[at].stats, row))]
    ensures at == |entries| ==>
              && Upsert(entries, row) == entries + [Entry(row.body.session, Opening(row))]
              && forall i :: 0 <= i < |entries| ==> entries[i].session != row.body.session
  {
    if |entries| == 0 {
      at := 0;
    } else if entries[0].session == row.body.session {
      at := 0;
    } else {
      var rest := UpsertAt(entries[1..], row);
      at := rest + 1;
      assert forall i :: 1 <= i < |entries| ==> entries[i] == entries[1..][i - 1];
    }
  }

  /** Entry by entry: the accumulator of a session holds the aggregates over its rows. */
  ghost predicate Matches(entries: seq<Entry>, rows: Rows, sessions: seq<string>) {
    && |entries| == |sessions|
    && forall i :: 0 <= i < |sessions| ==> entries[i] == Entry(sessions[i], StatsOf(OfSession(rows, sessions[i])))
  }

  /** The aggregates of a session after one more row of any session. */
  lemma StatsAfter(rows: Rows, row: Row<Event>, x: string)
    ensures StatsOf(OfSession(rows + [row], x)) ==
            if row.body.session != x then StatsOf(OfSession(rows, x))
            else if |OfSession(rows, x)| == 0 then Opening(row)
            else Absorb(StatsOf(OfSession(rows, x)), row)
  {
    OfSessionSnoc(rows, row, x);
    StatsSnoc(OfSession(rows, x), row);
  }

  lemma SessionsSnoc(rows: Rows, row: Row<Event>)
    ensures Sessions(rows + [row]) ==
            if row.body.session in Sessions(rows) then Sessions(rows) else Sessions(rows) + [row.body.session]
  {
    assert (rows + [row])[..|rows|] == rows;
  }

  lemma UpsertMatches(entries: seq<Entry>, rows: Rows, row: Row<Event>)
    requires Matches(entries, rows, Sessions(rows))
    ensures Matches(Upsert(entries, row), rows + [row], Sessions(rows + [row]))
  {
    hide Upsert, StatsOf, OfSession, Sessions;
    SessionsOnce(rows);
    var at := UpsertAt(entries, row);
    var sessions, s := Sessions(rows), row.body.session;
    assert at < |entries| ==> sessions[at] == s;
    assert at == |entries| ==> s !in sessions by {
      assert forall i :: 0 <= i < |sessions| ==> sessions[i] == entries[i].session;
    }
    SessionsSnoc(rows, row);
    forall i | 0 <= i < |Sessions(rows + [row])|
      ensures Upsert(entries, row)[i]
           == Entry(Sessions(rows + [row])[i], StatsOf(OfSession(rows + [row], Sessions(rows + [row])[i])))
    {
      StatsAfter(rows, row, Sessions(rows + [row])[i]);
    }
  }

  lemma {:induction false} FoldMatches(rows: Rows)
    ensures Matches(Fold(rows), rows, Sessions(rows))
  {
    if |rows| > 0 {
      var front, last := rows[..|rows| - 1], rows[|rows| - 1];
      FoldMatches(front);
      UpsertMatches(Fold(front), front, last);
      assert rows == front + [last];
    }
  }

  /** The one-pass accumulators are the per-session aggregates, for every sequence of events. */
  lemma OnePassIsPerSession(rows: Rows)
    ensures Fold(rows) == PerSession(rows)
  {
    FoldMatches(rows);
    StatsForAt(rows, Sessions(rows));
  }

  // ---- The figures ---------------------------------------------------------

  function SumEvents(entries: seq<Entry>): nat {
    if |entries| == 0 then 0 else entries[0].stats.events + SumEvents(entries[1..])
  }

  function SumViews(entries: seq<Entry>): nat {
    if |entries| == 0 then 0 else entries[0].stats.views + SumViews(entries[1..])
  }

  function Bounced(entries: seq<Entry>): nat {
    if |entries| == 0 then 0
    else (if entries[0].stats.events == 1 && entries[0].stats.views == 1 then 1 else 0) + Bounced(entries[1..])
  }

  function Returning(entries: seq<Entry>): nat {
    if |entries| == 0 then 0 else (if |entries[0].stats.days| > 1 then 1 else 0) + Returning(entries[1..])
  }

  /** Sessions of more than one event, which alone have a duration. */
  function Long(entries: seq<Entry>): nat {
    if |entries| == 0 then 0 else (if entries[0].stats.events > 1 then 1 else 0) + Long(entries[1..])
  }

  function SumDuration(entries: seq<Entry>): Time {
    if |entries| == 0 then 0.0
    else
      (if entries[0].stats.events > 1 then entries[0].stats.lastSeen - entries[0].stats.firstSeen else 0.0)
      + SumDuration(entries[1..])
  }

  datatype Summary = Summary(
    bounceRate: real,
    pagesPerSession: real,
    eventsPerSession: real,
    averageDuration: Time,
    returning: nat)

  /** An average, or zero over nothing. */
  function Average(sum: real, n: nat): real {
    if n == 0 then 0.0 else sum / n as real
  }

  function Summarize(entries: seq<Entry>): Summary {
    Summary(
      Average(Bounced(entries) as real, |entries|),
      Average(SumViews(entries) as real, |entries|),
      Average(SumEvents(entries) as real, |entries|),
      Average(SumDuration(entries), Long(entries)),
      Returning(entries))
  }

  function Engagement(rows: Rows): Summary {
    Summarize(PerSession(rows))
  }

  /** An average times its count gives the total back. */
  lemma AverageTimesCount(sum: real, n: nat)
    requires n == 0 ==> sum == 0.0
    ensures Average(sum, n) * n as real == sum
  {
  }

  lemma {:induction false} UpsertSums(entries: seq<Entry>, row: Row<Event>)
    ensures SumEvents(Upsert(entries, row)) == SumEvents(entries) + 1
    ensures SumViews(Upsert(entries, row)) == SumViews(entries) + (if row.body.kind == PageView then 1 else 0)
  {
    if |entries| > 0 {
      if entries[0].session == row.body.session {
        assert Upsert(entries, row)[1..] == entries[1..];
      } else {
        UpsertSums(entries[1..], row);
        assert Upsert(entries, row)[1..] == Upsert(entries[1..], row);
      }
    }
  }

  lemma {:induction false} FoldSums(rows: Rows)
    ensures SumEvents(Fold(rows)) == |rows|
    ensures SumViews(Fold(rows)) == |OfType(rows, PageView)|
  {
    if |rows| > 0 {
      FoldSums(rows[..|rows| - 1]);
      UpsertSums(Fold(rows[..|rows| - 1]), rows[|rows| - 1]);
    }
  }

  /** What every record of a session satisfies when its events lie between two moments. */
  ghost predicate Plausible(s: Stats, since: Time, now: Time) {
    && 1 <= |s.days| <= s.events
    && since <= s.firstSeen <= s.lastSeen <= now
  }

  lemma AbsorbPlausible(s: Stats, row: Row<Event>, since: Time, now: Time)
    requires Plausible(s, since, now) && since <= row.createdAt <= now
    ensures Plausible(Absorb(s, row), since, now)
  {
    var d := DayOf(row.createdAt);
    if d in s.days {
      assert s.days + {d} == s.days;
    } else {
      assert |s.days + {d}| == |s.days| + 1;
    }
  }

  lemma {:induction false} UpsertPlausible(entries: seq<Entry>, row: Row<Event>, since: Time, now: Time)
    requires forall i :: 0 <= i < |entries| ==> Plausible(entries[i].stats, since, now)
    requires since <= row.createdAt <= now
    ensures forall i :: 0 <= i < |Upsert(entries, row)| ==> Plausible(Upsert(entries, row)[i].stats, since, now)
  {
    if |entries| > 0 {
      if entries[0].session == row.body.session {
        AbsorbPlausible(entries[0].stats, row, since, now);
      } else {
        UpsertPlausible(entries[1..], row, since, now);
      }
    }
  }

  lemma {:induction false} FoldPlausible(rows: Rows, since: Time, now: Time)
    requires forall i :: 0 <= i < |rows| ==> since <= rows[i].createdAt <= now
    ensures forall i :: 0 <= i < |Fold(rows)| ==> Plausible(Fold(rows)[i].stats, since, now)
  {
    if |rows| > 0 {
      var front := rows[..|rows| - 1];
      assert forall i :: 0 <= i < |front| ==> front[i] == rows[i];
      FoldPlausible(front, since, now);
      UpsertPlausible(Fold(front), rows[|rows| - 1], since, now);
    }
  }

  lemma {:induction false} BounceOrReturn(entries: seq<Entry>, since: Time, now: Time)
    requires forall i :: 0 <= i < |entries| ==> Plausible(entries[i].stats, since, now)
    ensures Bounced(entries) + Returning(entries) <= |entries|
  {
    if |entries| > 0 {
      assert Plausible(entries[0].stats, since, now);
      BounceOrReturn(entries[1..], since, now);
    }
  }

  lemma OneMore(sum: real, d: real, n: nat, x: real)
    requires 0.0 <= d <= x && 0.0 <= sum <= n as real * x
    ensures 0.0 <= sum + d <= (n + 1) as real * x
  {
    assert (n + 1) as real * x == n as real * x + x;
  }

  lemma {:induction false} DurationsInRange(entries: seq<Entry>, since: Time, now: Time)
    requires since <= now
    requires forall i :: 0 <= i < |entries| ==> Plausible(entries[i].stats, since, now)
    ensures 0.0 <= SumDuration(entries) <= Long(entries) as real * (now - since)
  {
    if |entries| > 0 {
      assert Plausible(entries[0].stats, since, now);
      DurationsInRange(entries[1..], since, now);
      if entries[0].stats.events > 1 {
        var first := entries[0].stats;
        OneMore(SumDuration(entries[1..]), first.lastSeen - first.firstSeen, Long(entries[1..]), now - since);
      } else {
        assert Long(entries) == Long(entries[1..]);
      }
    }
  }

  lemma Cancel(q: real, top: real, n: real)
    requires n > 0.0 && 0.0 <= q * n <= n * top
    ensures 0.0 <= q <= top
  {
    assert (top - q) * n >= 0.0;
  }

  lemma AverageInRange(sum: real, n: nat, top: real)
    requires 0.0 <= sum <= n as real * top && top >= 0.0
    ensures 0.0 <= Average(sum, n) <= top
  {
    if n > 0 {
      Cancel(Average(sum, n), top, n as real);
    }
  }

  lemma DurationAverage(entries: seq<Entry>, since: Time, now: Time)
    requires since <= now
    requires forall i :: 0 <= i < |entries| ==> Plausible(entries[i].stats, since, now)
    ensures 0.0 <= Summarize(entries).averageDuration <= now - since
  {
    DurationsInRange(entries, since, now);
    AverageInRange(SumDuration(entries), Long(entries), now - since);
  }

  /** One record per session, and between them every event in range, each once. */
  lemma RecordsCoverEvents(rows: Rows)
    ensures |PerSession(rows)| == |Sessions(rows)|
    ensures SumEvents(PerSession(rows)) == |rows|
    ensures SumViews(PerSession(rows)) == |OfType(rows, PageView)|
  {
    OnePassIsPerSession(rows);
    FoldMatches(rows);
    FoldSums(rows);
  }

  lemma RecordsPlausible(rows: Rows, since: Time, now: Time)
    requires forall i :: 0 <= i < |rows| ==> since <= rows[i].createdAt <= now
    ensures forall i :: 0 <= i < |PerSession(rows)| ==> Plausible(PerSession(rows)[i].stats, since, now)
  {
    OnePassIsPerSession(rows);
    FoldPlausible(rows, since, now);
  }

  /** The averages per visit divide the totals over all events, none lost and none counted twice. */
  lemma AveragesConserve(rows: Rows)
    ensures Engagement(rows).eventsPerSession == Average(|rows| as real, |Sessions(rows)|)
    ensures Engagement(rows).pagesPerSession == Average(|OfType(rows, PageView)| as real, |Sessions(rows)|)
  {
    RecordsCoverEvents(rows);
  }

  /** No session both bounces and returns, and an average visit is no longer than the range. */
  lemma FiguresInRange(rows: Rows, since: Time, now: Time)
    requires since <= now
    requires forall i :: 0 <= i < |rows| ==> since <= rows[i].createdAt <= now
    ensures Bounced(PerSession(rows)) + Engagement(rows).returning <= |Sessions(rows)|
    ensures Engagement(rows).bounceRate == Average(Bounced(PerSession(rows)) as real, |Sessions(rows)|)
    ensures 0.0 <= Engagement(rows).averageDuration <= now - since
  {
    RecordsCoverEvents(rows);
    RecordsPlausible(rows, since, now);
    BounceOrReturn(PerSession(rows), since, now);
    DurationAverage(PerSession(rows), since, now);
  }

  // ---- The figures, session by session -------------------------------------

  /** From the earliest to the newest event of a visit. */
  ghost predicate IsSpan(visit: Rows, span: Time) {
    exists i, j :: 0 <= i < |visit| && 0 <= j < |visit| && Bounds(visit, i, j)
                && span == visit[j].createdAt - visit[i].createdAt
  }

  ghost predicate Bounds(visit: Rows, i: int, j: int)
    requires 0 <= i < |visit| && 0 <= j < |visit|
  {
    forall k :: 0 <= k < |visit| ==> visit[i].createdAt <= visit[k].createdAt <= visit[j].createdAt
  }

  /** A visit of a single event, a page view. */
  predicate Bounces(visit: Rows) {
    |visit| == 1 && visit[0].body.kind == PageView
  }

  ghost predicate OnTwoDays(visit: Rows) {
    exists i, j :: 0 <= i < |visit| && 0 <= j < |visit| && DayOf(visit[i].createdAt) != DayOf(visit[j].createdAt)
  }

  ghost predicate Once(sessions: seq<string>) {
    forall i, j :: 0 <= i < j < |sessions| ==> sessions[i] != sessions[j]
  }

  function Sum(spans: seq<Time>): Time {
    if |spans| == 0 then 0.0 else spans[0] + Sum(spans[1..])
  }

  lemma {:induction false} EarliestAt(rows: Rows) returns (i: nat)
    requires |rows| > 0
    ensures i < |rows| && Earliest(rows) == rows[i].createdAt
    ensures forall k :: 0 <= k < |rows| ==> Earliest(rows) <= rows[k].createdAt
  {
    if |rows| == 1 {
      i := 0;
    } else {
      var front := rows[..|rows| - 1];
      i := EarliestAt(front);
      assert forall k :: 0 <= k < |front| ==> front[k] == rows[k];
      if rows[|rows| - 1].createdAt < Earliest(front) {
        i := |rows| - 1;
      }
    }
  }

  lemma {:induction false} NewestAt(rows: Rows) returns (j: nat)
    requires |rows| > 0
    ensures j < |rows| && Newest(rows) == rows[j].createdAt
    ensures forall k :: 0 <= k < |rows| ==> rows[k].createdAt <= Newest(rows)
  {
    if |rows| == 1 {
      j := 0;
    } else {
      var front := rows[..|rows| - 1];
      j := NewestAt(front);
      assert forall k :: 0 <= k < |front| ==> front[k] == rows[k];
      if rows[|rows| - 1].createdAt > Newest(front) {
        j := |rows| - 1;
      }
    }
  }

  lemma StatsAreSpan(visit: Rows)
    requires StatsOf(visit).events > 0
    ensures IsSpan(visit, StatsOf(visit).lastSeen - StatsOf(visit).firstSeen)
  {
    var i := EarliestAt(visit);
    var j := NewestAt(visit);
    assert Bounds(visit, i, j);
  }

  lemma StatsAreBounce(visit: Rows)
    ensures StatsOf(visit).events == 1 && StatsOf(visit).views == 1 <==> Bounces(visit)
  {
    if |visit| == 1 {
      OfTypeSnoc([], visit[0], PageView);
      assert [] + [visit[0]] == visit;
    }
  }

  lemma StatsAreDays(visit: Rows)
    ensures |StatsOf(visit).days| > 1 <==> OnTwoDays(visit)
  {
    var days := Days(visit);
    if i, j :| 0 <= i < |visit| && 0 <= j < |visit| && DayOf(visit[i].createdAt) != DayOf(visit[j].createdAt) {
      var a, b := DayOf(visit[i].createdAt), DayOf(visit[j].createdAt);
      assert visit[i] in visit && visit[j] in visit;
      A.SubsetSize({a, b}, days);
    }
    if |days| > 1 {
      var a :| a in days;
      A.SubsetSize(days - {a}, days);
      assert |days - {a}| > 0;
      var b :| b in days - {a};
      var r :| r in visit && DayOf(r.createdAt) == a;
      var q :| q in visit && DayOf(q.createdAt) == b;
      var i :| 0 <= i < |visit| && visit[i] == r;
      var j :| 0 <= j < |visit| && visit[j] == q;
      assert DayOf(visit[i].createdAt) != DayOf(visit[j].createdAt);
    }
  }

  /** The sessions whose records have a property. */
  function Chosen(entries: seq<Entry>, p: Stats -> bool): set<string> {
    if |entries| == 0 then {}
    else (if p(entries[0].stats) then {entries[0].session} else {}) + Chosen(entries[1..], p)
  }

  ghost predicate EntriesOnce(entries: seq<Entry>) {
    forall i, j :: 0 <= i < j < |entries| ==> entries[i].session != entries[j].session
  }

  lemma {:induction false} ChosenAre(entries: seq<Entry>, p: Stats -> bool, s: string)
    ensures s in Chosen(entries, p)
       <==> exists i :: 0 <= i < |entries| && entries[i].session == s && p(entries[i].stats)
  {
    if |entries| > 0 {
      var rest := entries[1..];
      ChosenAre(rest, p, s);
      if i :| 0 <= i < |rest| && rest[i].session == s && p(rest[i].stats) {
        assert entries[i + 1] == rest[i];
      }
      assert forall i :: 1 <= i < |entries| ==> entries[i] == rest[i - 1];
    }
  }

  lemma ChosenNew(entries: seq<Entry>, p: Stats -> bool)
    requires |entries| > 0 && EntriesOnce(entries)
    ensures entries[0].session !in Chosen(entries[1..], p)
    ensures |Chosen(entries, p)| == |Chosen(entries[1..], p)| + if p(entries[0].stats) then 1 else 0
  {
    ChosenAre(entries[1..], p, entries[0].session);
  }

  lemma {:induction false} BouncedIsChosen(entries: seq<Entry>, p: Stats -> bool)
    requires EntriesOnce(entries) && forall s :: p(s) <==> s.events == 1 && s.views == 1
    ensures Bounced(entries) == |Chosen(entries, p)|
  {
    if |entries| > 0 {
      ChosenNew(entries, p);
      BouncedIsChosen(entries[1..], p);
    }
  }

  lemma {:induction false} ReturningIsChosen(entries: seq<Entry>, p: Stats -> bool)
    requires EntriesOnce(entries) && forall s :: p(s) <==> |s.days| > 1
    ensures Returning(entries) == |Chosen(entries, p)|
  {
    if |entries| > 0 {
      ChosenNew(entries, p);
      ReturningIsChosen(entries[1..], p);
    }
  }

  lemma RecordsOnce(rows: Rows)
    ensures EntriesOnce(PerSession(rows)) && |PerSession(rows)| == |Sessions(rows)|
    ensures forall i :: 0 <= i < |Sessions(rows)| ==>
              PerSession(rows)[i] == Entry(Sessions(rows)[i], StatsOf(OfSession(rows, Sessions(rows)[i])))
  {
    SessionsOnce(rows);
    StatsForAt(rows, Sessions(rows));
  }

  lemma ChosenSessions(rows: Rows, p: Stats -> bool, s: string)
    ensures s in Chosen(PerSession(rows), p) <==> s in Sessions(rows) && p(StatsOf(OfSession(rows, s)))
  {
    RecordsOnce(rows);
    ChosenAre(PerSession(rows), p, s);
    if s in Sessions(rows) {
      var i :| 0 <= i < |Sessions(rows)| && Sessions(rows)[i] == s;
      assert PerSession(rows)[i].session == s;
    }
  }

  function BouncedSessions(rows: Rows): set<string> {
    set s | s in Sessions(rows) && Bounces(OfSession(rows, s))
  }

  ghost function ReturningSessions(rows: Rows): set<string> {
    set s | s in Sessions(rows) && OnTwoDays(OfSession(rows, s))
  }

  lemma BouncesAreCounted(rows: Rows)
    ensures Bounced(PerSession(rows)) == |BouncedSessions(rows)|
  {
    hide PerSession, OfSession, Chosen, Bounced, StatsOf;
    var p := (s: Stats) => s.events == 1 && s.views == 1;
    RecordsOnce(rows);
    BouncedIsChosen(PerSession(rows), p);
    forall s
      ensures s in Chosen(PerSession(rows), p) <==> s in BouncedSessions(rows)
    {
      ChosenSessions(rows, p, s);
      StatsAreBounce(OfSession(rows, s));
    }
    assert Chosen(PerSession(rows), p) == BouncedSessions(rows);
  }

  lemma ReturnsAreCounted(rows: Rows)
    ensures Returning(PerSession(rows)) == |ReturningSessions(rows)|
  {
    hide PerSession, OfSession, Chosen, Returning, StatsOf, OnTwoDays;
    var p := (s: Stats) => |s.days| > 1;
    RecordsOnce(rows);
    ReturningIsChosen(PerSession(rows), p);
    forall s
      ensures s in Chosen(PerSession(rows), p) <==> s in ReturningSessions(rows)
    {
      ChosenSessions(rows, p, s);
      StatsAreDays(OfSession(rows, s));
    }
    assert Chosen(PerSession(rows), p) == ReturningSessions(rows);
  }

  /** The share of sessions that bounced, those on more than one day, and the two averages, over all sessions. */
  lemma FiguresAreExact(rows: Rows)
    ensures var n, e := |Sessions(rows)|, Engagement(rows);
            && e.returning == |ReturningSessions(rows)|
            && e.bounceRate == (if n == 0 then 0.0 else |BouncedSessions(rows)| as real / n as real)
            && e.pagesPerSession == (if n == 0 then 0.0 else |OfType(rows, PageView)| as real / n as real)
            && e.eventsPerSession == (if n == 0 then 0.0 else |rows| as real / n as real)
  {
    RecordsOnce(rows);
    RecordsCoverEvents(rows);
    BouncesAreCounted(rows);
    ReturnsAreCounted(rows);
  }

  /** The sessions of more than one event with their spans, and how they make up sum and number. */
  lemma {:induction false} LongOnes(entries: seq<Entry>, rows: Rows) returns (long: seq<string>, spans: seq<Time>)
    requires EntriesOnce(entries)
    requires forall i :: 0 <= i < |entries| ==> entries[i].stats == StatsOf(OfSession(rows, entries[i].session))
    ensures Once(long) && |spans| == |long| == Long(entries) && SumDuration(entries) == Sum(spans)
    ensures forall s :: s in long
              <==> exists i :: 0 <= i < |entries| && entries[i].session == s && entries[i].stats.events > 1
    ensures forall i :: 0 <= i < |long| ==> IsSpan(OfSession(rows, long[i]), spans[i])
  {
    hide StatsOf, OfSession, IsSpan;
    if |entries| == 0 {
      return [], [];
    }
    var first, rest := entries[0], entries[1..];
    long, spans := LongOnes(rest, rows);
    ghost var before := long;
    assert forall i :: 1 <= i < |entries| ==> entries[i] == rest[i - 1];
    if first.stats.events > 1 {
      StatsAreSpan(OfSession(rows, first.session));
      assert first.session !in long;
      long, spans := [first.session] + long, [first.stats.lastSeen - first.stats.firstSeen] + spans;
      assert long[1..] == before;
    }
  }

  /**
   The average duration is the mean, over the sessions of more than one event, of
   the time from the earliest to the newest of its events, and zero without any.
   */
  lemma DurationIsExact(rows: Rows) returns (long: seq<string>, spans: seq<Time>)
    ensures Once(long) && forall s :: s in long <==> s in Sessions(rows) && |OfSession(rows, s)| > 1
    ensures |spans| == |long| && forall i :: 0 <= i < |long| ==> IsSpan(OfSession(rows, long[i]), spans[i])
    ensures Engagement(rows).averageDuration == if |spans| == 0 then 0.0 else Sum(spans) / |spans| as real
  {
    RecordsOnce(rows);
    long, spans := LongOnes(PerSession(rows), rows);
    forall s
      ensures s in long <==> s in Sessions(rows) && |OfSession(rows, s)| > 1
    {
      if s in Sessions(rows) {
        var i :| 0 <= i < |Sessions(rows)| && Sessions(rows)[i] == s;
        assert PerSession(rows)[i].session == s;
      }
    }
  }
}
