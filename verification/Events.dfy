/** The analytics table. */
module Events {
  import opened Prelude
  import opened Tables

  datatype EventType =
    | PageView
    | ProjectView
    | ProjectLinkClick
    | GithubClick
    | CvDownload
    | ContactClick
    | LanguageChange

  const ALL_TYPES: seq<EventType> :=
    [PageView, ProjectView, ProjectLinkClick, GithubClick, CvDownload, ContactClick, LanguageChange]

  datatype Locale = En | Es

  /** A stored event; an empty `metadata` is the column's NULL, an absent `device` predates its column. */
  datatype Event = Event(
    kind: EventType,
    session: string,
    slug: Option<string>,
    locale: Option<Locale>,
    metadata: map<string, string>,
    ipHash: Option<string>,
    device: Option<string>,
    referrer: Option<string>)

  type Rows = seq<Row<Event>>

  const ANALYTICS_RETENTION: Time := 90.0 * DAY

  /** `metadata->>'path'`, which is NULL when there is no path. */
  function PathOf(e: Event): Option<string> {
    if "path" in e.metadata then Some(e.metadata["path"]) else None
  }

  /** The UTC day of a moment, counted from the epoch. */
  function DayOf(t: Time): int {
    (t / DAY).Floor
  }

  function HourOf(t: Time): int {
    (t / HOUR).Floor % 24
  }

  function OfType(rows: Rows, kind: EventType): Rows {
    if |rows| == 0 then []
    else
      var front, last := OfType(rows[..|rows| - 1], kind), rows[|rows| - 1];
      if last.body.kind == kind then front + [last] else front
  }

  function OfSession(rows: Rows, session: string): Rows {
    if |rows| == 0 then []
    else
      var front, last := OfSession(rows[..|rows| - 1], session), rows[|rows| - 1];
      if last.body.session == session then front + [last] else front
  }

  /** Sessions of the rows, each once, in order of first appearance. */
  function Sessions(rows: Rows): seq<string> {
    if |rows| == 0 then []
    else
      var front, s := Sessions(rows[..|rows| - 1]), rows[|rows| - 1].body.session;
      if s in front then front else front + [s]
  }

  lemma OfSessionSnoc(rows: Rows, row: Row<Event>, session: string)
    ensures OfSession(rows + [row], session) ==
            if row.body.session == session then OfSession(rows, session) + [row] else OfSession(rows, session)
  {
    assert (rows + [row])[..|rows|] == rows;
  }

  lemma OfTypeSnoc(rows: Rows, row: Row<Event>, kind: EventType)
    ensures OfType(rows + [row], kind) ==
            if row.body.kind == kind then OfType(rows, kind) + [row] else OfType(rows, kind)
  {
    assert (rows + [row])[..|rows|] == rows;
  }

  /** The list of sessions has no duplicates, and exactly the sessions that have a row. */
  lemma {:induction false} SessionsOnce(rows: Rows)
    ensures forall i, j :: 0 <= i < j < |Sessions(rows)| ==> Sessions(rows)[i] != Sessions(rows)[j]
    ensures forall s :: s in Sessions(rows) <==> |OfSession(rows, s)| > 0
  {
    if |rows| > 0 {
      SessionsOnce(rows[..|rows| - 1]);
    }
  }

  // ---- What a selection holds ----------------------------------------------

  /** Row for row: the events of a type. */
  lemma {:induction false} OfTypeIsExact(rows: Rows, kind: EventType, r: Row<Event>)
    ensures multiset(OfType(rows, kind))[r] == if r.body.kind == kind then multiset(rows)[r] else 0
  {
    if |rows| > 0 {
      var front, last := rows[..|rows| - 1], rows[|rows| - 1];
      OfTypeIsExact(front, kind, r);
      assert rows == front + [last];
    }
  }

  /** Row for row: the events of a session. */
  lemma {:induction false} OfSessionIsExact(rows: Rows, session: string, r: Row<Event>)
    ensures multiset(OfSession(rows, session))[r] == if r.body.session == session then multiset(rows)[r] else 0
  {
    if |rows| > 0 {
      var front, last := rows[..|rows| - 1], rows[|rows| - 1];
      OfSessionIsExact(front, session, r);
      assert rows == front + [last];
    }
  }

  /** A moment lies in its day and in its hour of that day. */
  lemma DayAndHour(t: Time)
    ensures DayOf(t) as Time * 86400.0 <= t < (DayOf(t) + 1) as Time * 86400.0
    ensures 0 <= HourOf(t) < 24
    ensures var h := (24 * DayOf(t) + HourOf(t)) as Time; h * 3600.0 <= t < (h + 1.0) * 3600.0
  {
    var hours, days := (t / HOUR).Floor, (t / DAY).Floor;
    assert hours as Time <= t / HOUR < (hours + 1) as Time;
    assert days as Time <= t / DAY < (days + 1) as Time;
    assert t / HOUR == 24.0 * (t / DAY);
    assert 24 * days <= hours < 24 * (days + 1);
    assert hours % 24 == hours - 24 * days;
  }
}
