/**
 The admin dashboard: every section but the list of recent events is computed
 from the rows of one time range. The calendar of the database (`date_trunc` at
 the chosen granularity) and the titles of the projects are parameters.
 */
module Dashboard {
  import opened Prelude
  import opened Tables
  import opened Events
  import opened Groups
  import E = Engagement

  const TOP_PAGES_LIMIT: nat := 10
  const TOP_PROJECTS_LIMIT: nat := 10
  const TOP_REFERRERS_LIMIT: nat := 10
  const RECENT_EVENTS_LIMIT: nat := 15
  const DIRECT_REFERRER := "direct"

  const HOURS: seq<int> := [0, 1, 2, 3, 4, 5, 6, 7, 8, 9, 10, 11, 12, 13, 14, 15, 16, 17, 18, 19, 20, 21, 22, 23]

  // ---- Columns -------------------------------------------------------------

  function Kinds(rows: Rows): seq<EventType> {
    seq(|rows|, i requires 0 <= i < |rows| => rows[i].body.kind)
  }

  function Hours(rows: Rows): seq<int> {
    seq(|rows|, i requires 0 <= i < |rows| => HourOf(rows[i].createdAt))
  }

  function Buckets(rows: Rows, bucket: Time -> int): seq<int> {
    seq(|rows|, i requires 0 <= i < |rows| => bucket(rows[i].createdAt))
  }

  function Paths(rows: Rows): seq<string> {
    if |rows| == 0 then []
    else
      match PathOf(rows[|rows| - 1].body)
      case None => Paths(rows[..|rows| - 1])
      case Some(p) => Paths(rows[..|rows| - 1]) + [p]
  }

  function Slugs(rows: Rows): seq<string> {
    if |rows| == 0 then []
    else
      match rows[|rows| - 1].body.slug
      case None => Slugs(rows[..|rows| - 1])
      case Some(p) => Slugs(rows[..|rows| - 1]) + [p]
  }

  function SessionSet(rows: Rows): set<string> {
    set r | r in rows :: r.body.session
  }

  function Visitors(rows: Rows): set<string> {
    set r | r in rows && r.body.ipHash.Some? :: r.body.ipHash.value
  }

  // ---- Sections ------------------------------------------------------------

  function EventBreakdown(rows: Rows): seq<Group<EventType>> {
    ZeroFill(ALL_TYPES, Tally(Kinds(rows)))
  }

  function HourlyActivity(rows: Rows): seq<Group<int>> {
    ZeroFill(HOURS, Tally(Hours(rows)))
  }

  datatype Point = Point(bucket: int, pageViews: nat, sessions: nat, visitors: nat)

  function InsertBucket(buckets: seq<int>, b: int): seq<int> {
    if |buckets| == 0 || buckets[|buckets| - 1] < b then buckets + [b]
    else if buckets[|buckets| - 1] == b then buckets
    else InsertBucket(buckets[..|buckets| - 1], b) + [buckets[|buckets| - 1]]
  }

  /** The distinct buckets, in order. */
  function BucketList(keys: seq<int>): seq<int> {
    if |keys| == 0 then [] else InsertBucket(BucketList(keys[..|keys| - 1]), keys[|keys| - 1])
  }

  function InBucket(rows: Rows, bucket: Time -> int, b: int): Rows {
    if |rows| == 0 then []
    else
      var front, last := InBucket(rows[..|rows| - 1], bucket, b), rows[|rows| - 1];
      if bucket(last.createdAt) == b then front + [last] else front
  }

  function Points(rows: Rows, bucket: Time -> int, buckets: seq<int>): seq<Point> {
    if |buckets| == 0 then []
    else
      var here := InBucket(rows, bucket, buckets[0]);
      var views := OfType(here, PageView);
      [Point(buckets[0], |views|, |SessionSet(views)|, |Visitors(here)|)] + Points(rows, bucket, buckets[1..])
  }

  function Timeseries(rows: Rows, bucket: Time -> int): seq<Point> {
    Points(rows, bucket, BucketList(Buckets(rows, bucket)))
  }

  datatype Page = Page(path: string, views: nat, sessions: nat)

  function OnPath(rows: Rows, path: string): Rows {
    if |rows| == 0 then []
    else
      var front, last := OnPath(rows[..|rows| - 1], path), rows[|rows| - 1];
      if PathOf(last.body) == Some(path) then front + [last] else front
  }

  function Pages(views: Rows, groups: seq<Group<string>>): seq<Page> {
    if |groups| == 0 then []
    else
      [Page(groups[0].key, groups[0].count, |SessionSet(OnPath(views, groups[0].key))|)] + Pages(views, groups[1..])
  }

  function TopPages(rows: Rows): seq<Page> {
    var views := OfType(rows, PageView);
    Pages(views, Top(Tally(Paths(views)), TOP_PAGES_LIMIT))
  }

  datatype Project = Project(slug: string, title: string, views: nat)

  function Projects(titles: map<string, string>, groups: seq<Group<string>>): seq<Project> {
    if |groups| == 0 then []
    else
      var slug := groups[0].key;
      [Project(slug, if slug in titles then titles[slug] else slug, groups[0].count)] + Projects(titles, groups[1..])
  }

  function TopProjects(rows: Rows, titles: map<string, string>): seq<Project> {
    Projects(titles, Top(Tally(Slugs(OfType(rows, ProjectView))), TOP_PROJECTS_LIMIT))
  }

  /** `max()` over text, here in code point order. */
  predicate AtMost(a: string, b: string) {
    |a| == 0 || (|b| > 0 && (a[0] < b[0] || (a[0] == b[0] && AtMost(a[1..], b[1..]))))
  }

  function Larger(a: Option<string>, b: Option<string>): Option<string> {
    if a.None? then b
    else if b.None? then a
    else if AtMost(a.value, b.value) then b
    else a
  }

  function MaxDevice(rows: Rows): Option<string> {
    if |rows| == 0 then None else Larger(MaxDevice(rows[..|rows| - 1]), rows[|rows| - 1].body.device)
  }

  function MaxReferrer(rows: Rows): Option<string> {
    if |rows| == 0 then None else Larger(MaxReferrer(rows[..|rows| - 1]), rows[|rows| - 1].body.referrer)
  }

  /** Rows written since device classes are collected. */
  function Measured(rows: Rows): Rows {
    if |rows| == 0 then []
    else
      var front, last := Measured(rows[..|rows| - 1]), rows[|rows| - 1];
      if last.body.device.Some? then front + [last] else front
  }

  function DeviceOf(rows: Rows, session: string): string {
    match MaxDevice(OfSession(rows, session))
    case Some(d) => d
    case None => ""
  }

  function HostOf(rows: Rows, session: string): string {
    match MaxReferrer(OfSession(rows, session))
    case Some(h) => h
    case None => DIRECT_REFERRER
  }

  function DevicesOf(rows: Rows): seq<string> {
    var s := Sessions(rows);
    seq(|s|, i requires 0 <= i < |s| => DeviceOf(rows, s[i]))
  }

  function HostsOf(rows: Rows): seq<string> {
    var s := Sessions(rows);
    seq(|s|, i requires 0 <= i < |s| => HostOf(rows, s[i]))
  }

  function DeviceBreakdown(rows: Rows): seq<Group<string>> {
    Ranked(Tally(DevicesOf(Measured(rows))))
  }

  /** The referrer breakdown before its limit of ten. */
  function AllReferrers(rows: Rows): seq<Group<string>> {
    Ranked(Tally(HostsOf(Measured(rows))))
  }

  function Referrers(rows: Rows): seq<Group<string>> {
    Top(Tally(HostsOf(Measured(rows))), TOP_REFERRERS_LIMIT)
  }

  function OfLocale(rows: Rows, locale: Locale): Rows {
    if |rows| == 0 then []
    else
      var front, last := OfLocale(rows[..|rows| - 1], locale), rows[|rows| - 1];
      if last.body.locale == Some(locale) then front + [last] else front
  }

  function LanguageDistribution(rows: Rows): map<Locale, nat> {
    var views := OfType(rows, PageView);
    map l | l in {En, Es} && |OfLocale(views, l)| > 0 :: |SessionSet(OfLocale(views, l))|
  }

  datatype Counters = Counters(
    totals: seq<nat>,
    uniqueSessions: nat,
    totalEvents: nat,
    languages: map<Locale, nat>)

  /** One counter per type of event, in the order of ALL_TYPES. */
  function Totals(rows: Rows, types: seq<EventType>): seq<nat> {
    if |types| == 0 then [] else [|OfType(rows, types[0])|] + Totals(rows, types[1..])
  }

  function Summarise(rows: Rows): Counters {
    Counters(Totals(rows, ALL_TYPES), |SessionSet(OfType(rows, PageView))|, |rows|, LanguageDistribution(rows))
  }

  datatype Report = Report(
    summary: Counters,
    engagement: E.Summary,
    timeseries: seq<Point>,
    topProjects: seq<Project>,
    topPages: seq<Page>,
    eventBreakdown: seq<Group<EventType>>,
    devices: seq<Group<string>>,
    referrers: seq<Group<string>>,
    hourly: seq<Group<int>>)

  /** Every section computed from a time range. */
  function Compose(rows: Rows, titles: map<string, string>, bucket: Time -> int): Report {
    Report(Summarise(rows), E.Engagement(rows), Timeseries(rows, bucket), TopProjects(rows, titles), TopPages(rows),
           EventBreakdown(rows), DeviceBreakdown(rows), Referrers(rows), HourlyActivity(rows))
  }

  function RangeStart(now: Time, days: nat): Time {
    now - days as Time * DAY
  }

  function GetAnalytics(table: Rows, now: Time, days: nat, titles: map<string, string>, bucket: Time -> int): Report {
    Compose(Since(table, RangeStart(now, days)), titles, bucket)
  }

  // ---- One query at a time -------------------------------------------------

  /** The queries of a report that have its time range, each a statement of its own. */
  datatype Section =
    | KindQuery(kind: EventType)
    | EventsQuery
    | SessionsQuery
    | LanguagesQuery
    | EngagementQuery
    | TimeseriesQuery
    | ProjectsQuery
    | PagesQuery
    | BreakdownQuery
    | DevicesQuery
    | ReferrersQuery
    | HoursQuery

  datatype Answer =
    | Number(n: nat)
    | PerLocale(counts: map<Locale, nat>)
    | Figures(figures: E.Summary)
    | Series(points: seq<Point>)
    | ProjectList(projects: seq<Project>)
    | PageList(pages: seq<Page>)
    | PerType(types: seq<Group<EventType>>)
    | PerName(names: seq<Group<string>>)
    | PerHour(hours: seq<Group<int>>)

  /** The answer of one query to the rows of its range. */
  function Ask(rows: Rows, section: Section, titles: map<string, string>, bucket: Time -> int): Answer {
    match section
    case KindQuery(kind) => Number(|OfType(rows, kind)|)
    case EventsQuery => Number(|rows|)
    case SessionsQuery => Number(|SessionSet(OfType(rows, PageView))|)
    case LanguagesQuery => PerLocale(LanguageDistribution(rows))
    case EngagementQuery => Figures(E.Engagement(rows))
    case TimeseriesQuery => Series(Timeseries(rows, bucket))
    case ProjectsQuery => ProjectList(TopProjects(rows, titles))
    case PagesQuery => PageList(TopPages(rows))
    case BreakdownQuery => PerType(EventBreakdown(rows))
    case DevicesQuery => PerName(DeviceBreakdown(rows))
    case ReferrersQuery => PerName(Referrers(rows))
    case HoursQuery => PerHour(HourlyActivity(rows))
  }

  /** The counter of one type. */
  function CounterOf(types: seq<EventType>, totals: seq<nat>, kind: EventType): nat {
    if |types| == 0 || |totals| == 0 then 0
    else if types[0] == kind then totals[0]
    else CounterOf(types[1..], totals[1..], kind)
  }

  /** Where a report shows the answer of a query. */
  function PartOf(r: Report, section: Section): Answer {
    match section
    case KindQuery(kind) => Number(CounterOf(ALL_TYPES, r.summary.totals, kind))
    case EventsQuery => Number(r.summary.totalEvents)
    case SessionsQuery => Number(r.summary.uniqueSessions)
    case LanguagesQuery => PerLocale(r.summary.languages)
    case EngagementQuery => Figures(r.engagement)
    case TimeseriesQuery => Series(r.timeseries)
    case ProjectsQuery => ProjectList(r.topProjects)
    case PagesQuery => PageList(r.topPages)
    case BreakdownQuery => PerType(r.eventBreakdown)
    case DevicesQuery => PerName(r.devices)
    case ReferrersQuery => PerName(r.referrers)
    case HoursQuery => PerHour(r.hourly)
  }

  const ACTIVE_VISITOR_WINDOW_MINUTES: Time := 5.0

  /** Distinct sessions of the last five minutes. */
  function ActiveVisitors(table: Rows, now: Time): nat {
    |SessionSet(Since(table, now - ACTIVE_VISITOR_WINDOW_MINUTES * MINUTE))|
  }
}
