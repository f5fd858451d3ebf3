/** What each section of the dashboard shows, in terms of the rows of its range alone. */
module SectionLaws {
  import opened Prelude
  import opened Tables
  import opened Events
  import opened Groups
  import opened Dashboard
  import opened DashboardLaws

  // ---- Selections ----------------------------------------------------------

  lemma OfTypeHas(rows: Rows, kind: EventType)
    ensures forall r :: r in OfType(rows, kind) <==> r in rows && r.body.kind == kind
  {
    forall r
      ensures r in OfType(rows, kind) <==> r in rows && r.body.kind == kind
    {
      OfTypeIsExact(rows, kind, r);
      assert r in OfType(rows, kind) <==> r in multiset(OfType(rows, kind));
      assert r in rows <==> r in multiset(rows);
    }
  }

  /** Row for row: the events with a path, in a bucket, with a device class, in a language. */
  lemma {:induction false} OnPathIsExact(rows: Rows, path: string, r: Row<Event>)
    ensures multiset(OnPath(rows, path))[r] == if PathOf(r.body) == Some(path) then multiset(rows)[r] else 0
  {
    if |rows| > 0 {
      var front, last := rows[..|rows| - 1], rows[|rows| - 1];
      OnPathIsExact(front, path, r);
      assert rows == front + [last];
    }
  }

  lemma {:induction false} InBucketIsExact(rows: Rows, bucket: Time -> int, b: int, r: Row<Event>)
    ensures multiset(InBucket(rows, bucket, b))[r] == if bucket(r.createdAt) == b then multiset(rows)[r] else 0
  {
    if |rows| > 0 {
      var front, last := rows[..|rows| - 1], rows[|rows| - 1];
      InBucketIsExact(front, bucket, b, r);
      assert rows == front + [last];
    }
  }

  lemma {:induction false} MeasuredIsExact(rows: Rows, r: Row<Event>)
    ensures multiset(Measured(rows))[r] == if r.body.device.Some? then multiset(rows)[r] else 0
  {
    if |rows| > 0 {
      var front, last := rows[..|rows| - 1], rows[|rows| - 1];
      MeasuredIsExact(front, r);
      assert rows == front + [last];
    }
  }

  lemma {:induction false} OfLocaleIsExact(rows: Rows, locale: Locale, r: Row<Event>)
    ensures multiset(OfLocale(rows, locale))[r] == if r.body.locale == Some(locale) then multiset(rows)[r] else 0
  {
    if |rows| > 0 {
      var front, last := rows[..|rows| - 1], rows[|rows| - 1];
      OfLocaleIsExact(front, locale, r);
      assert rows == front + [last];
    }
  }

  // ---- Distinct sessions ---------------------------------------------------

  /** The summary: all events, the events of each type, and the sessions with a page view. */
  lemma CountersAreExact(rows: Rows, kind: EventType)
    ensures var s := Summarise(rows);
            && s.totalEvents == |rows|
            && s.uniqueSessions == |set r | r in rows && r.body.kind == PageView :: r.body.session|
            && |s.totals| == 7
            && forall i :: 0 <= i < 7 && ALL_TYPES[i] == kind ==> s.totals[i] == |OfType(rows, kind)|
  {
    OfTypeHas(rows, PageView);
    assert SessionSet(OfType(rows, PageView)) == set r | r in rows && r.body.kind == PageView :: r.body.session;
    forall i | 0 <= i < 7 && ALL_TYPES[i] == kind
      ensures i < |Totals(rows, ALL_TYPES)| && Totals(rows, ALL_TYPES)[i] == |OfType(rows, kind)|
    {
      TotalsAt(rows, ALL_TYPES, i);
    }
    TotalsAt(rows, ALL_TYPES, 0);
  }

  lemma {:induction false} TotalsAt(rows: Rows, types: seq<EventType>, i: nat)
    requires i < |types|
    ensures |Totals(rows, types)| == |types| && Totals(rows, types)[i] == |OfType(rows, types[i])|
  {
    if i > 0 {
      TotalsAt(rows, types[1..], i - 1);
    } else if |types| > 1 {
      TotalsAt(rows, types[1..], 0);
    }
  }

  /** A language is listed exactly when a page was viewed in it, with the sessions that did. */
  lemma LanguagesAreExact(rows: Rows, locale: Locale)
    ensures var views := set r | r in rows && r.body.kind == PageView && r.body.locale == Some(locale);
            && (locale in LanguageDistribution(rows) <==> views != {})
            && (locale in LanguageDistribution(rows) ==>
                  LanguageDistribution(rows)[locale] == |set r | r in views :: r.body.session|)
  {
    var views, here := OfType(rows, PageView), OfLocale(OfType(rows, PageView), locale);
    var wanted := set r | r in rows && r.body.kind == PageView && r.body.locale == Some(locale);
    OfTypeHas(rows, PageView);
    forall r
      ensures r in here <==> r in wanted
    {
      OfLocaleIsExact(views, locale, r);
      assert r in here <==> r in multiset(here);
      assert r in views <==> r in multiset(views);
    }
    if |here| > 0 {
      assert here[0] in wanted;
    }
    assert SessionSet(here) == set r | r in wanted :: r.body.session;
    assert locale in {En, Es};
  }

  /** The sessions with an event in the last five minutes. */
  lemma ActiveVisitorsAreExact(table: Rows, now: Time)
    ensures ActiveVisitors(table, now) == |set r | r in table && r.createdAt >= now - 300.0 :: r.body.session|
  {
    SinceKeeps(table, now - 300.0);
    assert SessionSet(Since(table, now - 300.0)) == set r | r in table && r.createdAt >= now - 300.0 :: r.body.session;
  }

  // ---- Types and hours -----------------------------------------------------

  /** Every type in its order, with the number of its events. */
  lemma BreakdownIsExact(rows: Rows, i: nat)
    requires i < 7
    ensures |EventBreakdown(rows)| == 7
    ensures EventBreakdown(rows)[i]
              == Group(ALL_TYPES[i], |set j | 0 <= j < |rows| && rows[j].body.kind == ALL_TYPES[i]|)
  {
    BreakdownAt(ALL_TYPES, Kinds(rows), i);
    assert Positions(Kinds(rows), ALL_TYPES[i]) == set j | 0 <= j < |rows| && rows[j].body.kind == ALL_TYPES[i];
  }

  /** Every hour of the day, with the number of events in it. */
  lemma HoursAreExact(rows: Rows, h: nat)
    requires h < 24
    ensures |HourlyActivity(rows)| == 24
    ensures HourlyActivity(rows)[h] == Group(h, |set j | 0 <= j < |rows| && HourOf(rows[j].createdAt) == h|)
  {
    assert HOURS[h] == h;
    BreakdownAt(HOURS, Hours(rows), h);
    assert Positions(Hours(rows), h) == set j | 0 <= j < |rows| && HourOf(rows[j].createdAt) == h;
  }

  // ---- Over time -----------------------------------------------------------

  lemma {:induction false} PointsAt(rows: Rows, bucket: Time -> int, buckets: seq<int>, i: nat)
    requires i < |buckets|
    ensures |Points(rows, bucket, buckets)| == |buckets|
    ensures Points(rows, bucket, buckets)[i] == Points(rows, bucket, [buckets[i]])[0]
  {
    if i > 0 {
      PointsAt(rows, bucket, buckets[1..], i - 1);
    } else if |buckets| > 1 {
      PointsAt(rows, bucket, buckets[1..], 0);
    }
  }

  /** One point per bucket with an event: its page views, their sessions, and all its visitors. */
  lemma TimeseriesIsExact(rows: Rows, bucket: Time -> int, i: nat)
    requires i < |Timeseries(rows, bucket)|
    ensures var p := Timeseries(rows, bucket)[i];
            && (exists r :: r in rows && bucket(r.createdAt) == p.bucket)
            && p.pageViews == |OfType(InBucket(rows, bucket, p.bucket), PageView)|
            && p.sessions == |set r | r in rows && bucket(r.createdAt) == p.bucket
                && r.body.kind == PageView :: r.body.session|
            && p.visitors == |set r | r in rows && bucket(r.createdAt) == p.bucket
                && r.body.ipHash.Some? :: r.body.ipHash.value|
  {
    var buckets := BucketList(Buckets(rows, bucket));
    PointsCount(rows, bucket, buckets);
    PointsAt(rows, bucket, buckets, i);
    BucketListRises(Buckets(rows, bucket));
    var b := buckets[i];
    assert b in Buckets(rows, bucket);
    var j :| 0 <= j < |rows| && Buckets(rows, bucket)[j] == b;
    assert rows[j] in rows;
    PointIsExact(rows, bucket, b);
  }

  lemma {:induction false} PointsCount(rows: Rows, bucket: Time -> int, buckets: seq<int>)
    ensures |Points(rows, bucket, buckets)| == |buckets|
  {
    if |buckets| > 0 {
      PointsCount(rows, bucket, buckets[1..]);
    }
  }

  lemma PointIsExact(rows: Rows, bucket: Time -> int, b: int)
    ensures var p := Points(rows, bucket, [b])[0];
            && p.bucket == b && p.pageViews == |OfType(InBucket(rows, bucket, b), PageView)|
            && p.sessions == |set r | r in rows && bucket(r.createdAt) == b
                && r.body.kind == PageView :: r.body.session|
            && p.visitors == |set r | r in rows && bucket(r.createdAt) == b
                && r.body.ipHash.Some? :: r.body.ipHash.value|
  {
    var here := InBucket(rows, bucket, b);
    forall r
      ensures r in here <==> r in rows && bucket(r.createdAt) == b
    {
      InBucketIsExact(rows, bucket, b, r);
      assert r in here <==> r in multiset(here);
      assert r in rows <==> r in multiset(rows);
    }
    OfTypeHas(here, PageView);
    assert SessionSet(OfType(here, PageView))
        == set r | r in rows && bucket(r.createdAt) == b && r.body.kind == PageView :: r.body.session;
    assert Visitors(here) == set r | r in rows && bucket(r.createdAt) == b
        && r.body.ipHash.Some? :: r.body.ipHash.value;
  }

  /** And every bucket with an event has its point. */
  lemma TimeseriesIsComplete(rows: Rows, bucket: Time -> int, r: Row<Event>)
    requires r in rows
    ensures exists i :: 0 <= i < |Timeseries(rows, bucket)| && Timeseries(rows, bucket)[i].bucket == bucket(r.createdAt)
  {
    var buckets := BucketList(Buckets(rows, bucket));
    var j :| 0 <= j < |rows| && rows[j] == r;
    assert Buckets(rows, bucket)[j] == bucket(r.createdAt);
    assert bucket(r.createdAt) in Buckets(rows, bucket);
    BucketListRises(Buckets(rows, bucket));
    assert bucket(r.createdAt) in buckets;
    var i :| 0 <= i < |buckets| && buckets[i] == bucket(r.createdAt);
    PointsCount(rows, bucket, buckets);
    PointsAt(rows, bucket, buckets, i);
    PointIsExact(rows, bucket, buckets[i]);
    assert Timeseries(rows, bucket)[i].bucket == bucket(r.createdAt);
  }

  // ---- Pages and projects --------------------------------------------------

  lemma {:induction false} PageSessions(views: Rows, groups: seq<Group<string>>, i: nat)
    requires i < |groups|
    ensures |Pages(views, groups)| == |groups|
    ensures Pages(views, groups)[i].sessions == |SessionSet(OnPath(views, groups[i].key))|
    ensures Pages(views, groups)[i].path == groups[i].key
  {
    PagesAt(views, groups);
    if i > 0 {
      PageSessions(views, groups[1..], i - 1);
    }
  }

  /** The sessions of a listed page are those that viewed it. */
  lemma PageSessionsAreExact(rows: Rows, i: nat)
    requires i < |TopPages(rows)|
    ensures TopPages(rows)[i].sessions
         == |set r | r in rows && r.body.kind == PageView
             && PathOf(r.body) == Some(TopPages(rows)[i].path) :: r.body.session|
  {
    var views := OfType(rows, PageView);
    var groups := Top(Tally(Paths(views)), TOP_PAGES_LIMIT);
    PagesAt(views, groups);
    PageSessions(views, groups, i);
    var path := groups[i].key;
    OfTypeHas(rows, PageView);
    forall r
      ensures r in OnPath(views, path) <==> r in views && PathOf(r.body) == Some(path)
    {
      OnPathIsExact(views, path, r);
      assert r in OnPath(views, path) <==> r in multiset(OnPath(views, path));
      assert r in views <==> r in multiset(views);
    }
    assert SessionSet(OnPath(views, path))
        == set r | r in rows && r.body.kind == PageView && PathOf(r.body) == Some(path) :: r.body.session;
  }

  /** The project views of a slug. */
  function ViewsOfProject(rows: Rows, slug: string): set<int> {
    set i | 0 <= i < |rows| && rows[i].body.kind == ProjectView && rows[i].body.slug == Some(slug)
  }

  lemma ViewsOfProjectSnoc(rows: Rows, row: Row<Event>, slug: string)
    ensures |ViewsOfProject(rows + [row], slug)| == |ViewsOfProject(rows, slug)|
            + if row.body.kind == ProjectView && row.body.slug == Some(slug) then 1 else 0
  {
    var n, before := |rows|, ViewsOfProject(rows, slug);
    assert ViewsOfProject(rows + [row], slug) == if n in ViewsOfProject(rows + [row], slug) then before + {n}
        else before;
  }

  lemma SlugsSnoc(rows: Rows, row: Row<Event>)
    ensures Slugs(rows + [row]) == match row.body.slug case None => Slugs(rows) case Some(p) => Slugs(rows) + [p]
  {
    assert (rows + [row])[..|rows|] == rows;
  }

  lemma {:induction false} SlugsAreExact(rows: Rows, slug: string)
    ensures Occurrences(Slugs(OfType(rows, ProjectView)), slug) == |ViewsOfProject(rows, slug)|
  {
    if |rows| > 0 {
      var front, last := rows[..|rows| - 1], rows[|rows| - 1];
      SlugsAreExact(front, slug);
      ViewsOfProjectSnoc(front, last, slug);
      assert rows == front + [last];
      SlugsSnoc(OfType(front, ProjectView), last);
      if last.body.slug.Some? {
        OccurrencesSnoc(Slugs(OfType(front, ProjectView)), last.body.slug.value, slug);
      }
      hide ViewsOfProject, Slugs;
    }
  }

  /** The views of a listed project are those of its slug, and no other slug has more. */
  lemma ProjectViewsAreExact(rows: Rows, titles: map<string, string>, i: nat, other: string)
    requires i < |TopProjects(rows, titles)|
    requires forall j :: 0 <= j < |TopProjects(rows, titles)| ==> TopProjects(rows, titles)[j].slug != other
    ensures TopProjects(rows, titles)[i].views == |ViewsOfProject(rows, TopProjects(rows, titles)[i].slug)|
    ensures |ViewsOfProject(rows, other)| <= TopProjects(rows, titles)[i].views
  {
    TopProjectsAreTop(rows, titles, i, other);
    SlugsAreExact(rows, TopProjects(rows, titles)[i].slug);
    SlugsAreExact(rows, other);
  }

  // ---- Devices and referrers -----------------------------------------------

  ghost predicate IsLargestDevice(rows: Rows, device: string) {
    && (exists r :: r in rows && r.body.device == Some(device))
    && (forall r :: r in rows && r.body.device.Some? ==> AtMost(r.body.device.value, device))
  }

  /** The device of a visit is the largest class that any of its rows has. */
  lemma {:induction false} MaxDeviceIsMax(rows: Rows)
    ensures MaxDevice(rows).None? <==> forall r :: r in rows ==> r.body.device.None?
    ensures MaxDevice(rows).Some? ==> IsLargestDevice(rows, MaxDevice(rows).value)
  {
    if |rows| > 0 {
      var front, last := rows[..|rows| - 1], rows[|rows| - 1];
      MaxDeviceIsMax(front);
      assert rows == front + [last];
      assert last in rows;
      if last.body.device.Some? && MaxDevice(front).Some? {
        var a, b := MaxDevice(front).value, last.body.device.value;
        AtMostTotal(a, b);
        AtMostTotal(b, b);
        AtMostTotal(a, a);
        forall r | r in rows && r.body.device.Some?
          ensures AtMost(r.body.device.value, MaxDevice(rows).value)
        {
          if r in front && MaxDevice(rows) == Some(b) {
            AtMostTransitive(r.body.device.value, a, b);
          }
        }
        var r :| r in front && r.body.device == Some(a);
        assert r in rows;
      } else if last.body.device.Some? {
        AtMostTotal(last.body.device.value, last.body.device.value);
      } else if MaxDevice(front).Some? {
        var r :| r in front && r.body.device == MaxDevice(front);
        assert r in rows;
      }
    }
  }

  function Labelled(sessions: seq<string>, f: string -> string, d: string): set<string> {
    set s | s in sessions && f(s) == d
  }

  lemma LabelledSnoc(sessions: seq<string>, session: string, f: string -> string, d: string)
    requires session !in sessions
    ensures |Labelled(sessions + [session], f, d)| == |Labelled(sessions, f, d)| + if f(session) == d then 1 else 0
  {
    var before := Labelled(sessions, f, d);
    assert Labelled(sessions + [session], f, d) == if f(session) == d then before + {session} else before;
  }

  /** A label per session counts the sessions with that label. */
  lemma {:induction false} LabelCount(sessions: seq<string>, labels: seq<string>, f: string -> string, d: string)
    requires |labels| == |sessions| && forall i :: 0 <= i < |labels| ==> labels[i] == f(sessions[i])
    requires forall i, j :: 0 <= i < j < |sessions| ==> sessions[i] != sessions[j]
    ensures Occurrences(labels, d) == |Labelled(sessions, f, d)|
  {
    if |sessions| > 0 {
      var front, last := sessions[..|sessions| - 1], sessions[|sessions| - 1];
      LabelCount(front, labels[..|labels| - 1], f, d);
      assert last !in front;
      LabelledSnoc(front, last, f, d);
      assert sessions == front + [last];
    }
    hide Labelled;
  }

  /** The measured sessions on a device, and those from a host. */
  function SessionsOn(rows: Rows, device: string): set<string> {
    set s | s in Sessions(Measured(rows)) && DeviceOf(Measured(rows), s) == device
  }

  function SessionsFrom(rows: Rows, host: string): set<string> {
    set s | s in Sessions(Measured(rows)) && HostOf(Measured(rows), s) == host
  }

  lemma DevicesCount(rows: Rows, device: string)
    ensures Occurrences(DevicesOf(Measured(rows)), device) == |SessionsOn(rows, device)|
  {
    var m := Measured(rows);
    SessionsOnce(m);
    var f := s => DeviceOf(m, s);
    LabelCount(Sessions(m), DevicesOf(m), f, device);
    assert Labelled(Sessions(m), f, device) == SessionsOn(rows, device);
  }

  lemma HostsCount(rows: Rows, host: string)
    ensures Occurrences(HostsOf(Measured(rows)), host) == |SessionsFrom(rows, host)|
  {
    var m := Measured(rows);
    SessionsOnce(m);
    var f := s => HostOf(m, s);
    LabelCount(Sessions(m), HostsOf(m), f, host);
    assert Labelled(Sessions(m), f, host) == SessionsFrom(rows, host);
  }

  /** Every measured session has the largest of its device classes. */
  lemma DeviceIsLargest(rows: Rows, session: string)
    requires session in Sessions(Measured(rows))
    ensures IsLargestDevice(OfSession(Measured(rows), session), DeviceOf(Measured(rows), session))
  {
    var visit := OfSession(Measured(rows), session);
    SessionsOnce(Measured(rows));
    MaxDeviceIsMax(visit);
    OfSessionIsExact(Measured(rows), session, visit[0]);
    MeasuredIsExact(rows, visit[0]);
    assert visit[0] in multiset(visit);
    assert visit[0] in multiset(Measured(rows));
  }

  /** The device breakdown has one group per device, with the sessions on it. */
  lemma DevicesAreExact(rows: Rows, device: string)
    ensures forall g :: g in DeviceBreakdown(rows) && g.key == device ==> g.count == |SessionsOn(rows, device)|
    ensures SessionsOn(rows, device) != {} <==> Lists(DeviceBreakdown(rows), device)
  {
    var labels := DevicesOf(Measured(rows));
    RankedOfData(labels, device);
    assert |SessionsOn(rows, device)| == 0 <==> SessionsOn(rows, device) == {};
    OccurrencesIsSize(labels, device);
    DevicesCount(rows, device);
    Unseen(labels, device);
    hide DevicesOf, Tally, SessionsOn, Occurrences, Positions, Lists;
  }

  /** A listed host has all its sessions counted, and no host left out has more. */
  lemma ReferrersAreTop(rows: Rows, i: nat, other: string)
    requires i < |Referrers(rows)|
    requires forall j :: 0 <= j < |Referrers(rows)| ==> Referrers(rows)[j].key != other
    ensures |Referrers(rows)| <= 10
    ensures Referrers(rows)[i].count == |SessionsFrom(rows, Referrers(rows)[i].key)|
    ensures |SessionsFrom(rows, other)| <= Referrers(rows)[i].count
  {
    var labels := HostsOf(Measured(rows));
    TopIsHighest(Tally(labels), TOP_REFERRERS_LIMIT);
    TopOfData(labels, TOP_REFERRERS_LIMIT, i, other);
    HostsCount(rows, Referrers(rows)[i].key);
    HostsCount(rows, other);
  }

  /** The order of text: a prefix comes first, and otherwise the first difference decides. */
  lemma {:induction false} AtMostIsLexicographic(a: string, b: string)
    ensures AtMost(a, b) <==> a <= b || exists i :: 0 <= i < |a| && i < |b| && a[..i] == b[..i] && a[i] < b[i]
  {
    if |a| > 0 && |b| > 0 {
      if a[0] == b[0] {
        AtMostIsLexicographic(a[1..], b[1..]);
        if i :| 0 <= i < |a[1..]| && i < |b[1..]| && a[1..][..i] == b[1..][..i] && a[1..][i] < b[1..][i] {
          assert a[..i + 1] == [a[0]] + a[1..][..i] && b[..i + 1] == [b[0]] + b[1..][..i];
          assert a[i + 1] < b[i + 1];
        }
        if i :| 0 <= i < |a| && i < |b| && a[..i] == b[..i] && a[i] < b[i] {
          assert i > 0 && a[1..][..i - 1] == a[..i][1..] && b[1..][..i - 1] == b[..i][1..];
          assert a[1..][i - 1] < b[1..][i - 1];
        }
        assert a <= b <==> a[1..] <= b[1..] by {
          assert a == [a[0]] + a[1..] && b == [b[0]] + b[1..];
        }
      } else {
        assert a[..0] == b[..0];
        assert forall i :: 0 < i <= |a| && i <= |b| ==> a[..i][0] != b[..i][0];
      }
    }
  }
}
