/** How the sections of one dashboard add up, and what a retention sweep changes of it. */
module DashboardLaws {
  import opened Prelude
  import opened Tables
  import opened Events
  import opened Groups
  import opened Dashboard
  import A = Admission
  import Metadata

  function Sum(counts: seq<nat>): nat {
    if |counts| == 0 then 0 else counts[0] + Sum(counts[1..])
  }

  function SumViews(points: seq<Point>): nat {
    if |points| == 0 then 0 else points[0].pageViews + SumViews(points[1..])
  }

  // ---- Every event in one type and one hour --------------------------------

  lemma TypesCovered(k: EventType)
    ensures k in ALL_TYPES
  {
    match k {
      case PageView => assert ALL_TYPES[0] == k;
      case ProjectView => assert ALL_TYPES[1] == k;
      case ProjectLinkClick => assert ALL_TYPES[2] == k;
      case GithubClick => assert ALL_TYPES[3] == k;
      case CvDownload => assert ALL_TYPES[4] == k;
      case ContactClick => assert ALL_TYPES[5] == k;
      case LanguageChange => assert ALL_TYPES[6] == k;
    }
  }

  lemma HoursCovered(t: Time)
    ensures HourOf(t) in HOURS
  {
    assert HOURS[HourOf(t)] == HourOf(t);
  }

  lemma {:induction false} KindOccurrences(rows: Rows, k: EventType)
    ensures Occurrences(Kinds(rows), k) == |OfType(rows, k)|
  {
    if |rows| > 0 {
      KindOccurrences(rows[..|rows| - 1], k);
      assert Kinds(rows)[..|rows| - 1] == Kinds(rows[..|rows| - 1]);
    }
  }

  lemma {:induction false} TotalsAreBreakdown(rows: Rows, types: seq<EventType>)
    ensures Sum(Totals(rows, types)) == Total(ZeroFill(types, Tally(Kinds(rows))))
  {
    if |types| > 0 {
      TotalsAreBreakdown(rows, types[1..]);
      TallyCount(Kinds(rows), types[0]);
      KindOccurrences(rows, types[0]);
      assert ZeroFill(types, Tally(Kinds(rows)))[1..] == ZeroFill(types[1..], Tally(Kinds(rows)));
      assert Totals(rows, types)[1..] == Totals(rows, types[1..]);
    }
  }

  lemma BreakdownTotal(rows: Rows)
    ensures Total(EventBreakdown(rows)) == |rows|
  {
    forall i | 0 <= i < |rows|
      ensures Kinds(rows)[i] in ALL_TYPES
    {
      TypesCovered(Kinds(rows)[i]);
    }
    ZeroFillTotal(ALL_TYPES, Kinds(rows));
  }

  lemma HoursTotal(rows: Rows)
    ensures Total(HourlyActivity(rows)) == |rows|
  {
    forall i | 0 <= i < |rows|
      ensures Hours(rows)[i] in HOURS
    {
      HoursCovered(rows[i].createdAt);
    }
    ZeroFillTotal(HOURS, Hours(rows));
  }

  /** The zero-filled breakdown, the 24 hours and the seven counters all sum to the number of events. */
  lemma EventsConserved(rows: Rows)
    ensures Total(EventBreakdown(rows)) == |rows|
    ensures Total(HourlyActivity(rows)) == |rows|
    ensures Sum(Summarise(rows).totals) == Summarise(rows).totalEvents == |rows|
  {
    BreakdownTotal(rows);
    HoursTotal(rows);
    TotalsAreBreakdown(rows, ALL_TYPES);
  }

  // ---- Page views over time ------------------------------------------------

  ghost predicate Rising(buckets: seq<int>) {
    forall i, j :: 0 <= i < j < |buckets| ==> buckets[i] < buckets[j]
  }

  lemma RisingSnoc(buckets: seq<int>, b: int)
    requires Rising(buckets) && forall x :: x in buckets ==> x < b
    ensures Rising(buckets + [b])
  {
    assert forall i :: 0 <= i < |buckets| ==> buckets[i] in buckets;
  }

  lemma {:induction false} InsertBucketRises(buckets: seq<int>, b: int)
    requires Rising(buckets)
    ensures Rising(InsertBucket(buckets, b))
    ensures forall x :: x in InsertBucket(buckets, b) <==> x == b || x in buckets
  {
    if |buckets| > 0 && buckets[|buckets| - 1] > b {
      var front, last := buckets[..|buckets| - 1], buckets[|buckets| - 1];
      InsertBucketRises(front, b);
      assert buckets == front + [last];
      forall x | x in InsertBucket(front, b)
        ensures x < last
      {
        if x != b {
          var i :| 0 <= i < |front| && front[i] == x;
          assert buckets[i] == x;
        }
      }
      RisingSnoc(InsertBucket(front, b), last);
    } else if |buckets| > 0 {
      var last := |buckets| - 1;
      assert forall i :: 0 <= i < last ==> buckets[i] < buckets[last];
    }
  }

  lemma {:induction false} BucketListRises(keys: seq<int>)
    ensures Rising(BucketList(keys))
    ensures forall x :: x in BucketList(keys) <==> x in keys
  {
    if |keys| > 0 {
      var front, last := keys[..|keys| - 1], keys[|keys| - 1];
      BucketListRises(front);
      InsertBucketRises(BucketList(front), last);
      assert keys == front + [last];
    }
  }

  /** Filtering by bucket and by type commutes with counting the views of a bucket. */
  lemma {:induction false} BucketViews(rows: Rows, bucket: Time -> int, b: int)
    ensures |OfType(InBucket(rows, bucket, b), PageView)| == Occurrences(Buckets(OfType(rows, PageView), bucket), b)
  {
    if |rows| > 0 {
      var front, last := rows[..|rows| - 1], rows[|rows| - 1];
      BucketViews(front, bucket, b);
      var views := OfType(front, PageView);
      assert Buckets(views + [last], bucket) == Buckets(views, bucket) + [bucket(last.createdAt)];
      OccurrencesSnoc(Buckets(views, bucket), bucket(last.createdAt), b);
      OfTypeSnoc(InBucket(front, bucket, b), last, PageView);
    }
  }

  lemma OccurrencesSnoc<K>(keys: seq<K>, k: K, x: K)
    ensures Occurrences(keys + [k], x) == Occurrences(keys, x) + (if k == x then 1 else 0)
  {
    assert (keys + [k])[..|keys|] == keys;
  }

  lemma {:induction false} PointsAreZeroFill(rows: Rows, bucket: Time -> int, buckets: seq<int>)
    ensures SumViews(Points(rows, bucket, buckets))
         == Total(ZeroFill(buckets, Tally(Buckets(OfType(rows, PageView), bucket))))
  {
    if |buckets| > 0 {
      var keys := Buckets(OfType(rows, PageView), bucket);
      PointsAreZeroFill(rows, bucket, buckets[1..]);
      BucketViews(rows, bucket, buckets[0]);
      TallyCount(keys, buckets[0]);
      assert ZeroFill(buckets, Tally(keys))[1..] == ZeroFill(buckets[1..], Tally(keys));
      assert Points(rows, bucket, buckets)[1..] == Points(rows, bucket, buckets[1..]);
    }
  }

  lemma {:induction false} OfTypeFrom(rows: Rows, k: EventType)
    ensures forall r :: r in OfType(rows, k) ==> r in rows
  {
    if |rows| > 0 {
      OfTypeFrom(rows[..|rows| - 1], k);
    }
  }

  /** The points of the timeseries are in order, and their views sum to all page views. */
  lemma ViewsConserved(rows: Rows, bucket: Time -> int)
    ensures SumViews(Timeseries(rows, bucket)) == |OfType(rows, PageView)|
    ensures Rising(BucketList(Buckets(rows, bucket)))
  {
    var buckets, views := BucketList(Buckets(rows, bucket)), OfType(rows, PageView);
    BucketListRises(Buckets(rows, bucket));
    forall i | 0 <= i < |views|
      ensures Buckets(views, bucket)[i] in buckets
    {
      OfTypeFrom(rows, PageView);
      assert views[i] in rows;
      var j :| 0 <= j < |rows| && rows[j] == views[i];
      assert Buckets(rows, bucket)[j] == Buckets(views, bucket)[i];
    }
    ZeroFillTotal(buckets, Buckets(views, bucket));
    PointsAreZeroFill(rows, bucket, buckets);
  }

  // ---- Sessions ------------------------------------------------------------

  /** Every measured session has one device and one host, so both breakdowns sum to their number. */
  lemma SessionsConserved(rows: Rows)
    ensures Total(DeviceBreakdown(rows)) == |Sessions(Measured(rows))|
    ensures Total(AllReferrers(rows)) == |Sessions(Measured(rows))|
  {
    TallyTotal(DevicesOf(Measured(rows)));
    RankedTotal(Tally(DevicesOf(Measured(rows))));
    TallyTotal(HostsOf(Measured(rows)));
    RankedTotal(Tally(HostsOf(Measured(rows))));
  }

  lemma SessionSetSnoc(rows: Rows, row: Row<Event>)
    ensures SessionSet(rows + [row]) == SessionSet(rows) + {row.body.session}
  {
    assert row in rows + [row];
  }

  lemma {:induction false} SessionListIsSet(rows: Rows)
    ensures |Sessions(rows)| == |SessionSet(rows)|
    ensures forall s :: s in Sessions(rows) <==> s in SessionSet(rows)
  {
    if |rows| > 0 {
      var front, last := rows[..|rows| - 1], rows[|rows| - 1];
      SessionListIsSet(front);
      SessionSetSnoc(front, last);
      assert rows == front + [last];
      if last.body.session in SessionSet(front) {
        assert SessionSet(front) + {last.body.session} == SessionSet(front);
      }
    }
  }

  /**
   The unique sessions of the summary, which viewed a page, are some of the
   sessions that engagement is averaged over.
   */
  lemma UniqueSessionsAmongAll(rows: Rows)
    ensures Summarise(rows).uniqueSessions <= |Sessions(rows)|
  {
    SessionListIsSet(rows);
    OfTypeFrom(rows, PageView);
    A.SubsetSize(SessionSet(OfType(rows, PageView)), SessionSet(rows));
  }

  // ---- The ten most viewed pages -------------------------------------------

  lemma {:induction false} PathOccurrences(rows: Rows, path: string)
    ensures Occurrences(Paths(rows), path) == |OnPath(rows, path)|
  {
    if |rows| > 0 {
      var front, last := rows[..|rows| - 1], rows[|rows| - 1];
      PathOccurrences(front, path);
      match PathOf(last.body) {
        case None =>
        case Some(p) => OccurrencesSnoc(Paths(front), p, path);
      }
    }
  }

  lemma {:induction false} PagesAt(views: Rows, groups: seq<Group<string>>)
    ensures |Pages(views, groups)| == |groups|
    ensures forall i :: 0 <= i < |groups| ==>
              Pages(views, groups)[i].path == groups[i].key && Pages(views, groups)[i].views == groups[i].count
  {
    if |groups| > 0 {
      PagesAt(views, groups[1..]);
      assert forall i :: 1 <= i < |groups| ==> groups[i] == groups[1..][i - 1];
    }
  }

  /** A listed page has all its views counted, and no page left out of the list has more. */
  lemma TopPagesAreTop(rows: Rows, i: nat, other: string)
    requires i < |TopPages(rows)|
    requires forall j :: 0 <= j < |TopPages(rows)| ==> TopPages(rows)[j].path != other
    ensures var views := OfType(rows, PageView);
            && |TopPages(rows)| <= TOP_PAGES_LIMIT
            && TopPages(rows)[i].views == |OnPath(views, TopPages(rows)[i].path)|
            && |OnPath(views, other)| <= TopPages(rows)[i].views
  {
    var views := OfType(rows, PageView);
    var top := Top(Tally(Paths(views)), TOP_PAGES_LIMIT);
    PagesAt(views, top);
    TopIsHighest(Tally(Paths(views)), TOP_PAGES_LIMIT);
    forall j | 0 <= j < |top|
      ensures top[j].key != other
    {
      assert TopPages(rows)[j].path == top[j].key;
    }
    TopOfData(Paths(views), TOP_PAGES_LIMIT, i, other);
    PathOccurrences(views, other);
    PathOccurrences(views, TopPages(rows)[i].path);
  }

  lemma {:induction false} ProjectsAt(titles: map<string, string>, groups: seq<Group<string>>)
    ensures |Projects(titles, groups)| == |groups|
    ensures forall i :: 0 <= i < |groups| ==>
              && Projects(titles, groups)[i].slug == groups[i].key
              && Projects(titles, groups)[i].views == groups[i].count
              && Projects(titles, groups)[i].title
                  == (if groups[i].key in titles then titles[groups[i].key] else groups[i].key)
  {
    if |groups| > 0 {
      ProjectsAt(titles, groups[1..]);
      assert forall i :: 1 <= i < |groups| ==> groups[i] == groups[1..][i - 1];
    }
  }

  /** The same for projects, each under its title or, without one, its slug. */
  lemma TopProjectsAreTop(rows: Rows, titles: map<string, string>, i: nat, other: string)
    requires i < |TopProjects(rows, titles)|
    requires forall j :: 0 <= j < |TopProjects(rows, titles)| ==> TopProjects(rows, titles)[j].slug != other
    ensures var slugs, listed := Slugs(OfType(rows, ProjectView)), TopProjects(rows, titles)[i];
            && |TopProjects(rows, titles)| <= TOP_PROJECTS_LIMIT
            && listed.views == Occurrences(slugs, listed.slug)
            && Occurrences(slugs, other) <= listed.views
            && listed.title == (if listed.slug in titles then titles[listed.slug] else listed.slug)
  {
    var slugs := Slugs(OfType(rows, ProjectView));
    var top := Top(Tally(slugs), TOP_PROJECTS_LIMIT);
    ProjectsAt(titles, top);
    TopIsHighest(Tally(slugs), TOP_PROJECTS_LIMIT);
    forall j | 0 <= j < |top|
      ensures top[j].key != other
    {
      assert TopProjects(rows, titles)[j].slug == top[j].key;
    }
    TopOfData(slugs, TOP_PROJECTS_LIMIT, i, other);
  }

  // ---- One referrer per visit ----------------------------------------------

  lemma {:induction false} AtMostTotal(a: string, b: string)
    ensures AtMost(a, b) || AtMost(b, a)
  {
    if |a| > 0 && |b| > 0 {
      AtMostTotal(a[1..], b[1..]);
    }
  }

  lemma {:induction false} AtMostTransitive(a: string, b: string, c: string)
    requires AtMost(a, b) && AtMost(b, c)
    ensures AtMost(a, c)
  {
    if |a| > 0 && a[0] == b[0] && b[0] == c[0] {
      AtMostTransitive(a[1..], b[1..], c[1..]);
    }
  }

  ghost predicate Names(rows: Rows, host: string) {
    exists i :: 0 <= i < |rows| && rows[i].body.referrer == Some(host)
  }

  lemma NamesSnoc(rows: Rows, row: Row<Event>, host: string)
    ensures Names(rows + [row], host) <==> Names(rows, host) || row.body.referrer == Some(host)
  {
    if row.body.referrer == Some(host) {
      assert (rows + [row])[|rows|] == row;
    }
    if Names(rows, host) {
      var i :| 0 <= i < |rows| && rows[i].body.referrer == Some(host);
      assert (rows + [row])[i] == rows[i];
    }
  }

  /** The referrer of a visit is the largest host that any of its rows names, if any names one. */
  lemma {:induction false} MaxReferrerIsMax(rows: Rows)
    ensures MaxReferrer(rows).None? <==> forall h :: !Names(rows, h)
    ensures MaxReferrer(rows).Some? ==> Names(rows, MaxReferrer(rows).value)
    ensures MaxReferrer(rows).Some? ==> forall h :: Names(rows, h) ==> AtMost(h, MaxReferrer(rows).value)
  {
    if |rows| > 0 {
      var front, last := rows[..|rows| - 1], rows[|rows| - 1];
      MaxReferrerIsMax(front);
      assert rows == front + [last];
      var before, now := MaxReferrer(front), MaxReferrer(rows);
      forall h
        ensures Names(rows, h) <==> Names(front, h) || last.body.referrer == Some(h)
      {
        NamesSnoc(front, last, h);
      }
      if last.body.referrer.Some? {
        var r := last.body.referrer.value;
        AtMostTotal(r, r);
        if before.Some? {
          AtMostTotal(before.value, r);
          forall h | Names(front, h)
            ensures AtMost(h, now.value)
          {
            if now == Some(r) {
              AtMostTransitive(h, before.value, r);
            }
          }
        }
      }
    }
  }

  /**
   A visit whose rows name at most one host is filed under it, whichever of its
   rows names it, and under "direct" when none does.
   */
  lemma VisitFiledOnce(rows: Rows, session: string, host: string)
    requires forall h :: Names(OfSession(rows, session), h) ==> h == host
    ensures HostOf(rows, session) == if Names(OfSession(rows, session), host) then host else DIRECT_REFERRER
  {
    MaxReferrerIsMax(OfSession(rows, session));
  }

  ghost predicate NamesNone(rows: Rows) {
    forall h :: !Names(rows, h)
  }

  ghost predicate LargestNamed(rows: Rows, host: string) {
    Names(rows, host) && forall h :: Names(rows, h) ==> AtMost(h, host)
  }

  lemma OneIsLargest(rows: Rows, a: string, b: string)
    requires LargestNamed(rows, a) && LargestNamed(rows, b)
    ensures a == b
  {
    AtMostAntisymmetric(a, b);
  }

  lemma MaxIsLargest(rows: Rows)
    ensures MaxReferrer(rows).None? <==> NamesNone(rows)
    ensures MaxReferrer(rows).Some? ==> LargestNamed(rows, MaxReferrer(rows).value)
    ensures NamesNone(rows) ==> forall h :: !LargestNamed(rows, h)
  {
    MaxReferrerIsMax(rows);
  }

  /**
   A visit is filed under "direct" exactly when none of its rows names a host,
   or a client named "direct" as a host and no larger one.
   */
  lemma FiledAsDirect(rows: Rows, session: string)
    ensures var visit := OfSession(rows, session);
            HostOf(rows, session) == DIRECT_REFERRER <==> NamesNone(visit) || LargestNamed(visit, DIRECT_REFERRER)
  {
    hide OfSession, MaxReferrer, NamesNone, LargestNamed;
    var visit := OfSession(rows, session);
    MaxIsLargest(visit);
    if LargestNamed(visit, DIRECT_REFERRER) && MaxReferrer(visit).Some? {
      OneIsLargest(visit, MaxReferrer(visit).value, DIRECT_REFERRER);
    }
  }

  lemma {:induction false} AtMostAntisymmetric(a: string, b: string)
    requires AtMost(a, b) && AtMost(b, a)
    ensures a == b
  {
    if |a| > 0 {
      AtMostAntisymmetric(a[1..], b[1..]);
      assert a == [a[0]] + a[1..] && b == [b[0]] + b[1..];
    }
  }

  lemma LettersAreHost(s: string)
    requires 1 <= |s| <= 253 && forall i :: 0 <= i < |s| ==> 'a' <= s[i] <= 'z'
    ensures Metadata.IsHost(s)
  {
    assert Metadata.HOST_CHAR[0] == ('a', 'z') && Metadata.LOWER_ALNUM[0] == ('a', 'z');
  }

  /** The host pattern lets "direct" through, so a visit may name it: a single row does. */
  lemma DirectCanBeNamed(row: Row<Event>)
    requires row.body.referrer == Some(DIRECT_REFERRER)
    ensures Metadata.IsHost(DIRECT_REFERRER)
    ensures Names(OfSession([row], row.body.session), DIRECT_REFERRER)
    ensures HostOf([row], row.body.session) == DIRECT_REFERRER
  {
    LettersAreHost(DIRECT_REFERRER);
    OfSessionSnoc([], row, row.body.session);
    assert [] + [row] == [row];
    NamesSnoc([], row, DIRECT_REFERRER);
    OnlyNamed(row);
    VisitFiledOnce([row], row.body.session, DIRECT_REFERRER);
  }

  lemma OnlyNamed(row: Row<Event>)
    requires row.body.referrer.Some?
    ensures forall h :: Names([row], h) ==> h == row.body.referrer.value
  {
  }

  // ---- Retention -----------------------------------------------------------

  /**
   A sweep before the dashboard is opened changes none of its sections but the
   recent events, for every range of up to 90 days.
   */
  lemma SweepKeepsReport(table: Rows, sweptAt: Time, now: Time, days: nat, titles: map<string, string>,
                         bucket: Time -> int)
    requires sweptAt <= now && days <= 90
    ensures GetAnalytics(Since(table, sweptAt - ANALYTICS_RETENTION), now, days, titles, bucket)
         == GetAnalytics(table, now, days, titles, bucket)
  {
    assert days as Time * DAY <= 90.0 * DAY;
    PurgeUnseen(table, sweptAt - ANALYTICS_RETENTION, RangeStart(now, days));
  }

  /** A longer range is affected exactly when it holds a row older than the retention. */
  lemma LongRangeLoses(table: Rows, now: Time, days: nat, titles: map<string, string>, bucket: Time -> int)
    requires days >= 90
    ensures GetAnalytics(Since(table, now - ANALYTICS_RETENTION), now, days, titles, bucket)
         == GetAnalytics(table, now, days, titles, bucket)
         <==> forall r :: r in table && r.createdAt >= RangeStart(now, days) ==>
             r.createdAt >= now - ANALYTICS_RETENTION
  {
    var start, cut := RangeStart(now, days), now - ANALYTICS_RETENTION;
    assert days as Time * DAY >= 90.0 * DAY;
    var shown, left := Since(table, start), Since(Since(table, cut), start);
    KeepsAll(table, cut, start);
    assert |shown| != |left| ==>
        Compose(shown, titles, bucket).summary.totalEvents != Compose(left, titles, bucket).summary.totalEvents;
  }

  /** Purging first loses rows of a range or loses none. */
  lemma {:induction false} KeepsAll(table: Rows, cut: Time, start: Time)
    requires start <= cut
    ensures |Since(Since(table, cut), start)| <= |Since(table, start)|
    ensures |Since(Since(table, cut), start)| == |Since(table, start)| ==>
              Since(Since(table, cut), start) == Since(table, start)
    ensures |Since(Since(table, cut), start)| == |Since(table, start)| <==>
              forall r :: r in table && r.createdAt >= start ==> r.createdAt >= cut
  {
    if |table| > 0 {
      var front, last := table[..|table| - 1], table[|table| - 1];
      KeepsAll(front, cut, start);
      assert table == front + [last];
      if last.createdAt >= cut {
        SinceSnoc(Since(front, cut), last, start);
      }
    }
  }

  /** The latest 15 events, in any order among equal times: the list has no time range. */
  ghost predicate IsRecent(table: Rows, list: Rows) {
    && |list| == (if |table| <= RECENT_EVENTS_LIMIT then |table| else RECENT_EVENTS_LIMIT)
    && multiset(list) <= multiset(table)
    && (forall i, j :: 0 <= i < j < |list| ==> list[i].createdAt >= list[j].createdAt)
    && (forall r, s :: r in list && s in multiset(table) - multiset(list) ==> s.createdAt <= r.createdAt)
  }

  lemma {:induction false} SweptIsPart(table: Rows, cut: Time)
    ensures multiset(Since(table, cut)) <= multiset(table)
    ensures |Since(table, cut)| == |table| ==> Since(table, cut) == table
    ensures |Since(table, cut)| <= |table|
  {
    if |table| > 0 {
      SweptIsPart(table[..|table| - 1], cut);
      assert table == table[..|table| - 1] + [table[|table| - 1]];
    }
  }

  lemma {:induction false} BeforeIsOld(table: Rows, cut: Time)
    ensures forall r :: r in Before(table, cut) ==> r.createdAt < cut
  {
    if |table| > 0 {
      BeforeIsOld(table[..|table| - 1], cut);
    }
  }

  /** What a sweep keeps and drops, as multisets. */
  lemma SweepParts(table: Rows, cut: Time)
    ensures multiset(table) == multiset(Since(table, cut)) + multiset(Before(table, cut))
    ensures forall r :: r in multiset(Since(table, cut)) ==> r.createdAt >= cut
    ensures forall r :: r in multiset(Before(table, cut)) ==> r.createdAt < cut
  {
    PurgePartitions(table, cut);
    SinceKeeps(table, cut);
    BeforeIsOld(table, cut);
  }

  lemma MoreThan(a: multiset<Row<Event>>, b: multiset<Row<Event>>)
    requires a <= b && |b| <= |a|
    ensures a == b
  {
    assert b == a + (b - a);
    assert |b - a| == 0;
  }

  /** With 15 rows left, only rows that were left can be listed. */
  lemma ListedAreLeft(table: Rows, cut: Time, list: Rows)
    requires IsRecent(table, list) && |Since(table, cut)| >= RECENT_EVENTS_LIMIT
    ensures multiset(list) <= multiset(Since(table, cut))
  {
    var left, gone := multiset(Since(table, cut)), multiset(Before(table, cut));
    SweepParts(table, cut);
    SweptIsPart(table, cut);
    forall p | p in multiset(list)
      ensures multiset(list)[p] <= left[p]
    {
      if multiset(list)[p] > left[p] {
        assert p in gone;
        forall s | s in left
          ensures left[s] <= multiset(list)[s]
        {
          assert s in multiset(table) - multiset(list) ==> s.createdAt <= p.createdAt;
        }
        assert |multiset(list)| == |list| && |left| == |Since(table, cut)|;
        MoreThan(left, multiset(list));
      }
    }
  }

  lemma LeftStaysRecent(table: Rows, cut: Time, list: Rows)
    requires |Since(table, cut)| >= RECENT_EVENTS_LIMIT
    ensures IsRecent(table, list) <==> IsRecent(Since(table, cut), list)
  {
    if IsRecent(table, list) {
      ListedAreLeft(table, cut, list);
      RecentOfLeft(table, cut, list);
    }
    if IsRecent(Since(table, cut), list) {
      RecentOfAll(table, cut, list);
    }
  }

  lemma RecentOfLeft(table: Rows, cut: Time, list: Rows)
    requires |Since(table, cut)| >= RECENT_EVENTS_LIMIT && IsRecent(table, list)
    requires multiset(list) <= multiset(Since(table, cut))
    ensures IsRecent(Since(table, cut), list)
  {
    SweptIsPart(table, cut);
    var left, all, listed := multiset(Since(table, cut)), multiset(table), multiset(list);
    forall r, s | r in list && s in left - listed
      ensures s.createdAt <= r.createdAt
    {
      assert left[s] <= all[s];
      assert s in all - listed;
    }
  }

  lemma RecentOfAll(table: Rows, cut: Time, list: Rows)
    requires |Since(table, cut)| >= RECENT_EVENTS_LIMIT && IsRecent(Since(table, cut), list)
    ensures IsRecent(table, list)
  {
    SweepParts(table, cut);
    SweptIsPart(table, cut);
    var left, gone, listed := multiset(Since(table, cut)), multiset(Before(table, cut)), multiset(list);
    forall r, s | r in list && s in multiset(table) - listed
      ensures s.createdAt <= r.createdAt
    {
      assert r in listed;
      assert s in left - listed || s in gone;
    }
  }

  /**
   The recent events are the one section that a sweep can change whatever the
   range: the answers before and after are the same exactly when the sweep
   removed nothing or left a full list of rows.
   */
  lemma RecentEventsAndSweeps(table: Rows, cut: Time)
    ensures (forall list :: IsRecent(table, list) <==> IsRecent(Since(table, cut), list))
         <==> |Since(table, cut)| == |table| || |Since(table, cut)| >= RECENT_EVENTS_LIMIT
  {
    SweptIsPart(table, cut);
    if |Since(table, cut)| >= RECENT_EVENTS_LIMIT {
      forall list
        ensures IsRecent(table, list) <==> IsRecent(Since(table, cut), list)
      {
        LeftStaysRecent(table, cut, list);
      }
    } else if |Since(table, cut)| < |table| {
      var list := SomeRecent(table, cut);
      assert IsRecent(Since(table, cut), list);
      assert !IsRecent(table, list);
    }
  }

  /** Some list of recent events always exists. */
  lemma SomeRecent(table: Rows, cut: Time) returns (list: Rows)
    requires |Since(table, cut)| < RECENT_EVENTS_LIMIT
    ensures IsRecent(Since(table, cut), list)
  {
    list := NewestFirst(Since(table, cut));
    NewestFirstSorts(Since(table, cut));
  }

  function InsertNewest(sorted: Rows, r: Row<Event>): Rows {
    if |sorted| == 0 || sorted[|sorted| - 1].createdAt >= r.createdAt then sorted + [r]
    else InsertNewest(sorted[..|sorted| - 1], r) + [sorted[|sorted| - 1]]
  }

  function NewestFirst(rows: Rows): Rows {
    if |rows| == 0 then [] else InsertNewest(NewestFirst(rows[..|rows| - 1]), rows[|rows| - 1])
  }

  ghost predicate Falling(rows: Rows) {
    forall i, j :: 0 <= i < j < |rows| ==> rows[i].createdAt >= rows[j].createdAt
  }

  lemma {:induction false} InsertNewestKeeps(sorted: Rows, r: Row<Event>)
    ensures multiset(InsertNewest(sorted, r)) == multiset(sorted) + multiset{r}
  {
    if |sorted| > 0 && sorted[|sorted| - 1].createdAt < r.createdAt {
      InsertNewestKeeps(sorted[..|sorted| - 1], r);
      assert sorted == sorted[..|sorted| - 1] + [sorted[|sorted| - 1]];
    }
  }

  lemma FallingSnoc(rows: Rows, r: Row<Event>)
    requires Falling(rows) && forall x :: x in rows ==> x.createdAt >= r.createdAt
    ensures Falling(rows + [r])
  {
  }

  lemma {:induction false} InsertNewestFalls(sorted: Rows, r: Row<Event>)
    requires Falling(sorted)
    ensures Falling(InsertNewest(sorted, r))
  {
    if |sorted| > 0 && sorted[|sorted| - 1].createdAt < r.createdAt {
      var front, last := sorted[..|sorted| - 1], sorted[|sorted| - 1];
      InsertNewestFalls(front, r);
      forall x | x in InsertNewest(front, r)
        ensures x.createdAt >= last.createdAt
      {
        InsertNewestKeeps(front, r);
        assert x in multiset(InsertNewest(front, r));
      }
      FallingSnoc(InsertNewest(front, r), last);
    }
  }

  lemma {:induction false} NewestFirstSorts(rows: Rows)
    ensures Falling(NewestFirst(rows)) && multiset(NewestFirst(rows)) == multiset(rows)
    ensures |NewestFirst(rows)| == |rows|
  {
    if |rows| > 0 {
      var front, last := rows[..|rows| - 1], rows[|rows| - 1];
      NewestFirstSorts(front);
      InsertNewestFalls(NewestFirst(front), last);
      InsertNewestKeeps(NewestFirst(front), last);
      assert rows == front + [last];
      assert |multiset(NewestFirst(rows))| == |multiset(rows)|;
    }
  }
}
