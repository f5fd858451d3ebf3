# Limiters, sweeps and counters of the portfolio backend, in Dafny

A model of the time-driven state of the portfolio's backend and of its NOC
poller, with proofs over whole runs: what the rate limits really bound when
requests overlap, when nobody can tell that retention sweeps happen, when a
session is alive, how the dashboard's figures add up, and what the stored
request deltas are worth.

Time is one clock, in seconds, as a real number. A run is a `Trace` of steps,
the latest outermost; wherever the source has an `await` that matters, a request
is split into steps that interleave freely with everything else. Ids of requests
and sessions are fresh, digests are taken as injective, so a client is its
address. Methods of the classes `RateLimiter`, `Store`, `RequestMetrics` and
`Poller` update fields in place as the source does, and are proved equal to the
functions that the lemmas about runs use.

| file | models |
|---|---|
| `Prelude`, `Windows`, `Tables` | the clock, counting stamps in windows, rows and purges |
| `Admission` | check, wait, record: the pattern shared by all limiters |
| `SlidingWindow`, `Clients`, `Limiter` | `rate_limit_service.py`: one deque, the map and its eviction, the object |
| `FrontDoor`, `FrontDoorBounds`, `FrontDoorTight`, `RecordedKeys`, `Routes` | the contact and beacon routes on one shared limiter |
| `LoginLimiter`, `LoginRuns`, `LoginBounds`, `LoginTight`, `LoginSpacing`, `LoginSpacingTight` | the login limiter and `routes/auth.py` |
| `Events`, `EventRuns`, `EventBounds`, `EventTight`, `EventSpacingTight` | `record_event`, its two queries and the active visitors |
| `Sessions`, `SessionLookups`, `SessionHistory` | sessions, by whole lookups and with lookups in flight |
| `RetentionLoop`, `Backend`, `Database` | the sweeps, all tables together, the services that change rows |
| `Groups`, `Engagement`, `Dashboard`, `DashboardLaws`, `SectionLaws`, `ReportRuns` | `get_admin_analytics`, as one report and as queries among beacons and sweeps |
| `Regex`, `Metadata` | the wire schema of a beacon |
| `Counters`, `PollerRuns` | `RequestMetrics`, the middleware and `noc/monitor.py` |

## Main results

- **Overlap.** `Admission.OverlapBound` and its instances (contact, beacons per
  address, logins, events per session, duplicate page views): cap + k - 1 per
  window over every interleaving, k requests of a key overlapping. For every k a
  legal run of each service reaches its bound (`ContactBoundIsReached`,
  `FailureCapIsReached`, `SessionCapIsReached`, `ViewCapIsReached`), so the caps
  themselves hold exactly when k = 1, which beacons per address always have.
- **Invisible retention.** `Backend.RetentionIsInvisible`: erase the sweeps from
  any run and every answer stays, provided that dashboard queries and session
  renewals are punctual. Both provisos are exact: `ReportRuns` and
  `SessionLookups` say when they hold by themselves (ranges of up to 89 days for
  a day, renewals within an hour) and give a run for every way to miss them.
  `LongRangeLoses` and `RecentEventsAndSweeps` say exactly when longer ranges
  and the list of recent events notice.
- **Pruning.** `FrontDoor.AnswersFromFullHistory`: the pruned, evicted map of
  deques answers like a log that is never pruned.
- **Sessions.** With lookups in flight and any interleaving,
  `SessionHistory.OverlappingDecision` says exactly which lookups are accepted;
  when requests of the session follow each other this is decided by the gaps in
  its history (`LookupDecision`), and two families of runs show that overlapping
  ones break that form.
- **Spacing.** `FiveFailuresTakeTime` and `ViewsApart`, exact by `SpansExactly`
  and `GapsExactly`: which spans and gaps can occur for each lag.
- **Dashboard.** `Engagement.OnePassIsPerSession`, the conservation laws of
  `DashboardLaws`, top lists that no omitted entry beats, and every section in
  terms of the rows alone (`SectionLaws`, `DurationIsExact`, `FiguresAreExact`).
- **Answers in numbers.** `ContactAnswer`, `DecisionIsExact`, `DecisionsAreExact`
  and `SanitizedIsExact` pin each decision to the stamps, rows or characters it
  is made from.
- **Poller.** `PollerRuns.DeltasConserve`, `NothingMissing` and `DeltasTelescope`.

## Where the code and its descriptions differ

The model follows the code.

- The limits are described as caps per window. That holds for requests handled
  one at a time; with k of them overlapping, `FrontDoorTight`, `LoginTight` and
  `EventTight` have runs that exceed each cap by k - 1.
- A purge is described as shortening the window the dashboard can report on. The
  dashboard fixes its range once but queries one by one, so a purge in between
  can also make its parts contradict each other (`ReportRuns.SweepSplitsReport`):
  at 90 days from the moment it is opened, at fewer days only if it takes longer
  than the days left to 90.
- The grace period of the session sweep is described as protecting lookups in
  flight. It does for as long as it lasts (`SessionLookups.LateRenewalIsSeen`).
- `check` is called read-only. It inserts the key it looks at and prunes its
  deque, so the map may exceed its cap until the next `record`
  (`Clients.CheckMayExceedCap`).
- The announced wait is described as the seconds a caller must wait. It is
  truncated, so it falls up to a second short unless at most one second or a
  whole number was left (`SlidingWindow.WaitAloneSuffices`).
- The 60-second cap of the login backoff and the `None` for a missing last
  failure are never reached (`LoginLimiter.ClosedForm`), and a refusal can
  announce a wait of 0 seconds (`ZeroWait`).
- PostgreSQL stamps a row with the start of its transaction, which begins with
  the count query. The backoff and the duplicate check read the clock after
  that, so the spacings of `FiveFailuresTakeTime` and `ViewsApart` are stated
  less a `lag`, the time by which a row's stamp may precede that reading. They
  are 30 seconds in every run if and only if there is no lag
  (`ThirtySecondsNeedNoLag`, `HalfMinuteNeedsNoLag`).
- Sessions are described as renewed on activity. Of two lookups that overlap, the
  renewal written last counts, which may be the earlier one
  (`SessionHistory.CrossedRenewalsForget`), and a session refused meanwhile can
  come back (`RefusedSessionRevives`).
- A backend restart is described as one low-count sample. The errors of that
  sample may exceed its requests (`PollerRuns.ErrorsFit` says when).
- Visits without a referrer are shown as "direct". So is a visit whose client
  names "direct" as its host, which the host pattern admits
  (`DashboardLaws.FiledAsDirect`).
- A page view without a path is compared as `IS NULL`, so pathless views are
  duplicates of each other; the model's absent path equals itself.

## Model

| member | source | states |
|---|---|---|
| `Admission.OverlapBound` | backend/app/routes/contact.py:33-66 | over every run of check, suspend, record or give up, with at most k requests in between at a time, no window of any limit holds more than the cap and k - 1 records |
| `Admission.StepKeepsLoad` | backend/app/services/analytics_service.py:163-199 | the invariant behind it: what a window holds plus what may still get into it never exceeds cap + k - 1, whatever the step |
| `Admission.AtOnceKeepsLoad` | backend/app/routes/analytics.py:27-32 | the same for a request with no await between its check and its record |
| `Admission.OverlapBoundIsTight` | backend/app/routes/contact.py:33-66 | for one limit of any size and every k, some run reaches the bound; the modules named `Tight` show it for the services, whose limits combine |
| `Admission.LongStretch` | backend/app/services/auth_service.py:40-50 | a stretch shorter than n windows holds at most n times what one window may hold |
| `SlidingWindow.PruneUnseen` | backend/app/services/rate_limit_service.py:86-95 | popping the front of the deque changes no answer, neither whether nor how long to wait |
| `SlidingWindow.PruneIsExact` | backend/app/services/rate_limit_service.py:86-88 | exactly the leading stamps older than the longest window are popped |
| `SlidingWindow.LongestIsOne` | backend/app/services/rate_limit_service.py:86 | the longest window is the window of one of the limits |
| `SlidingWindow.DroppedUnseen` | backend/app/services/rate_limit_service.py:90-95 | stamps older than every window change no answer, whoever dropped them |
| `SlidingWindow.PassesWithRoom` | backend/app/services/rate_limit_service.py:90-97 | None is returned if and only if every limit counts fewer stamps than it permits |
| `SlidingWindow.RefusalHasLimit` | backend/app/services/rate_limit_service.py:90-95 | a wait comes from a limit that is full, and is the wait of that limit |
| `SlidingWindow.VerdictIsFirstFull` | backend/app/services/rate_limit_service.py:90-97 | stamp by stamp: the first limit in call order that is full refuses, with the whole seconds until the first stamp in its window leaves it, one at least; without a full one the request passes |
| `SlidingWindow.VerdictIsOne` | backend/app/services/rate_limit_service.py:90-97 | that answer is the only one |
| `Windows.CountAfterIsSize` | backend/app/services/rate_limit_service.py:91 | a count is the number of stamps after the cutoff |
| `SlidingWindow.RetryInRange` | backend/app/services/rate_limit_service.py:94-95 | a wait is at least 1 second and at most the window, and one second more outlasts the oldest counted stamp |
| `SlidingWindow.WaitSuffices` | backend/app/services/rate_limit_service.py:90-97 | one second more than announced is enough for a client whose count was at the cap |
| `SlidingWindow.WaitAloneSuffices` | backend/app/services/rate_limit_service.py:90-97 | for such a client the announced wait itself is enough if and only if at most one second, or a whole number of seconds, was left |
| `SlidingWindow.WaitAloneFails` | backend/app/services/rate_limit_service.py:95 | an input for which it is not: 289.5 seconds left, 289 announced |
| `Clients.InsertCut` | backend/app/services/rate_limit_service.py:72 | the sort is stable: a key goes behind every key seen no later |
| `Clients.SortedInOrder` | backend/app/services/rate_limit_service.py:72 | sorting by last stamp, 0 for an empty deque, returns every key once, oldest first, ties in insertion order |
| `Clients.EvictionDropsExcess` | backend/app/services/rate_limit_service.py:69-74 | an eviction leaves exactly the cap and drops exactly the excess |
| `Clients.VictimsOnce` | backend/app/services/rate_limit_service.py:73-74 | no key is dropped twice |
| `Clients.EvictionAt` | backend/app/services/rate_limit_service.py:73-74 | a key keeps its place and its stamps unless it is one of those dropped |
| `Clients.EvictionDropsOldest` | backend/app/services/rate_limit_service.py:72-74 | no dropped key was seen later than any key left |
| `Clients.SurvivesIffFewBehind` | backend/app/services/rate_limit_service.py:69-74 | a key survives if and only if fewer keys than the cap sort behind it |
| `Clients.NewestSurvives` | backend/app/services/rate_limit_service.py:100-102 | a key whose stamp is strictly newest is never dropped |
| `Clients.RecordKeepsKey` | backend/app/services/rate_limit_service.py:69-74 | a record keeps its own key even against equal stamps, because every key past the capacity was inserted by a check and has no stamps |
| `RecordedKeys.RecordedKeyStays` | backend/app/services/rate_limit_service.py:100-102 | in every run of both routes, a record made later than 0 leaves its key in the map with its stamp last |
| `RecordedKeys.RecordedIsRefused` | backend/app/routes/contact.py:33-66 | after every recorded message, sent or swallowed by the honeypot, its client is refused until 300 seconds later, in the state the record leaves |
| `RecordedKeys.RecordedKeyMayGo` | backend/app/services/rate_limit_service.py:69-74 | for every capacity there is a legal run in which a message delivered at 0 drops its own client, whom 0 ties with clients that have no stamps |
| `RecordedKeys.RecordsStayAfterZero` | backend/app/services/rate_limit_service.py:69-102 | so all records made at a moment keep their keys in all runs if and only if that moment is later than 0 |
| `Clients.CheckMayExceedCap` | backend/app/services/rate_limit_service.py:77-88 | a check keeps the map within its cap if and only if it knows the key or the map is not full |
| `Limiter.RateLimiter.constructor` | backend/app/services/rate_limit_service.py:61 | the map starts empty |
| `Limiter.RateLimiter.Check` | backend/app/services/rate_limit_service.py:77-97 | the answer is that of the first full limit about the whole deque as it was; the call leaves the key inserted and its deque pruned |
| `Limiter.RateLimiter.EvictIfOversized` | backend/app/services/rate_limit_service.py:69-74 | the delete loop leaves the map that deleting the oldest keys one by one leaves |
| `Limiter.RateLimiter.Record` | backend/app/services/rate_limit_service.py:100-102 | the stamp is appended, then the map is brought down to its capacity, which it never exceeds afterwards |
| `FrontDoor.AnswersFromFullHistory` | backend/app/services/rate_limit_service.py:77-102 | over every run of both routes, the pruned deques give the answers of the full, never pruned log since the key's last eviction, and stay sorted |
| `FrontDoor.ContactAnswer` | backend/app/services/rate_limit_service.py:77-97 | over every run, in numbers: a contact client with a record in the last 300 seconds is told when that window frees, otherwise one with 5 in the last 3600 when that one does, any other passes; a client at both caps is told the burst wait |
| `FrontDoor.BeaconAnswer` | backend/app/routes/analytics.py:20-32 | the same for beacons: 300 in the last 60 seconds |
| `FrontDoor.StepAgrees` | backend/app/services/rate_limit_service.py:77-102 | every step keeps deque and log apart only by stamps too old for any limit of the scope |
| `FrontDoor.MarkAt` | backend/app/services/rate_limit_service.py:100-102 | a record reaches its own key, may make any key be forgotten, and touches no other |
| `FrontDoorBounds.OverlapBound` | backend/app/routes/contact.py:33-66 | over every interleaving with at most n requests of a client in between, no window holds more than the cap and n - 1 of its records, honeypot records included |
| `FrontDoorBounds.ContactCaps` | backend/app/routes/contact.py:33-66 | one at a time: at most 1 record in 5 minutes and 5 in an hour |
| `FrontDoorTight.ContactBoundIsReached` | backend/app/routes/contact.py:33-66 | for every k there is a legal run with at most k requests of a client in between that records 1 + k - 1 messages in 5 minutes, and one that records 5 + k - 1 in an hour |
| `FrontDoorTight.CrowdPasses` | backend/app/routes/contact.py:33-66 | from any state of any run that overlapped by at most k, with none of the client's messages waiting and room for it in the map: if one message would pass, k pass at once |
| `FrontDoorBounds.BeaconsNeverWait` | backend/app/routes/analytics.py:27-32 | a beacon is never between check and record |
| `FrontDoorBounds.BeaconCap` | backend/app/routes/analytics.py:20-35 | whatever the interleaving and the session ids, at most 300 beacons of an address pass in any 60 seconds |
| `FrontDoorTight.BeaconCapIsReached` | backend/app/routes/analytics.py:20-35 | some run records 300 beacons of one address in 60 seconds |
| `FrontDoorBounds.QuietWaitSuffices` | backend/app/routes/contact.py:39-44 | a refused client that sends one request at a time and stays quiet for r + 1 seconds is not refused by that limit again, where r is between 1 and the window |
| `FrontDoorBounds.RefusalEnds` | backend/app/routes/contact.py:39-44 | so does the check itself, in any later state of any run in which nothing of the client was recorded meanwhile |
| `Routes.SubmitContactMessage` | backend/app/routes/contact.py:18-67 | 503, 429, honeypot, 422, 502 and sent: exactly when each is the answer; an accepted message is recorded, any other only looked at; and the map is the one that the steps of the run leave |
| `Routes.MessageIsSteps` | backend/app/routes/contact.py:33-66 | check, honeypot, delivered and not delivered, step by step among any other requests: what they leave in the map and in flight |
| `Routes.AdmitBeacon` | backend/app/routes/analytics.py:20-32 | testing the wait for truth passes exactly the beacons that the limiter passes |
| `Routes.RequestsAreSteps` | backend/app/routes/analytics.py:27-32 | an undisturbed request does to the map what its steps in a run do |
| `Tables.PurgeUnseen` | backend/app/services/retention_service.py:53-73 | a purge is invisible to every query that looks back no further |
| `Tables.PurgePartitions` | backend/app/services/retention_service.py:53-73 | a purge keeps and removes the whole table between them, row for row |
| `Tables.SinceIsExact` | backend/app/services/retention_service.py:53-73 | row for row, exactly what was created at the cutoff or later is kept |
| `Tables.PurgeSplits` | backend/app/services/retention_service.py:53-73 | a query after a purge lacks as many rows as were purged from its range, and nothing at all if none were |
| `LoginLimiter.ClosedForm` | backend/app/services/auth_service.py:35-74 | refused if and only if 5 failures are counted, or some are and less than 2^n seconds passed since the last; the None fallback and the cap of 60 are never met |
| `LoginLimiter.DecisionIsExact` | backend/app/services/auth_service.py:35-74 | row by row: 5 failures in 900 seconds refuse for 900, n of them for 2, 4, 8 or 16 seconds since the newest, announced without the fraction, and none pass |
| `LoginLimiter.DecisionIsOne` | backend/app/services/auth_service.py:35-74 | that decision is the only one |
| `LoginLimiter.WaitIsExact` | backend/app/services/auth_service.py:51-74 | an announced wait r is 900 at the hard cap and otherwise at most what is left of the backoff, by less than a second |
| `LoginLimiter.PermissionPersists` | backend/app/services/auth_service.py:35-74 | an allowed attempt stays allowed until something fails |
| `LoginLimiter.WaitSuffices` | backend/app/services/auth_service.py:35-74 | one second more than the announced wait is enough, whichever rule refused |
| `LoginLimiter.ZeroWait` | backend/app/services/auth_service.py:71-74 | a refusal announces 0 seconds if and only if n failures are counted, 0 < n < 5, and more than 2^n - 1 but less than 2^n seconds passed since the last |
| `LoginLimiter.RefusedWithNoWait` | backend/app/services/auth_service.py:71-74 | inputs for which it does: any moment of the second second after a first failure |
| `LoginRuns.SweepsUnseen` | backend/app/services/auth_service.py:35-79 | sweeps inserted anywhere into any run of overlapping logins change no answer |
| `LoginRuns.SameBackoff` | backend/app/services/auth_service.py:59-74 | the last-failure query has no time bound, yet rows swept after 30 days cannot change its outcome |
| `LoginBounds.FailureCap` | backend/app/routes/auth.py:23-34 | over every interleaving, no closed 15 minutes hold more than 5 + k - 1 failures of an address, swept rows counted |
| `LoginBounds.FailuresInStretch` | backend/app/routes/auth.py:23-34 | T seconds hold at most (5 + k - 1) times T/900 rounded down plus one |
| `LoginTight.FailureCapIsReached` | backend/app/routes/auth.py:23-34 | for every k there is a legal run with at most k requests of an address in between and 5 + k - 1 failures in 15 minutes, backoff and all |
| `LoginSpacing.FiveFailuresTakeTime` | backend/app/services/auth_service.py:53-79 | one request at a time: five failures within 15 minutes span at least 2 + 4 + 8 + 16 seconds, less 4 times the lag between a row's stamp and its backoff reading |
| `LoginSpacing.SpacedSnoc` | backend/app/services/auth_service.py:71-79 | each recorded failure keeps the distance of its backoff to the one before |
| `LoginSpacingTight.SpansExactly` | backend/app/services/auth_service.py:53-79 | with a lag of at most 2 seconds, five failures in 15 minutes span a given time in some legal run of single requests if and only if it is at least 30 seconds less 4 lags |
| `LoginSpacingTight.ThirtySecondsNeedNoLag` | backend/app/services/auth_service.py:53-79 | so they take 30 seconds in every such run if and only if no stamp precedes its backoff reading |
| `EventRuns.SweepsUnseen` | backend/app/services/analytics_service.py:126-227 | sweeps inserted anywhere, also between two queries of a dashboard, change no answer of the beacon service, the active visitor count or any dashboard query made while no row of its range has been swept |
| `EventRuns.DecisionsAreExact` | backend/app/services/analytics_service.py:126-147 | row by row: the count is of the session's rows of the last 60 seconds, a duplicate is a page view of the session with the same path, or none, in the last 30 |
| `ReportRuns.SectionsTellSweeps` | backend/app/services/analytics_service.py:394-504 | at any moment of any run all queries of a dashboard answer as without sweeps if and only if no sweep removed a row of its range, and the total of events alone tells |
| `ReportRuns.PromptIsInTime` | backend/app/services/analytics_service.py:394-395 | a range of d days is out of reach of every sweep for 90 - d days after the dashboard fixed its start |
| `ReportRuns.SweepSplitsReport` | backend/app/services/analytics_service.py:394-409 | whenever a sweep reaches into the range of an open dashboard, at 90 days at any time after it was opened, there is a legal run in which it shows one event in total and none of any type |
| `ReportRuns.QuietReportIsSnapshot` | backend/app/services/analytics_service.py:394-504 | with nothing stored or swept between its queries, a dashboard is one report of the table as it was, to which the laws below apply |
| `ReportRuns.QueryIsOfItsMoment` | backend/app/services/analytics_service.py:394-504 | with anything in between, each query answers as a report of the table of its own moment would |
| `ReportRuns.ActiveIsExact` | backend/app/services/analytics_service.py:210-227 | at any moment of a run the active visitors shown are the sessions with a row of the last 300 seconds |
| `ReportRuns.CountersLieBetween` | backend/app/services/analytics_service.py:397-418 | with beacons in between and no sweep of the range, every counter lies between its values when the dashboard was opened and at any later end |
| `EventBounds.SessionCap` | backend/app/services/analytics_service.py:126-164 | over every interleaving, no closed minute holds more than 60 + k - 1 rows of a session, swept rows counted |
| `EventTight.SessionCapIsReached` | backend/app/services/analytics_service.py:126-164 | for every k there is a legal run with at most k requests of a session in between that stores 60 + k - 1 of its rows in a minute |
| `EventBounds.ViewCap` | backend/app/services/analytics_service.py:134-170 | k overlapping requests store at most k views of one page in any 30 seconds, less the lag |
| `EventTight.ViewCapIsReached` | backend/app/services/analytics_service.py:134-170 | for every k there is a legal run with at most k requests of a session in between that stores k views of one page at once |
| `EventBounds.ViewsApart` | backend/app/services/analytics_service.py:134-170 | one at a time: two stored views of one page, or of no page, are more than 30 seconds apart, less the lag |
| `EventSpacingTight.GapsExactly` | backend/app/services/analytics_service.py:134-170 | two views of one page are stored a given time apart in some legal run of single requests if and only if it is more than 30 seconds less the lag |
| `EventSpacingTight.HalfMinuteNeedsNoLag` | backend/app/services/analytics_service.py:134-170 | so they are more than 30 seconds apart in every such run if and only if no stamp precedes its duplicate check |
| `EventBounds.RecordedIffStored` | backend/app/services/analytics_service.py:160-200 | the answer is recorded exactly when one row was added |
| `SessionHistory.LookupDecision` | backend/app/services/auth_service.py:98-115 | with lookups in flight, and requests of the one session following each other: a lookup is accepted if and only if the session was created, not logged out, and its creation and all lookups since are each at most 24 hours after the one before |
| `SessionHistory.RenewalYieldsOwner` | backend/app/services/auth_service.py:110-115 | an accepted lookup yields the owner, however late its renewal is written, as long as that is within the grace period or finds the row |
| `SessionHistory.StepAgrees` | backend/app/services/auth_service.py:98-124 | the invariant behind both: table and lookup in flight against the history, kept by every step of any session and every sweep |
| `SessionHistory.ExpiryIsDayAfterLast` | backend/app/services/auth_service.py:89-115 | under the same condition a stored session expires 24 hours after its creation or last lookup |
| `SessionHistory.ExpiryIsDayAfterLastWritten` | backend/app/services/auth_service.py:110-114 | with no condition: it expires 24 hours after the clock reading of the renewal written last |
| `SessionHistory.OverlappingDecision` | backend/app/services/auth_service.py:98-124 | however the requests of the session overlap, with renewals within the grace period: a lookup is accepted if and only if the session was created, deleted neither by a logout nor by a late lookup, and last written at most 24 hours before, by whichever renewal came last |
| `SessionHistory.RefusedForever` | backend/app/services/auth_service.py:98-115 | under the same condition a created session that is refused once is refused ever after |
| `SessionHistory.CrossedRenewalsForget` | backend/app/services/auth_service.py:98-115 | without it, for any two overlapping lookups whose renewals are written in reverse, every lookup in the time between their two expiries is refused though the history is alive |
| `SessionHistory.RefusedSessionRevives` | backend/app/services/auth_service.py:98-115 | without it, a session refused while an accepted lookup still has to write is accepted again |
| `SessionHistory.WholeLookupDecision` | backend/app/services/auth_service.py:98-115 | lookups that run from check to write undisturbed meet the condition by themselves |
| `SessionLookups.SweepsUnseen` | backend/app/services/auth_service.py:98-115 | with lookups taken apart into check and write, sweeps inserted anywhere change no answer, as long as each renewal is written within the grace period of its check |
| `SessionLookups.FreshStill` | backend/app/services/auth_service.py:105-112 | the invariant behind it: a row that is about to be renewed does not expire before the moment it was checked |
| `SessionLookups.LateRenewalIsSeen` | backend/app/services/retention_service.py:43-46 | for every longer delay there is a legal run in which the sweep turns an accepted lookup into an error, so the grace period is exact |
| `SessionLookups.ExpandedRun` | backend/app/services/auth_service.py:98-115 | every run of whole lookups is a run of lookups taken apart in which nothing comes in between |
| `Backend.RetentionIsInvisible` | backend/app/services/retention_service.py:91-103 | the three tables together: for every run every answer is the answer of the same run without any sweep, provided that no dashboard query follows a sweep that reaches into its range and every renewal is written within the grace period |
| `Backend.PartsAreRuns` | backend/app/services/retention_service.py:91-103 | a run of the whole is legal exactly when its part on each table is a legal run of the module about that table, however they interleave, and it leaves the tables those leave; so their bounds hold in it |
| `Backend.PunctualParts` | backend/app/services/retention_service.py:91-103 | a run of the whole is punctual exactly when its dashboards and its renewals are, each on their own table |
| `Backend.PartsAnswer` | backend/app/services/retention_service.py:91-103 | every request is answered from its own table, whatever happened to the other two |
| `Backend.SweepsComeAnyTime` | backend/app/main.py:38-54 | a sweep of any table is legal at any moment of any run, so the runs that retention is invisible in include every schedule of sweeps |
| `Backend.ErasedIsExact` | backend/app/services/retention_service.py:91-103 | the run without sweeps has every other step as often as before, and no sweep |
| `Backend.RepliesAreExact` | backend/app/services/retention_service.py:91-103 | every step but a sweep has its answer in the list of replies, in order |
| `RetentionLoop.NoRowOutlivesRetention` | backend/app/main.py:45-54 | at every moment up to the next sweep, no row is older than the retention, one interval, and one more for each failed sweep since the last good one |
| `RetentionLoop.RetentionKept` | backend/app/main.py:38-54 | with sweeps that succeed, no row is ever older than the retention plus one interval after startup |
| `RetentionLoop.BoundIsReached` | backend/app/main.py:38-54 | the bound is exact: for every number of failed sweeps some run keeps a row for the retention plus that many intervals and one |
| `RetentionLoop.TickIsExact` | backend/app/main.py:38-54 | a sweep that succeeds keeps each row within its retention as often as before and no other, a failed one keeps all |
| `RetentionLoop.TablesAreBounded` | backend/app/main.py:38-54 | with the default interval and sweeps that succeed: no event older than 91 days, no login attempt older than 31, no session stored for more than 25 hours past its expiry |
| `Database.Store.PurgeAnalyticsEvents` | backend/app/services/retention_service.py:53-65 | row for row, keeps exactly what is at most 90 days old and reports the number of the rest |
| `Database.Store.PurgeLoginAttempts` | backend/app/services/retention_service.py:68-73 | the same for login attempts and 30 days |
| `Database.Store.PurgeExpiredSessions` | backend/app/services/retention_service.py:76-88 | keeps exactly the sessions that expired at most an hour ago or not at all, unchanged, and reports the number of the rest |
| `Database.SweepsArePurges` | backend/app/services/retention_service.py:53-88 | the sweep steps of the runs remove what these purges remove |
| `Database.Store.PurgeAll` | backend/app/services/retention_service.py:91-103 | reported and remaining rows of each table add up to the rows before |
| `Database.Store.RecordLoginAttempt` | backend/app/services/auth_service.py:77-79 | one row is added and nothing else changes |
| `Database.Store.CreateSession` | backend/app/services/auth_service.py:89-95 | the session expires 24 hours after it is created |
| `Database.Store.GetSessionUser` | backend/app/services/auth_service.py:98-115 | unknown, expired and live sessions: the answer and what becomes of the row |
| `Database.Store.DeleteSession` | backend/app/services/auth_service.py:118-124 | the session is gone, known or not |
| `Database.Store.LimitLogins` | backend/app/services/auth_service.py:35-74 | the branches compute the decision that the lemmas are about, which is also given row by row |
| `Database.Store.Login` | backend/app/routes/auth.py:15-48 | refused, wrong password, right password: which answer, which rows, and nothing else |
| `Database.Store.RecordEvent` | backend/app/services/analytics_service.py:149-200 | which of the three answers, in numbers; when recorded, exactly one row is added, with the payload in its columns, the hash under `ip_hash`, the class under `device_class`, and the metadata but for `ref`, which is the referrer |
| `Database.RowRebuilds` | backend/app/services/analytics_service.py:182-196 | such a row holds the sanitised metadata exactly |
| `Database.PathIsStored` | backend/app/services/analytics_service.py:166-192 | moving `ref` to its column leaves the compared path and the stored path equal |
| `Database.StepsAreLogin` | backend/app/routes/auth.py:23-37 | the suspended steps of an undisturbed login decide as the whole check does, announce the same wait, and add the one row of its outcome |
| `Database.StepsAreRecordEvent` | backend/app/services/analytics_service.py:160-200 | the suspended steps of an undisturbed beacon store its row under the condition of the whole call |
| `Engagement.OnePassIsPerSession` | backend/app/services/analytics_service.py:230-258 | one accumulator per session, updated in one pass, holds the aggregates of the per-session query, for every sequence of events |
| `Engagement.RecordsCoverEvents` | backend/app/services/analytics_service.py:244-258 | there is one record per session, and between them they count every event and every page view once |
| `Engagement.AveragesConserve` | backend/app/services/analytics_service.py:260-285 | the two averages per session divide the totals over all events by the sessions |
| `Engagement.AverageTimesCount` | backend/app/services/analytics_service.py:267-275 | an average times its count is the total again, also over nothing |
| `Engagement.FiguresInRange` | backend/app/services/analytics_service.py:264-285 | bounced and returning sessions together are at most all sessions, and the average duration lies between 0 and the range |
| `Engagement.FiguresAreExact` | backend/app/services/analytics_service.py:260-285 | session by session: the bounce rate counts the sessions whose only event is a page view, returning counts those with events on two days, and the two averages divide all events and all page views by the sessions |
| `Engagement.DurationIsExact` | backend/app/services/analytics_service.py:264-275 | the average duration is the mean, over the sessions of more than one event, of the time from the earliest to the newest of its events |
| `Events.OfSessionIsExact` | backend/app/services/analytics_service.py:244-258 | row for row, the events of a session |
| `Events.OfTypeIsExact` | backend/app/services/analytics_service.py:203-207 | row for row, the events of a type |
| `Events.DayAndHour` | backend/app/services/analytics_service.py:386 | a moment lies in its day and in its hour of that day |
| `Groups.TallyExact` | backend/app/services/analytics_service.py:321-326 | each key forms one group, whose count is the number of its rows |
| `Groups.TallyTotal` | backend/app/services/analytics_service.py:321-326 | grouping loses no row and counts none twice |
| `Groups.ZeroFillTotal` | backend/app/services/analytics_service.py:327-330 | zero-filling over a covering domain keeps the total |
| `Groups.TopIsHighest` | backend/app/services/analytics_service.py:307-309 | a limited list is in descending order and nothing cut off outranks anything listed |
| `Groups.BreakdownAt` | backend/app/services/analytics_service.py:321-330 | a zero-filled list has the domain in order, each with the number of its rows |
| `Groups.RankedOfData` | backend/app/services/analytics_service.py:360-367 | an unlimited list has one group per key that occurs, with the number of its rows |
| `Groups.RankedTotal` | backend/app/services/analytics_service.py:364 | ordering keeps the total |
| `DashboardLaws.EventsConserved` | backend/app/services/analytics_service.py:314-330 | the event breakdown, the 24 hours and the seven counters each sum to the number of events |
| `DashboardLaws.HoursTotal` | backend/app/services/analytics_service.py:378-391 | all 24 buckets together hold every event |
| `DashboardLaws.ViewsConserved` | backend/app/services/analytics_service.py:427-449 | the timeseries is in order and its page views sum to all page views |
| `DashboardLaws.SessionsConserved` | backend/app/services/analytics_service.py:333-375 | the device breakdown and the unlimited referrers both sum to the sessions that have a measured row |
| `DashboardLaws.SessionListIsSet` | backend/app/services/analytics_service.py:411-418 | listing sessions once each and counting distinct ones agree |
| `DashboardLaws.UniqueSessionsAmongAll` | backend/app/services/analytics_service.py:239-242 | the summary's unique sessions are at most the sessions of the averages |
| `DashboardLaws.VisitFiledOnce` | backend/app/services/analytics_service.py:336-339 | a visit that names one host in any of its rows is filed under it, and one that names none is filed as direct |
| `DashboardLaws.FiledAsDirect` | backend/app/services/analytics_service.py:370-371 | a visit is filed as direct if and only if none of its rows names a host, or the largest it names is the host "direct" |
| `DashboardLaws.DirectCanBeNamed` | backend/app/schemas/analytics.py:79 | a client may name that host, and is then filed as direct |
| `DashboardLaws.MaxReferrerIsMax` | backend/app/services/analytics_service.py:336-339 | the referrer of a visit is the largest host any of its rows names |
| `DashboardLaws.TopPagesAreTop` | backend/app/services/analytics_service.py:289-311 | a listed page has all its views counted, and no page left out has more |
| `DashboardLaws.TopProjectsAreTop` | backend/app/services/analytics_service.py:451-470 | the same for projects, under their title or else their slug |
| `DashboardLaws.SweepKeepsReport` | backend/app/services/retention_service.py:53-65 | a sweep before a dashboard is opened changes none of its sections but the recent events, for every range of up to 90 days |
| `SectionLaws.CountersAreExact` | backend/app/services/analytics_service.py:397-418 | the counters of the summary: all events, those of each type, and the distinct sessions with a page view |
| `SectionLaws.LanguagesAreExact` | backend/app/services/analytics_service.py:420-425 | a language is listed if and only if a page was viewed in it, with the distinct sessions that did |
| `SectionLaws.ActiveVisitorsAreExact` | backend/app/services/analytics_service.py:210-227 | the distinct sessions with an event in the last 300 seconds |
| `SectionLaws.BreakdownIsExact` | backend/app/services/analytics_service.py:314-330 | every type in order with the number of its events |
| `SectionLaws.HoursAreExact` | backend/app/services/analytics_service.py:378-391 | every hour with the number of events in it |
| `SectionLaws.TimeseriesIsExact` | backend/app/services/analytics_service.py:427-449 | each point counts the page views of its bucket, their distinct sessions, and the distinct addresses of all its events |
| `SectionLaws.TimeseriesIsComplete` | backend/app/services/analytics_service.py:427-449 | every bucket with an event has a point |
| `SectionLaws.PageSessionsAreExact` | backend/app/services/analytics_service.py:299-311 | the sessions of a listed page are those that viewed it |
| `SectionLaws.ProjectViewsAreExact` | backend/app/services/analytics_service.py:451-470 | the views of a listed project are the project views with its slug, and no slug left out has more |
| `SectionLaws.DeviceIsLargest` | backend/app/services/analytics_service.py:333-358 | a measured session has the largest of its device classes |
| `SectionLaws.DevicesAreExact` | backend/app/services/analytics_service.py:360-367 | a device is listed if and only if a measured session is on it, with the number of those sessions |
| `SectionLaws.ReferrersAreTop` | backend/app/services/analytics_service.py:369-375 | a listed host has all its measured sessions counted, and none left out has more |
| `SectionLaws.AtMostIsLexicographic` | backend/app/services/analytics_service.py:333-358 | the order of the maxima: a prefix comes first, otherwise the first difference decides |
| `DashboardLaws.LongRangeLoses` | backend/app/services/retention_service.py:53-65 | a range of 90 days or more changes if and only if it holds a row past the retention |
| `DashboardLaws.RecentEventsAndSweeps` | backend/app/services/analytics_service.py:472-480 | the recent events are the same before and after a sweep if and only if it removed nothing or left 15 rows |
| `Counters.RequestMetrics.constructor` | backend/app/middleware/metrics.py:11-12 | both counters start at zero |
| `Counters.RequestMetrics.Handle` | backend/app/middleware/metrics.py:28-44 | a finished call counts once, and as an error if and only if the last status it sent is 500 or more; a call that raises counts not at all |
| `Counters.Poller.constructor` | noc/monitor.py:62-63 | nothing is remembered at first |
| `Counters.Poller.CheckBackendMetrics` | noc/monitor.py:86-117 | growth for a counter that did not shrink, zero for one seen first or reset, nothing for one missing, and what is remembered; a failed poll changes nothing |
| `Counters.Poller.RunCycle` | noc/monitor.py:145-180 | one sample per cycle whose insert succeeds; the memory moves on either way |
| `PollerRuns.DeltasConserve` | noc/monitor.py:99-117 | over any run with restarts, failed polls and failed inserts, for requests and errors alike: no delta and no loss is negative, what was counted is the deltas, what restarts and new baselines passed over and what is still to come, and what is stored never exceeds it |
| `PollerRuns.ReadSplits` | noc/monitor.py:99-117 | a poll splits what is new since the last one into the delta and what it passes over: all of it when it only sets a baseline, the old baseline when it mistakes a new incarnation for the old one |
| `PollerRuns.NothingMissing` | noc/monitor.py:99-117 | the stored samples report everything if and only if no restart came upon anything not yet polled, no poll only set a baseline or mistook an incarnation, no delta failed to be inserted, and the last poll saw everything |
| `PollerRuns.StepSound` | noc/monitor.py:99-117 | the invariant behind them, and that losses only grow |
| `PollerRuns.DeltasTelescope` | noc/monitor.py:99-117 | within one incarnation the deltas of each counter sum to its last reading minus its first despite failed polls, and no errors delta exceeds its requests delta |
| `PollerRuns.PollIsCycle` | noc/monitor.py:99-117 | a step that reaches the backend yields the poller's sample and leaves its memory |
| `PollerRuns.StepsAreObjects` | noc/monitor.py:62-115 | a call counts as the middleware counts it, a backend starts at zero, a poller with no memory; the first poll after that yields zero and passes over what no poll had seen |
| `PollerRuns.PollAligns` | noc/monitor.py:102-115 | every poll that reaches the backend starts such a stretch |
| `PollerRuns.ErrorsMayExceedRequests` | noc/monitor.py:104-115 | a run in which they do not, after an unnoticed restart |
| `PollerRuns.ErrorsFit` | noc/monitor.py:104-115 | after any restart, noticed or not: errors fit within requests if and only if the errors counter did not grow or the difference of the two counters did not shrink |
| `Regex.RepeatedClass` | backend/app/schemas/analytics.py:63-98 | a bounded repetition of a character class is a length and a character class |
| `Metadata.PathClosedForm` | backend/app/schemas/analytics.py:63 | what the path pattern matches in full, without the pattern |
| `Metadata.LocaleClosedForm` | backend/app/schemas/analytics.py:67 | the same for locale codes |
| `Metadata.LinkClosedForm` | backend/app/schemas/analytics.py:70 | the same for link tokens |
| `Metadata.HostClosedForm` | backend/app/schemas/analytics.py:79 | the same for hosts: 1 to 253 characters, first and last a letter or digit |
| `Metadata.SessionIdClosedForm` | backend/app/schemas/analytics.py:93 | the same for session ids |
| `Metadata.SlugClosedForm` | backend/app/schemas/analytics.py:98 | the same for project slugs |
| `Metadata.LettersAreExact` | backend/app/schemas/analytics.py:67-70 | the letters and digits of the patterns, character by character |
| `Metadata.PathCharsAreExact` | backend/app/schemas/analytics.py:63 | the characters of a path, one by one |
| `Metadata.HostCharsAreExact` | backend/app/schemas/analytics.py:79 | the characters of a host |
| `Metadata.StripPathLongest` | backend/app/schemas/analytics.py:101-110 | the cleaned path is the longest prefix without a query or fragment mark |
| `Metadata.SanitizeMetadata` | backend/app/schemas/analytics.py:113-145 | the loop over the allowlist keeps exactly the allowed, well-shaped values, and nothing rather than an empty object |
| `Metadata.SanitizedIsClean` | backend/app/schemas/analytics.py:113-145 | what survives is never empty, has only allowlisted keys, and every value matches its pattern in full |
| `Metadata.SanitizedIsComplete` | backend/app/schemas/analytics.py:142-143 | for every allowlisted key, a value of the right shape is never dropped or changed |
| `Metadata.SanitizedIsExact` | backend/app/schemas/analytics.py:101-145 | key by key, a value is in the result if and only if it is the sent one, cut at the first query or fragment mark for `path` and in lower case for `ref`, and matches the pattern of its key |
| `Metadata.SanitizedTwice` | backend/app/schemas/analytics.py:113-145 | sanitising is idempotent |
| `Metadata.StoredRebuilds` | backend/app/services/analytics_service.py:182-196 | stored metadata and `referrer_host` together rebuild the sanitised metadata exactly |
| `Metadata.IdentifiersBounded` | backend/app/schemas/analytics.py:155-173 | an identifier passes unchanged exactly when its pattern matches in full |

## Left out

- SMTP, SQL, HTTP probes and password hashing: their outcomes are parameters of the steps and methods.
- User-Agent patterns, daily address hashes and token generation: a beacon arrives with its class and hash, a session with a fresh id.
- Resolving the client's address and guarding the admin surface: library code and a short branch table.
- Writes that fail halfway: each query and each write is one step and takes effect at once, and a request that ends early ends between two of them. A logout is one step, though the source selects before it deletes.
- SessionHistory.LookupDecision: the form by gaps in the history is for requests of a session that follow each other; `OverlappingDecision` covers the others. Selecting the row and reading the clock are one step.
- DashboardLaws.EventsConserved: the sections of one report add up when they read the same rows; with beacons in between each section is right for its own moment (`ReportRuns.QueryIsOfItsMoment`) and they need not add up.
- Deleting users, and the `project_id` lookup of a beacon: no route deletes users, and no answer depends on the id.
- Services, targets, host resources and the purge of the poller's own samples: plain probes and one more purge of the kind modelled.
- `oldest_row_ages`, project, skill and certification listings, network-health history: plain queries, easy members only.
- Floating-point rounding, and clock differences between application and database: exact arithmetic, one clock.
- Ties in `ORDER BY` under a limit: the model keeps tied groups in order of first appearance; for recent events every order of equal times is admitted.
- Text order of `max()` and `date_trunc`: code point order stands for the collation, days and hours are UTC, and the timeseries takes its calendar as a parameter.
- Non-ASCII lower case: only characters whose lower case can match the host pattern are folded, which are A to Z and the Kelvin sign.
- FrontDoor.AnswersFromFullHistory: the log restarts when a key is evicted, because the limiter then forgets the client; each scope always passes the same limits, as both routes do.
- FrontDoorBounds.BeaconCap: windows are open on the left and closed on the right, as the limiter's comparison is; it counts from the last eviction of the address.
- FrontDoorTight.ContactBoundIsReached: needs a map of at least one client, as the service's of 10,000 is.
- RetentionLoop.RetentionKept: assumes that no row is already past its retention when it is inserted and that a sweep takes no time.
