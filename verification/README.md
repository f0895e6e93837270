# A verified model of PGSentinel's core logic

PGSentinel watches PostgreSQL servers, keeps findings about them, groups findings into incidents,
notifies operators and retains metric history. This project models the five parts of it whose
correctness is not visible from one function, and proves what they keep over all inputs and all runs.

| file | part |
|---|---|
| `Order.dfy`, `Models.dfy` | Go's string order, the contracts of the `sort` package, findings |
| `Correlation.dfy` | which findings are related, the greedy grouping and what every step of it keeps |
| `Correlator.dfy` | the union-find with path compression, spans and reasons, and the pair loop |
| `Correlate.dfy` | the incident list, and the theorems about it |
| `Components.dfy` | when the documented connected components are the incidents |
| `IncidentStore.dfy` | reconciling stored incidents with a new correlation, rebuilds overlapping |
| `MetricRetention.dfy`, `MetricHistory.dfy` | rolling raw samples into two bucket tiers; reading history thinned to a limit |
| `FindingLifecycle.dfy`, `Routing.dfy`, `Outbox.dfy`, `FindingStore.dfy` | upserting and resolving findings, routing, the notification outbox and the dispatcher |
| `OutboxSafety.dfy` | the outbox protocol over every interleaving |
| `Baseline.dfy`, `QueryRegression.dfy` | the median/MAD detector and the reset-aware window over cumulative counters |
| `LoginLimiter.dfy`, `PasswordChange.dfy`, `Thresholds.dfy` | login rate limiting, password changes under a mutex, threshold overrides |

Conventions. A transaction is one atomic step, and a method that runs one is proved equal to a
function on the tables; lemmas then say what that function, and runs of it, guarantee. Times are whole
seconds, where the stored RFC 3339 strings sort like the times they denote. Floating point is modelled
by reals. SHA-256 and Argon2 are taken as injective, UUIDs as never repeating, case folding as ASCII.
Go's random map iteration is an arbitrary choice of the next key, so every result proved is
independent of it. A run is a sequence of states, each following from the one before it by a step.

Where the code and the documentation disagree, the code is modelled:

- `docs/architecture.md` says that connected components become incidents. `Correlate` refuses a merge
  that would span more than fifteen minutes, so a component can be split (`ComponentCanBeSplit`). A
  component of the documented graph ends as one group, and from two findings on as one incident, exactly
  when it spans at most fifteen minutes (`ComponentIsGroup`, `ComponentIsIncident`); a group never leaves
  its component (`GroupsRefineComponents`).

Results that differ from what one might expect:

- A server's open findings after `UpsertFindings` are the input's only if every fingerprint of the input
  names a row of that server (`OpenFindingsAfter` gives both directions, `ForeignFingerprintStaysForeign`
  the counterexample).
- Repeating the same `UpsertFindings` call can report a severity increase when the input names one
  fingerprint twice with different severities; it is silent exactly when findings that share a
  fingerprint share a severity rank (`SecondCallIsQuiet`).
- `UpsertFindings` fails as a whole when a finding to be reported carries another id than the row of its
  fingerprint, because its notification event refers to the findings table (`OtherIDFails`). What the
  analyzer produces has its fingerprint as id and is always accepted (`CollectorIsAccepted`).
- The fixed-window login limiter grants at most `2 * maxAttempts - 1` attempts in any span of one window's
  length, and some run reaches that bound unless the window is a single clock tick and several attempts
  are allowed (`LimiterOverAllRuns`, `SpanBoundIsReached`).
- Only the first two hundred threshold overrides of the listing are read. Creating one stops there, but a
  rule profile applied to many tags does not: an override takes effect exactly when fewer than two hundred
  rows are listed before it, and fourteen rules on sixteen tags already silence the last rule everywhere
  (`LimitMeaning`, `ProfilesExceedTheLimit`).
- Deleting a destination can leave events without a delivery row until the next transition that is not
  silent is queued, or the next delivery recorded (`DeletionKeeps`, `QueuedAllKeeps`).

## Model

| member | source | states |
|---|---|---|
| `Correlation.RelatedIsSymmetric` | internal/incidents/correlate.go:101-116 | being related does not depend on which finding is named first, although the wording of the reason can |
| `Correlation.RelatedMeaning` | internal/incidents/correlate.go:101-116 | two findings are related when they share a resource, are in one and the same signal category, or in the categories of a listed pair in either order |
| `Correlation.StepsKeepGrouped` | internal/incidents/correlate.go:53-85 | after every pair of the double loop the groups hold one server each, span at most 15 minutes, are connected by chains of related pairs inside them, and every related pair tried is together or its two groups would be too wide as one |
| `Correlation.AbsorbKeepsMaximal` | internal/incidents/correlate.go:63-65 | a merge once refused stays impossible as groups grow |
| `Correlation.MergeRationale` | internal/incidents/correlate.go:66-72 | joining two groups unites their reasons and adds exactly one; no reason of a pair that straddles them was lost |
| `Correlation.BreakLosesNothing` | internal/incidents/correlate.go:74-77 | in sorted order, pairs after the early exit change neither the groups nor any reason |
| `Correlator.Forest.Root` | internal/incidents/correlate.go:46-52 | path compression terminates, returns the representative and changes nobody's representative |
| `Correlator.Forest.Union` | internal/incidents/correlate.go:53-72 | on arrays with cached spans, one union does exactly the merge that compares all members of both groups; a refused one leaves the reasons alone, an accepted one moves them to the surviving root with the new one |
| `Correlator.WidthOfUnion` | internal/incidents/correlate.go:56-65 | comparing the roots' cached spans decides whether any two members of the union are too far apart |
| `Correlator.SpanOfUnion` | internal/incidents/correlate.go:66-67 | the surviving root's span is again the exact first and last start of its group |
| `Correlator.LinkKeepsAcyclic` | internal/incidents/correlate.go:66 | hanging one root below another keeps the parents an acyclic forest |
| `Correlator.MergeRow` | internal/incidents/correlate.go:74-84 | the inner loop, early exit included, ends in the groups and reasons of all pairs of its row |
| `Correlator.MergeRelated` | internal/incidents/correlate.go:38-85 | the whole pair loop computes the final groups, and each root's list holds exactly the reasons of the related pairs inside its group |
| `Correlate.UniqueSorted` | internal/incidents/correlate.go:154-165 | each non-empty string once, in order |
| `Correlate.BuildIncident` | internal/incidents/correlate.go:118-152 | the loop's summary of a group |
| `Correlate.SummaryMeaning` | internal/incidents/correlate.go:123-135 | the summary's start is the earliest, its update the latest and its severity the worst of the group |
| `Correlate.LastResolutionMeaning` | internal/incidents/correlate.go:136-139 | the resolution time is the latest one of the group, if any |
| `Correlate.Correlate` | internal/incidents/correlate.go:28-99 | sorts the findings in place, returns every incident of the sorted list once and newest first; the early return for fewer than two findings agrees |
| `Correlate.GroupsCharacterised` | internal/incidents/correlate.go:53-85 | local maximality: two related findings end in different groups only if those groups together span more than 15 minutes; and groups are single-server, narrow and connected |
| `Correlate.GroupsAreListed` | internal/incidents/correlate.go:86-96 | findings that end together are listed together: every group of two or more is an incident with exactly its findings |
| `Correlate.PairIsGrouped` | internal/incidents/correlate.go:53-77 | two related findings become one group if and only if they start at most 900 seconds apart |
| `Components.GroupsRefineComponents` | internal/incidents/correlate.go:53-85 | a group never leaves its connected component of findings that are related and began within 15 minutes |
| `Components.ComponentIsGroup` | docs/architecture.md:29 | such a component is one group if and only if it spans at most 15 minutes |
| `Components.ComponentIsIncident` | docs/architecture.md:29 | a component of two or more findings is exactly the findings of some incident if and only if it spans at most 15 minutes |
| `Components.ComponentCanBeSplit` | internal/incidents/correlate.go:63-65 | three findings about one resource, ten minutes apart, are connected, and the first and the last end in different groups |
| `Correlate.IncidentMeaning` | internal/incidents/correlate.go:86-96 | an incident's findings are of one server and start within 15 minutes of each other, its rationale is strictly sorted and is exactly the set of reasons of related pairs inside it, and it is resolved exactly when all its findings are |
| `Correlate.IncidentInOrder` | internal/incidents/correlate.go:86-90 | the findings of an incident stand in the order of the sorted list |
| `Correlate.IncidentSummary` | internal/incidents/correlate.go:118-152 | an incident starts with its earliest finding, was updated with its latest and is as severe as its worst; an active one has no resolution time and a resolved one that of the finding resolved last |
| `Correlate.IncidentsDisjoint` | internal/incidents/correlate.go:86-96 | no finding is in two incidents and no two incidents share an id |
| `Correlate.InputOrderIrrelevant` | internal/incidents/correlate.go:28-37 | with distinct finding ids every arrangement of the input gives the same incidents |
| `Correlate.ListMeaning` | internal/incidents/correlate.go:28-99 | the returned list repeats no id, its incidents share no finding and each consists of input findings of its own server |
| `IncidentStore.Store.Rebuild` | internal/storage/incidents.go:34-89 | the transaction's loops compute one upsert per candidate, then resolve the stale, then drop the old |
| `IncidentStore.UpsertsMeaning` | internal/storage/incidents.go:35-61 | each candidate's row and memberships are stored whatever the order; an existing row keeps its server and start; other rows are untouched |
| `IncidentStore.RebuildMeaning` | internal/storage/incidents.go:23-90 | after a rebuild the server's active incidents are exactly the active candidates with exactly their findings, and active incidents of other servers are as they were |
| `IncidentStore.UnlistedMeaning` | internal/storage/incidents.go:62-88 | an active incident of the server that the call does not list is kept as resolved at that moment, with its other fields and findings; a resolved one stays untouched for ninety days since its update and is then gone with its memberships; active ones of other servers are untouched |
| `IncidentStore.ListedMeaning` | internal/storage/incidents.go:35-88 | a listed incident is stored, a resolved one unless its own update is older than ninety days |
| `IncidentStore.RecentIncidentFindings` | internal/storage/incidents.go:93-110 | reads the server's findings that are open or were resolved within a day, at most 500, and of too many the ones that started last |
| `IncidentStore.ReadIsGood` | internal/storage/incidents.go:24-28 | candidates computed from the limited query satisfy what the transaction relies on |
| `IncidentStore.ActiveIncidentsOverAllRuns` | internal/storage/incidents.go:23-90 | in every reachable state, with findings changing and rebuilds of any servers overlapping, a finding is in at most one active incident |
| `MetricRetention.Store.SaveMetrics` | internal/storage/metrics.go:14-33 | appends every sample |
| `MetricRetention.Store.PruneMonitoringHistory` | internal/storage/metrics.go:159-211 | rejects an invalid call and leaves the tables alone; otherwise rolls both tiers up and then deletes |
| `MetricRetention.SummaryMeaning` | internal/storage/metrics.go:180-185 | what a bucket row says: the count, the sum, and a minimum and maximum that are attained |
| `MetricRetention.PruneKeepsExact` | internal/storage/metrics.go:174-198 | one run keeps a tier equal to the summary of everything ever removed, for every aligned bucket that survives, although raw rows beyond the long cutoff are dropped without being rolled up |
| `MetricRetention.RetainedMeaning` | internal/storage/metrics.go:189-198 | the raw samples from the raw cutoff on are left, each as often as it was stored, and no bucket before the cutoff of its tier |
| `MetricRetention.BucketsExactOverAllRuns` | internal/storage/metrics.go:174-198 | over all runs a surviving bucket is exactly the minimum, maximum, sum and count of the samples deleted from its range, and with the raw rows still there accounts for every sample ever saved in it |
| `MetricRetention.TiersCohereOverAllRuns` | internal/storage/metrics.go:176-198 | over all runs a six-hour bucket inside the medium window is the merge of its 24 quarter-hour buckets |
| `Order.SortIsStable` | internal/storage/metrics.go:70 | sorting keeps the order of elements that are level |
| `MetricHistory.GapsAreEven` | internal/storage/metrics.go:137-141 | neighbouring selected positions are one step apart or one more, and strictly increase |
| `MetricHistory.EndsAreKept` | internal/storage/metrics.go:137-141 | the first and the last point are always selected |
| `MetricHistory.EvenlySpaced` | internal/storage/metrics.go:130-143 | selects exactly the limit at strictly increasing positions and keeps the newest point |
| `MetricHistory.ListMetrics` | internal/storage/metrics.go:35-79 | the result is read off the queried rows in time order, at the newest or at evenly spaced positions; every point is a stored sample or shows a stored bucket with its average, range and count; the result ends at a time no retained point exceeds, and omits nothing while it is shorter than the limit |
| `MetricHistory.AllPointsMeaning` | internal/storage/metrics.go:81-125 | the points a caller may see are exactly the samples and buckets of the metric from the given time on, long buckets only before the oldest medium one |
| `MetricHistory.HistoryPointsOverAllRuns` | internal/storage/metrics.go:107-117 | over all runs a bucket's point times its count is the sum of the samples removed from its range, its count is their number, its value lies in its range and both ends of the range are among them |
| `MetricHistory.EarliestMedium` | internal/storage/metrics.go:87-89 | the bound on long buckets is the start of the metric's oldest medium bucket |
| `MetricHistory.ReachableTiersAreCounted` | migrations/007_metric_retention.sql:13 | every reachable bucket has a positive count, so its average exists, and it lies between the bucket's minimum and maximum |
| `MetricHistory.HistoryHidesNothing` | internal/storage/metrics.go:81-96 | over all runs, every sample deleted from raw whose six hours start inside the long window is in a point of the history: a long bucket before the oldest medium one, a medium bucket from there on |
| `FindingLifecycle.OpenFindingsAfter` | internal/storage/findings.go:49-84 | the server's open findings are the input's exactly when every input fingerprint names a row of that server; other servers' findings not named are untouched; acknowledged findings that persist stay so |
| `FindingLifecycle.UpsertedRowMeaning` | internal/storage/findings.go:31 | the row of an input finding: identity and start of the row it had or of the input that stored it first, severity, text and time of the last input, acknowledged if it was, otherwise active |
| `FindingLifecycle.UnseenRowMeaning` | internal/storage/findings.go:49-80 | a finding not in the input: an open one of the server is resolved now, every other one is as it was |
| `FindingLifecycle.ReportedTransition` | internal/storage/findings.go:35-47 | what is reported of an input finding: new, reopened, a severity increase or nothing, by the row it had |
| `FindingLifecycle.ReportedResolutions` | internal/storage/findings.go:66-84 | one resolution is reported for every open finding of the server that is not in the input, as it was but resolved now |
| `FindingLifecycle.ForeignFingerprintStaysForeign` | internal/storage/findings.go:31-49 | an input for one server that names another's row leaves the first server's open set empty |
| `FindingLifecycle.SecondCallIsQuiet` | internal/storage/findings.go:22-47 | a second call with the same input resolves nothing and reports nothing, exactly when findings that share a fingerprint share a severity rank |
| `FindingLifecycle.StatusChangeMeaning` | internal/storage/findings.go:88-101 | a status change opens and closes nothing, changes the one open finding with that id at most, and of several in a row the last one counts |
| `FindingLifecycle.UpsertsFollow` | internal/storage/findings.go:35-47 | the transitions reported for the input continue a legal history to where each row then stands |
| `FindingLifecycle.ResolvesFollow` | internal/storage/findings.go:66-84 | so do the resolutions, in any order |
| `FindingLifecycle.LifecycleOverAllRuns` | internal/storage/findings.go:15-101 | over all sequences of calls each fingerprint's transitions are new, severity increases, then resolved and reopened alternating; a row has a resolution time exactly when it is resolved; start, id and server never change |
| `Routing.MatchControls` | internal/storage/operator_controls.go:95-118 | reports a match exactly when some active maintenance window or suppression covers the finding, maintenance first |
| `Routing.ControlMeaning` | internal/storage/operator_controls.go:95-118 | a control applies while it is active and every condition it does not leave empty holds, tags and categories in any case |
| `Routing.MatchRoute` | internal/storage/notification_routes.go:116-155 | an enabled route lets a transition through when each of its five filters is empty or names it |
| `Routing.CooldownMeaning` | internal/storage/finding_notifications.go:204-224 | a destination gets a cooldown exactly when a matching enabled route leads to it, and it is the least one |
| `Routing.CooldownOrderFree` | internal/storage/finding_notifications.go:181-224 | the order of the routes does not matter |
| `Routing.Cooldowns` | internal/storage/finding_notifications.go:189-224 | the map holds exactly the enabled destinations of matching enabled routes with their cooldowns |
| `Outbox.FanOutMeaning` | internal/storage/finding_notifications.go:160-240 | before the trim an event has one untried row per enabled destination of some matching enabled route, or per enabled destination without any route, skipped exactly when the least cooldown is positive and a delivery about the same finding succeeded within it |
| `Outbox.EventMeaning` | internal/storage/finding_notifications.go:156-163 | the event stored is the finding as reported, at the time of the transaction |
| `Outbox.SilentMeaning` | internal/storage/finding_notifications.go:141-155 | nothing is queued while a window or suppression covers the finding, nor below High without routes |
| `Outbox.QueuedAllKeeps` | internal/storage/finding_notifications.go:141-246 | a whole transaction leaves earlier rows as they were or removes them and adds only untried rows of new events; it keeps the limit of 2000 rows, and one transition that is not silent is enough for it to leave no event without a row, whatever it started from |
| `Outbox.DeletionKeeps` | migrations/003_finding_notifications.sql:8-16 | deleting a destination is a transaction the dispatcher can live with; it leaves an event without a row exactly when all its rows were for that destination |
| `Outbox.DeletionCanOrphan` | migrations/003_finding_notifications.sql:8-16 | one event with one row is left without any when the destination goes |
| `Outbox.TrimKeeps` | internal/storage/finding_notifications.go:75-88 | trimming keeps the tables consistent, removes rows only, and bounds the history |
| `Outbox.TrimDropsOldest` | internal/storage/finding_notifications.go:75-83 | rows are dropped only beyond the limit, those of the oldest events first |
| `FindingStore.TrimHistory` | internal/storage/finding_notifications.go:75-88 | keeps the first rows by event time and destination, and the events they belong to |
| `FindingStore.QueueFindingNotification` | internal/storage/finding_notifications.go:141-246 | queues nothing for a muted finding or a low severity without routes, otherwise the fan-out and the trim |
| `FindingStore.Store.UpsertFindings` | internal/storage/findings.go:15-86 | succeeds exactly when every insert does: no id is taken, the server is known, and the event of every transition that is not silent refers to a stored finding; then the table is reconciled and every transition is queued in turn, otherwise nothing changes |
| `FindingStore.CollectorIsAccepted` | internal/analyzer/helpers.go:10-15 | findings as the analyzer makes them, with their fingerprint as id, are accepted call after call |
| `FindingStore.InsertableMeaning` | internal/storage/findings.go:31-47 | an upsert succeeds if and only if the table it leaves has unique ids, a reported finding is of a known server, and the finding its event refers to is stored |
| `FindingStore.AcceptedKeepsIDs` | internal/storage/findings.go:31-34 | an accepted call leaves every id to one finding, and so does a status change |
| `FindingStore.OtherIDFails` | internal/storage/finding_notifications.go:161-163 | a reported finding whose fingerprint is stored under another id fails the call |
| `FindingStore.Store.SetFindingStatus` | internal/storage/findings.go:88-101 | the open finding with that id gets the status and the time, every other row and every resolved one stays as it is, and the caller learns whether there was one; this is a step of the lifecycle runs |
| `FindingStore.Store.PendingFindingNotifications` | internal/storage/finding_notifications.go:15-34 | returns rows that are pending or to be retried, with fewer than three attempts and a time that has come; distinct, oldest event first; all of them, or of too many the oldest |
| `FindingStore.Store.RecordFindingNotification` | internal/storage/finding_notifications.go:36-60 | records the outcome and trims; a failure for a row that is gone changes nothing |
| `FindingStore.Dispatcher.DispatchPending` | internal/notifications/dispatcher.go:25-46 | undisturbed, attempts and records every loaded row exactly once, oldest first: delivered, to be retried in one or four minutes, or failed with the third attempt; changes no other row and drops the events a deleted destination left behind |
| `FindingStore.RowAfterPass` | internal/storage/finding_notifications.go:15-60 | a waiting row whose send fails is attempted by a pass exactly when its time has come and is otherwise untouched |
| `FindingStore.FailingRow` | internal/storage/finding_notifications.go:36-60 | a fresh row whose sends keep failing is attempted at once, again exactly from a minute after the first attempt on, a third time exactly from four minutes after the second on, and then has failed |
| `OutboxSafety.SendsOverAllRuns` | internal/notifications/dispatcher.go:25-46 | over every interleaving an event/destination pair sees at most three sends, none after a success, each at least n squared minutes after any earlier one where n is the attempts counted; status and count agree, and a delivered row was sent successfully |
| `OutboxSafety.TerminalRowsOverAllRuns` | internal/storage/finding_notifications.go:36-60 | delivered, failed and cooldown rows never change again |
| `OutboxSafety.StoreRunIsRun` | internal/storage/finding_notifications.go:141-246 | the program's own transactions, one by one, are among those the protocol was proved for |
| `OutboxSafety.HistoryOverAllRuns` | internal/storage/finding_notifications.go:75-88 | over every interleaving at most 2000 rows are stored at any time, and after every commit that trims no event is left without one |
| `OutboxSafety.TransactKeeps` | internal/storage/findings.go:15-86 | a finding transaction or a trim between load, send and record breaks none of this |
| `OutboxSafety.RecordKeeps` | internal/storage/finding_notifications.go:36-60 | recording leaves the row's status, count and next attempt in line with what was sent |
| `Baseline.ComputeMedian` | internal/analyzer/baseline.go:36-47 | the sort of a private copy and the middle of it |
| `Baseline.MedianIgnoresOrder` | internal/analyzer/baseline.go:36-47 | equal multisets have equal medians |
| `Baseline.MedianMeaning` | internal/analyzer/baseline.go:36-47 | the middle of the sorted values, halfway between the two in the middle of an even number, zero of none |
| `Baseline.MedianNegates` | internal/analyzer/baseline.go:36-47 | negating all values negates the median |
| `Baseline.MedianWithinMajority` | internal/analyzer/baseline.go:36-47 | the median lies in every interval that holds a strict majority of the values |
| `Baseline.BandCoversHalf` | internal/analyzer/baseline.go:21-29 | at least half of the history lies within the band of three deviations, fallback included, and already within one deviation of the median |
| `Baseline.CompareBaseline` | internal/analyzer/baseline.go:17-35 | the deviation loop and the verdict, which needs six samples |
| `Baseline.BandMeaning` | internal/analyzer/baseline.go:21-29 | the width is the median distance from the median, and for a flat history five percent of the median but at least a thousandth |
| `Baseline.VerdictMeaning` | internal/analyzer/baseline.go:30-34 | anomalous means six samples, more than three widths above the median, and the given relative rise |
| `Baseline.VerdictIsMonotone` | internal/analyzer/baseline.go:30-34 | a worse current value never turns an anomaly into none, for every median |
| `Baseline.MinorityOfSpikesIsHarmless` | internal/analyzer/baseline.go:16-34 | a minority of spikes can neither produce a verdict for a value near the majority nor hide one far above it |
| `QueryRegression.CompatibleQueryIntervals` | internal/analyzer/query_regression.go:111-129 | the reset loop returns the longest run of compatible pairs that ends at the newest observation |
| `QueryRegression.WindowLength` | internal/analyzer/query_regression.go:111-129 | that run is unique: its length is the number of trailing compatible pairs |
| `QueryRegression.WindowMeaning` | internal/analyzer/query_regression.go:111-126 | from the observations alone: every interval has the times and counter differences of its pair and a mean that is its runtime over its calls, every pair had twenty calls, a second of runtime and no reset, and the pair before the window had not |
| `QueryRegression.WindowIsOneEpoch` | internal/analyzer/query_regression.go:116-126 | all its observations share one statistics reset and server start, and its calls and runtime add up to the counter differences at its ends |
| `QueryRegression.Judge` | internal/analyzer/query_regression.go:37-94 | a window is reported exactly when it is a regression, with the confidence it deserves and the changes correlated with it |
| `QueryRegression.RegressedMeaning` | internal/analyzer/query_regression.go:38-53 | a regression is eight intervals with both newest means half as slow again as the median of the earlier ones and three widths above it, that median and the newest rise at least five milliseconds |
| `QueryRegression.CorrelatedMeaning` | internal/analyzer/query_regression.go:77-91 | the changes shown are those inside the two anomalous intervals, in order, or the first five of them |
| `QueryRegression.QueryRegressionFindings` | internal/analyzer/query_regression.go:26-98 | reports exactly the current queries whose window is a regression, each once; the early return for a short history agrees |
| `QueryRegression.FindingReady` | internal/analyzer/query_regression.go:102-109 | ready exactly when eight trailing pairs are compatible |
| `QueryRegression.ReportedIsReady` | internal/analyzer/query_regression.go:38-40 | every reported regression is ready |
| `QueryRegression.ReportedIsSlower` | internal/analyzer/query_regression.go:47-52 | in both newest intervals the calls took, by the counters, half as long again as what most of the baseline stayed above |
| `LoginLimiter.Manager.AllowAttempt` | internal/auth/manager.go:144-163 | forgets closed windows, counts on the client's own entry if it has one or the map has room, otherwise on the shared one, and grants while that entry has attempts left |
| `LoginLimiter.Manager.PruneAttempts` | internal/auth/manager.go:322-328 | removes exactly the expired windows |
| `LoginLimiter.LimiterOverAllRuns` | internal/auth/manager.go:144-169 | between resets an entry grants at most maxAttempts per window and at most 2*maxAttempts-1 in any span of a window's length; the map holds at most maxClients+1 entries |
| `LoginLimiter.SpanBoundIsReached` | internal/auth/manager.go:154-161 | for all limits, some run reaches that bound if and only if the window is longer than a clock tick or a single attempt is allowed |
| `PasswordChange.Manager.ChangePassword` | internal/auth/manager.go:235-278 | undisturbed: exactly when it succeeds, that it changes this user's password and nobody else's, and which sessions are left; otherwise no password changes |
| `PasswordChange.Manager.Sweep` | internal/auth/manager.go:264-276 | the loop over the sessions leaves what `Swept` says |
| `PasswordChange.Manager.InvalidateUser` | internal/auth/manager.go:203-211 | removes exactly the user's sessions |
| `PasswordChange.Manager.Lookup` | internal/auth/manager.go:222-233 | returns a live session and prunes expired ones |
| `PasswordChange.ChangesChainOverAllRuns` | internal/auth/manager.go:239-263 | over every interleaving no change is lost: each starts from the password the one before it set, and the last is what is stored |
| `PasswordChange.ChangesOverAllRuns` | internal/auth/manager.go:235-278 | if all committed changes of a user presented the same current password, at most one call succeeded |
| `PasswordChange.FinishRevokesOverAllRuns` | internal/auth/manager.go:261-276 | over every interleaving, when a call finishes, the user whose password it changed has the new password and need not change it again, no session of that user is left but the caller's own, cleared, and nobody else's session is touched |
| `Thresholds.EffectiveThresholdOverrides` | internal/storage/operator_controls.go:219-251 | the limited read, the loop with its two maps, and an output in any order |
| `Thresholds.ListedMeaning` | internal/storage/operator_controls.go:189-207 | a stored override is read exactly when fewer rows than the limit are listed before it |
| `Thresholds.SelectedMeaning` | internal/storage/operator_controls.go:226-245 | per rule the selection is an override nothing takes precedence over, whenever one applies |
| `Thresholds.InForceMeaning` | internal/storage/operator_controls.go:226-245 | the override in force is the server's own, without one the first matching tag's, and without any the global one |
| `Thresholds.SelectionOrderFree` | internal/storage/operator_controls.go:189-251 | what is read and what is selected depend on the stored overrides alone, not on the order they are stored in |
| `Thresholds.LimitMeaning` | internal/storage/operator_controls.go:219-245 | the stored override in force for a rule is selected if and only if fewer rows than the limit are listed before it; otherwise no override of its rule is |
| `Thresholds.ProfilesExceedTheLimit` | internal/api/rule_profiles.go:122-138 | a profile of all rules applied to sixteen tags leaves the vacuum threshold at its default for every server, with overrides of it in force |
| `Thresholds.FieldsMatchRules` | internal/analyzer/operator_thresholds.go:32-66 | each rule sets its own threshold and no two rules the same one |
| `Thresholds.ResolvedThreshold` | internal/analyzer/operator_thresholds.go:32-66 | end to end each threshold has the value of the stored override in force, server before tag before global and the first tag scope among several, if fewer than two hundred rows are listed before that override, and its default otherwise |

## Left out

- PostgreSQL and SQLite drivers, SQL text, JSON, HTTP handlers, webhook and ntfy delivery: tables are maps, a send is an arbitrary success or failure, and looking a destination up may fail without a send.
- Database failures in the middle of a call: a transaction commits or changes nothing, and recording the outcome of a send is taken to succeed.
- Times below a second, where the stored strings need not sort like times, and times before 1970.
- Unicode case folding, and the NUL separator inside the hashed incident id.
- Titles, summaries, evidence and suggestions of findings: one opaque field that an upsert replaces; the incident's title and summary text and the relationship text stored per membership.
- The clock inside one transaction or dispatcher run of `FindingStore` is read once; `OutboxSafety` lets it advance at every step.
- The cap of 200 when active maintenance windows and suppressions are read for matching: `Config` holds those that were read. Creating one stops at 200 stored ones, though not atomically.
- Two clients creating threshold overrides or applying profiles at the same time; the table is read as it is stored.
- Snapshot retention inside `PruneMonitoringHistory`, and `Store.Prune`, which deletes raw metrics without rolling them up.
- Deleting a server with its rows; deleting a destination is covered in `OutboxSafety` as rows that vanish.
- The limiter reads its clock before it takes its lock, so in lock order time can step back by the length of that wait; its runs have a clock that does not.
- The proxy-aware client address: the limiter takes the address it yields, which never equals the overflow key.
- Logins that race with a password change: authentication and session start are separate steps outside the password mutex, so a session opened from an older snapshot may survive.
- Preservation of open query regressions on gaps, which the collector does in standard cycles only.
- Individual analyzer rules, health score, roles, configuration, migrations, the frontend and the release scripts.
- Dispatcher.DispatchPending: states one undisturbed pass at one clock reading over a history within its limit, which every transaction keeps (`QueuedAllKeeps`, `DeletionKeeps`); interference between its steps is the subject of `OutboxSafety`.
- Correlate.Correlate: the order of incidents with the same start is unspecified, as in the source.
