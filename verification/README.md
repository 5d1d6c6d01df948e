# Verified model of the SNMP monitor's tables and arithmetic

The monitor discovers devices, pings them with a backoff, records ONLINE/OFFLINE events and SNMP
readings, rolls readings up into hourly trends before erasing them, and computes availability figures
and chart series from what is left. This project models the tables and the code that writes and reads
them, and proves what a reader of the tables may rely on, over whole runs.

Time is a whole number of microseconds. Tables are immutable collections held by a session; a session
works on its own view and publishes it only when it commits, so a cycle that raises changes nothing.
Measured values are exact reals.

* `Wrappers`, `Clock`, `Models`, `Database`, `Selection` hold the shared datatypes, aligned hours, the rows,
  sessions, and positions in a table, by which the main results say what a filter keeps without the filter.
* `Aggregation`, `Rollup`, `MetricRepositories`, `Housekeeping`, `RollupRuns` hold the hourly roll-up and
  the retention of raw readings. A run is a sequence of commits of readings and of housekeeping cycles,
  committed or rolled back. The statements about the tables are made from the log of the run alone.
* `Resample`, `Chart` hold the chart series: trends spliced with surviving readings, resampled.
* `DeviceIdentity`, `DeviceScan`, `IdentityRuns` hold the upsert of scanned devices by mac, or by address when
  no mac is known, the SNMP probe of a scan, and what becomes of identities over runs.
* `PollingBackoff`, `Timeline`, `Collection`, `MonitorRepositories`, `CollectionCycle`, `MonitorRuns` hold
  the polling state machine. A run is a sequence of scans and collection cycles. Its meaning is the log of
  committed checks of every device.
* `AvailabilityEtl`, `MonitorTheorems` hold the availability summary and the dashboard, and what they
  mean in reachable states.
* `SystemRuns`, `SystemLoops` put everything on one database and one clock: scans and both background loops.
  The two halves of the state keep their meaning, and they agree with each other.
* `Oid`, `SnmpWalk`, `MetricKeys` hold the column walk by GETNEXT on dotted-decimal names, the slugs, and
  the keys of the readings made from a walk.

Assumptions on the environment, stated as hypotheses where they are used. In runs of the roll-up alone: the
clock readings of committed housekeeping cycles do not decrease, and no reading is committed that is already
older than the last cutoff. In runs of the whole system both follow (`SystemRuns.MetricView`) from one clock
in whose order cycles commit, loops that sleep between cycles, and collection cycles shorter than the seven
days of retention. A ping is read at or after the start of its cycle.

Where the code and its comments disagree, the model follows the code and the difference is proved:

* The roll-up is described as idempotent. Repeating the aggregation is, but repeating a whole cycle is not
  when the cutoff falls inside an hour that has readings on both sides of it
  (`Rollup.CycleIsIdempotentUnlessItSplits`). For the same reason a trend does not describe its whole hour
  for ever: `RollupRuns.StraddledHourLosesReadings` is a run that loses a reading, and
  `RollupRuns.TrendIsWholeHourIff` says exactly when a trend is whole. In the end a trend describes one
  interval between two cycles instead of its hour (`RollupRuns.FinalTrendCoversOneInterval`).
* `MAX_POINTS` is described as a ceiling. It can be passed by one point (`Chart.CeilingCanBePassed`), exactly
  when every bin holds a point (`Chart.SeriesSize`).
* The walk is said to stop when it leaves the subtree. An agent that ends inside the column and answers as
  section 4.2.2 of RFC 3416 prescribes is asked for its last name for ever (`SnmpWalk.WalkStopsIff`,
  `SnmpWalk.EndlessWalk`).
* The upsert is said to update instead of duplicating. Two reports of one new address in one batch become
  two rows, after which every later upsert of that address under the same subnet id fails
  (`IdentityRuns.DuplicateAddressPoisonsUpserts`). The shipped scans never make such a batch
  (`IdentityRuns.RealScansKeepIdentities`). What they can make is an ARP answer with a new mac at two
  addresses, which fails the whole scan (`DeviceIdentity.NewMacAtTwoAddressesFails`), and a sweep without
  macs, which never updates anything, because its subnet row is always new
  (`DeviceIdentity.SweepOfNewSubnetIsAllNew`).

Raw readings and trends of one series never share an instant, as the code says, but they can share one hour
(`Chart.AtMostOneHourTwice`, `Chart.HourShownTwice`).

## Model

| member | source | states |
|---|---|---|
| Rollup.AggregateOfBucket | backend/repositories/metric_trend_repository.py:24-38 | the aggregation query has a group for a bucket exactly when the hour is closed and holds a numeric reading, and the group covers all of its readings that are in the table: the boundary splits no bucket |
| Rollup.TrendOverReadings | backend/repositories/metric_trend_repository.py:24-38 | for any table and boundary, by positions in the table: a bucket has a group exactly if it holds a reading before the boundary, and count, sum, minimum and maximum are those of these readings, each taken once |
| Rollup.ValuesAreReadings | backend/repositories/metric_trend_repository.py:35-37 | the numbers of a bucket are those of the readings of its device, metric and hour, each once, in table order, and nothing else |
| Aggregation.SummaryMeaning | backend/repositories/metric_trend_repository.py:26-33 | a trend row holds the least and the greatest number of its group, their count, and the number between them that times the count is their sum |
| MetricRepositories.MetricTrendRepository.UpsertHourlyAggregates | backend/repositories/metric_trend_repository.py:17-76 | for any boundary, rewrites exactly the trends of the buckets with readings before it, from the readings that are left, keeps every other trend, and returns the number of buckets written; a boundary on the hour takes every bucket whole |
| MetricRepositories.MetricHistoryRepository.SaveMany | backend/repositories/metric_history_repository.py:15-18 | appends the readings and changes nothing else |
| MetricRepositories.MetricHistoryRepository.DeleteOlderThan | backend/repositories/metric_history_repository.py:20-30 | keeps exactly the rows at or after the cutoff, numeric or text, and returns the number of rows deleted |
| Rollup.DeletedRowsAreAggregated | backend/composer/registry_history_housekeeping.py:22-28 | a numeric row that a cycle deletes has a trend in the same commit, whose minimum, maximum and mean enclose it |
| Rollup.CycleKeepsRecentRows | backend/composer/registry_history_housekeeping.py:12-28 | a cycle keeps exactly the raw rows of the last seven days (604800000000 microseconds), in order, and touches neither devices nor events nor definitions |
| Rollup.CycleRewritesTrend | backend/composer/registry_history_housekeeping.py:22-28 | a cycle rewrites a trend exactly if the table holds a reading of its bucket from before the current hour, from all of these, each once; every other trend stays |
| Rollup.AggregatingAgainRecomputes | backend/repositories/metric_trend_repository.py:21-23 | aggregating again, after more readings and up to a later hour, recomputes and never accumulates: every trend of a closed hour with readings is the summary of all of them, each counted once, and every other trend stays |
| Rollup.CycleIsIdempotentUnlessItSplits | backend/composer/registry_history_housekeeping.py:15-28 | repeating a whole cycle at the same instant changes nothing if and only if no bucket has numeric readings on both sides of the cutoff |
| Housekeeping.RunHousekeepingCycle | backend/composer/registry_history_housekeeping.py:15-28 | commits the aggregated and pruned tables, or leaves the database as it was when the driver raises at any point; no numeric reading disappears without a trend |
| Housekeeping.RunForever | backend/composer/registry_history_housekeeping.py:31-41 | the loop outlives failed cycles: after any ticks, with readings committed in between, the database is the one the run defines |
| RollupRuns.RawTableIsSurviving | backend/repositories/metric_history_repository.py:26-28 | over every run the raw table is everything inserted that is not older than the last committed cutoff |
| RollupRuns.TrendIsLastRewrite | backend/repositories/metric_trend_repository.py:24-73 | over every run a bucket has a trend if and only if some committed cycle aggregated it, and the trend is then the minimum, maximum, mean and count of its readings inserted before the last such cycle and not older than the cutoff in force |
| RollupRuns.TrendOverLog | backend/repositories/metric_trend_repository.py:24-73 | the same by positions in the log of the run: a trend counts each reading of its bucket once that was inserted before the last rewrite and is not older than the cutoff then in force |
| RollupRuns.NothingNewSinceRewrite | backend/composer/registry_history_housekeeping.py:22-28 | all readings of a bucket known to the last committed cycle were already there at the last rewrite of its trend |
| RollupRuns.TrendIsWholeHourIff | backend/composer/registry_history_housekeeping.py:23-28 | a trend is the aggregate of every reading of its hour up to the last cycle if and only if none of them was older than the cutoff in force at its last rewrite |
| RollupRuns.TrendIsWholeWithinRetention | backend/composer/registry_history_housekeeping.py:23-28 | while the hour starts at or after every cutoff used, its trend covers all of it |
| RollupRuns.TrendIsWholeForEverIfAligned | backend/composer/registry_history_housekeeping.py:23-24 | were every cycle to run on the hour, every trend would cover its whole hour for ever |
| RollupRuns.StraddledHourLosesReadings | backend/composer/registry_history_housekeeping.py:23-28 | a concrete run after which a trend counts one of the two readings of its hour |
| RollupRuns.SplitCycleRepeated | backend/composer/registry_history_housekeeping.py:23-28 | a reachable state and an instant at which a cycle repeated changes the trend it has just written |
| RollupRuns.FinalTrendCoversOneInterval | backend/composer/registry_history_housekeeping.py:11-41 | once a cutoff has passed an hour, its trend describes only readings within one interval between two cycles (900 seconds and the length of a cycle, as the loop runs), unless the first cycle of all wrote it |
| RollupRuns.TrendIsFinalAfterRetention | backend/composer/registry_history_housekeeping.py:22-28 | once a cutoff has passed the end of an hour, no later step changes its trend |
| RollupRuns.TrendKeysStay | backend/repositories/metric_trend_repository.py:65-73 | a bucket that has a trend has one in every later state |
| RollupRuns.EveryReadingIsKept | backend/composer/registry_history_housekeeping.py:18-20 | over every run a numeric reading is still in the raw table, or its bucket has a trend |
| Chart.MergedMembers | backend/etl/device_metrics_etl.py:55-76 | the merge holds exactly the raw readings of the range and the trends of buckets of the range that start before all of those readings |
| Chart.MergedMultiplicity | backend/etl/device_metrics_etl.py:55-76 | every point occurs in the merge once per raw reading it is, and once more exactly if it is the trend of a bucket of the range that starts before all raw readings of the range |
| Chart.ShownTrendIsMerged | backend/etl/device_metrics_etl.py:63-76 | an hour of the range that has a trend and starts before every raw reading of the range is a point of the merge, with the average of that trend |
| Chart.AtMostOneHourTwice | backend/etl/device_metrics_etl.py:69-74 | at most one hour appears both as a trend and as readings, the hour of the earliest reading, and exactly under the stated condition |
| Chart.HourShownTwice | backend/etl/device_metrics_etl.py:69-74 | a reachable state in which one hour appears as a trend and as a reading |
| Chart.NoGap | backend/etl/device_metrics_etl.py:55-76 | in every reachable state every hour of the range in which a reading was ever recorded appears in the merge, as a surviving reading of it or as its trend |
| Chart.HourShownIff | backend/etl/device_metrics_etl.py:53-76 | in every reachable state a recorded hour appears in the merge if and only if it starts within the range or one of its surviving readings lies within it |
| Chart.RecordedHourIsCharted | backend/etl/device_metrics_etl.py:46-96 | such an hour is represented in the chart itself, by a point whose bin holds an instant of the hour |
| Chart.SeriesPointIsMean | backend/etl/device_metrics_etl.py:85-90 | every charted point is the mean of the points of the merge that its bin holds, at least one, each once; the bin is a two hundredth of the range, at least a minute, and starts a whole number of bins after midnight of the day of the first point |
| Chart.SeriesCoversMerge | backend/etl/device_metrics_etl.py:85-90 | every point of the merge lies in the bin of a charted point, and charted points are at least a bin apart, in order |
| Chart.SeriesIsNamed | backend/etl/device_metrics_etl.py:46-96 | key, name and unit of a series, and the empty series of an unknown key |
| Chart.SeriesSize | backend/etl/device_metrics_etl.py:11-33 | a series has at most one point more than MAX_POINTS for ranges of four hours or more (than 60 an hour below), at least a bin apart, and that many if and only if no bin is empty |
| Chart.CeilingCanBePassed | backend/etl/device_metrics_etl.py:11-14 | readings every 72 seconds for four hours yield 201 points |
| Resample.ResampledRepresents | backend/etl/device_metrics_etl.py:85-90 | every input lies in the bin of one output; outputs are a bin apart; each is the mean of its inputs and lies between their minimum and maximum |
| Resample.ResampledConservesTotal | backend/etl/device_metrics_etl.py:85-90 | the means weighted by the number of their inputs add up to the sum of the inputs |
| DeviceIdentity.UpsertKeepsIdentityIff | backend/repositories/device_repository.py:20-48 | on rows with unique identities no lookup is ambiguous; the upsert fails if and only if two new devices share a mac, and it keeps identities unique if and only if the new devices of the batch are distinct |
| DeviceIdentity.UpsertEffect | backend/repositories/device_repository.py:29-48 | one row more per unseen identity, UNKNOWN and due at once, in the order of the reports; every existing row keeps mac, polling state and SNMP data, takes address, vendor and subnet of the last report that matches it, and is unchanged if none does; results are the rows of the reports, position by position |
| DeviceIdentity.UpsertTwice | backend/repositories/device_repository.py:20-28 | the same batch again, at any time, adds nothing, changes nothing and returns the same rows |
| DeviceIdentity.AmbiguousReportFails | backend/repositories/device_repository.py:30-38 | two rows with the identity of a report make every batch with it fail |
| DeviceIdentity.NewMacAtTwoAddressesFails | backend/repositories/device_repository.py:29-48 | a scan that reports a new mac at two addresses fails as a whole at the unique constraint |
| DeviceIdentity.SweepOfNewSubnetIsAllNew | backend/composer/registry_devices.py:63-74 | under a subnet row stored just before, a batch without macs matches nothing: every report becomes a new row, in order, and no existing row changes |
| IdentityRuns.IdentitiesUniqueIff | backend/repositories/device_repository.py:20-48 | over every run, identities are unique if and only if no committed batch has reported a new address twice |
| IdentityRuns.DuplicateAddressPoisonsUpserts | backend/repositories/device_repository.py:33-42 | after such a batch every later upsert of that address under the same subnet id fails, whatever happens in between |
| IdentityRuns.RealScansKeepIdentities | backend/composer/registry_devices.py:43-76 | with batches as ARP and the ping sweep make them, identities are unique in every reachable state, and a scan fails if and only if it reports a new mac twice |
| DeviceScan.SupportStays | backend/repositories/device_repository.py:85-108 | no scan takes the support of SNMP from a device |
| MonitorRepositories.DeviceRepository.UpdateSnmpInfo | backend/repositories/device_repository.py:85-108 | sets the SNMP data of one device, marks it as supporting SNMP, and changes nothing else |
| CollectionCycle.RunScan | backend/composer/registry_devices.py:48-105 | registers what was found, or takes all devices, fills in the SNMP data of the targets that answered at their address, and commits, or leaves the database as it was |
| DeviceScan.ScanOverRows | backend/composer/registry_devices.py:66-105 | every target whose address answered carries that answer and supports SNMP after the scan; every other row keeps its SNMP data; nothing else differs from what the upsert left |
| MonitorRepositories.DeviceRepository.UpsertMany | backend/repositories/device_repository.py:20-48 | the loop computes the specified upsert against the rows flushed before the batch, or leaves the tables as they were when a lookup or the flush raises |
| MonitorRepositories.DeviceRepository.ListDueForPoll | backend/repositories/device_repository.py:59-63 | exactly the devices whose next poll is not after now, each once, in table order |
| MonitorRepositories.DeviceRepository.RecordPollResult | backend/repositories/device_repository.py:65-83 | sets the polling state of one device and nothing else |
| MonitorRepositories.AvailabilityEventRepository.CloseOpenEvent | backend/repositories/availability_event_repository.py:16-27 | ends the open event of the device and no other row, and fails exactly if the device has two open rows |
| MonitorRepositories.AvailabilityEventRepository.OpenEvent | backend/repositories/availability_event_repository.py:29-38 | appends one open event |
| MonitorRepositories.AvailabilityEventRepository.ListByDeviceSince | backend/repositories/availability_event_repository.py:51-65 | exactly the events of the device that are open or ended at or after the instant, each as often as in the table, ordered by their start |
| CollectionCycle.ApplyPingResult | backend/composer/registry_metrics_collection.py:79-105 | records status, failure counter, interval and next poll, and on a change of status closes the open event and opens the next |
| CollectionCycle.RunCollectionCycle | backend/composer/registry_metrics_collection.py:108-171 | pings applied in order against the snapshot, then the readings, in one commit; an exception at any ping or before the commit leaves the database as it was |
| CollectionCycle.RunForever | backend/composer/registry_metrics_collection.py:174-189 | from empty tables the loop, with scans in between, reaches the state the run defines, and that state means the committed checks of every device |
| Collection.ApplyPingsLocally | backend/composer/registry_metrics_collection.py:127-136 | every device gets exactly its own ping, measured against its own state, and no lookup of the open event becomes ambiguous |
| Collection.CycleTouches | backend/composer/registry_metrics_collection.py:119-171 | from any state a cycle appends its readings if a device was due, changes nothing of a device but its polling state, and touches neither trends nor definitions |
| MonitorRuns.StateMeansChecks | backend/composer/registry_metrics_collection.py:79-136 | over every run, for every device: its events are one per maximal run of equal check results, its polling state is the one its checks imply, and no check came before it was due |
| Timeline.TimelineMeansChecks | backend/models/availability_event.py:16-22 | at every instant exactly one event is in force, with the status that the last check found, or none before the first check |
| MonitorTheorems.TimelineInvariant | backend/composer/registry_metrics_collection.py:103-105 | in every reachable state a device is UNKNOWN exactly while it has no event; otherwise its events alternate, each ends where the next starts, and only the last is open, with the status of the device |
| MonitorTheorems.CyclesNeverMeetTwoOpenEvents | backend/repositories/availability_event_repository.py:16-27 | in no reachable state can a cycle fail because a device has two open events |
| MonitorTheorems.BackoffInvariant | backend/services/polling_backoff.py:6-18 | the status is what the last check found, or UNKNOWN; the counter is the number of failures since the last success, the stored interval is that of the counter and within [60, 3600], the next poll is that interval after the last check, and no check came earlier |
| MonitorTheorems.TrailingFailuresMeans | backend/composer/registry_metrics_collection.py:89-91 | a counter of k means that the last k checks failed and the one before them, if any, succeeded |
| MonitorTheorems.ChecksComeInTime | backend/repositories/device_repository.py:59-63 | if cycles start at most G apart and last at most L, consecutive checks of a device are less than the stored interval plus G plus L apart, so less than an hour plus G plus L |
| MonitorTheorems.NobodyOverdue | backend/repositories/device_repository.py:59-63 | after a committed cycle no checked device was still due at its start |
| MonitorTheorems.EventsLast | backend/services/polling_backoff.py:15-18 | an ended ONLINE event lasted at least 60 seconds and an ended outage at least 120 |
| PollingBackoff.BackoffShape | backend/services/polling_backoff.py:6-18 | the interval is 60 without failures, lies in [60, 3600], never shrinks with more failures, doubles below the ceiling and is at the ceiling exactly from the sixth failure on |
| AvailabilityEtl.DurationsCountInstants | backend/etl/availability_etl.py:44-56 | the clipped total of a status is the number of instants of the window at which the last check had found it |
| AvailabilityEtl.DroppedEventsClipToZero | backend/repositories/availability_event_repository.py:51-57 | leaving out the events that ended before the window changes no total, for any list of events |
| AvailabilityEtl.ByStartKeepsTotals | backend/repositories/availability_event_repository.py:65-72 | no total depends on the order of the rows |
| AvailabilityEtl.RepairTimeIsConserved | backend/etl/availability_etl.py:89-101 | the mean time to repair times the ended outages plus the open outage is the offline total; it is defined exactly when an outage ended, and lies between zero and the window |
| AvailabilityEtl.RepairTimeOverRows | backend/etl/availability_etl.py:92-95 | for any table, by positions: no mean time to repair exactly if no outage of the device ended at or after the start of the window; otherwise, times their number, it is the sum of their clipped lengths |
| AvailabilityEtl.SummaryOverRows | backend/etl/availability_etl.py:70-103 | for any table, by positions: the percentage is the share of the clipped ONLINE lengths of the device, capped at 100, the downtime its clipped OFFLINE lengths in whole seconds, and zero both without an event in the window |
| AvailabilityEtl.DurationCountsInstants | backend/etl/availability_etl.py:44-56 | the clipped length of any event is the number of instants of the window at which it is in force |
| MonitorTheorems.SummaryMeansChecks | backend/etl/availability_etl.py:70-103 | in every reachable state the percentage counts the online instants of the window, never capped, the downtime the offline ones, and together they fill the window from the first check on |
| AvailabilityEtl.DashboardAveragesSummaries | backend/etl/availability_etl.py:121-137 | the dashboard average is the mean of the summaries' percentages over exactly the devices with an overlapping event, and lies in [0, 100] |
| AvailabilityEtl.DashboardOverRows | backend/etl/availability_etl.py:109-119 | for any tables, total, online, offline, unknown and SNMP support are the numbers of such device rows, and open problems the number of event rows that are OFFLINE and not ended |
| AvailabilityEtl.ZeroRangeHasNoAverage | backend/etl/availability_etl.py:121-137 | a range of length zero has no average, unless no event is left to average |
| MonitorTheorems.DashboardCountsAgree | backend/etl/availability_etl.py:109-119 | in every reachable state and for every range the open problems counted in the events are the offline devices, and the three statuses add up to the total |
| MonitorTheorems.AverageCoversKnownDevices | backend/etl/availability_etl.py:126-137 | the average runs over exactly the devices whose status is known, as many as are online or offline |
| SystemRuns.StateMeansRun | backend/main.py:22-35 | over every run of scans and both loops on one database and clock, events and polling state mean the committed checks, the raw table is what was saved since the last cutoff, and no reading is lost without a trend |
| SystemRuns.MetricView | backend/composer/registry_history_housekeeping.py:23-28 | no cycle saves a reading that is older than the last cutoff, because collection cycles are shorter than the retention; so everything stated about runs of the roll-up holds of the whole system |
| SystemRuns.NoGap | backend/etl/device_metrics_etl.py:55-76 | in every reachable state of the whole system every hour of a range in which a reading was saved appears in the merge |
| SystemRuns.ReadingsFindDevicesOnline | backend/composer/registry_metrics_collection.py:127-171 | every reading ever saved belongs to a registered device that supports SNMP, and lies in a time at which that device was ONLINE by its own log |
| SystemRuns.TrendsHaveOnlineTime | backend/repositories/metric_trend_repository.py:24-73 | the hour of every trend holds an instant at which its device was ONLINE |
| SystemRuns.ReadingMeansAvailability | backend/etl/availability_etl.py:86-101 | a device with a raw reading in a window has an availability above zero in that window |
| SystemLoops.RunApplication | backend/main.py:22-35 | scans and both loops on one database reach the state that the run defines |
| Oid.PrefixTestMeansUnder | backend/snmp/snmp_walk.py:50-53 | the text of a name starts with the column and a dot exactly when the column is a strict component prefix, and the slice after it is the text of the remaining components |
| Oid.ParseRender | backend/snmp/snmp_walk.py:50-55 | reading back the dotted text of a name gives the name |
| Oid.LessMeans | backend/snmp/snmp_walk.py:41-48 | names are ordered by their first different component, a strict prefix first, as section 4.2.2 of RFC 3416 has agents answer |
| SnmpWalk.WalkStopsIff | backend/snmp/snmp_walk.py:39-56 | the walk ends if and only if a request is lost, or the agent reports its end as an error, or its last entry lies outside the column |
| SnmpWalk.EndlessWalk | backend/snmp/snmp_walk.py:39-56 | an agent with a single entry on which the walk never ends and keeps replacing the value of that entry |
| SnmpWalk.WalkReturnsColumn | backend/snmp/snmp_walk.py:39-56 | whenever the walk ends it has returned the entries of the column by index, in order and with distinct keys; when a request was lost, exactly those received before it, the last one with the endOfMibView text for its value if the agent had already begun to repeat its last name |
| SnmpWalk.WalkOverEntries | backend/snmp/snmp_walk.py:39-56 | the same by positions in the MIB: the entries with the column as a strict component prefix, each once, in order, under the text of their remaining components |
| SnmpWalk.CleanWalkIsColumn | backend/snmp/snmp_walk.py:31-35 | without a lost request the result holds an item if and only if it is that of an entry strictly under the column |
| SnmpWalk.CleanRemovesNul | backend/snmp/snmp_walk.py:14-20 | no NUL is left in a value, and a value without one is unchanged |
| SnmpWalk.CleanKeepsOthers | backend/snmp/snmp_walk.py:14-20 | every other character stays, once and in order, and nothing is added |
| SnmpWalk.WalkColumn | backend/snmp/snmp_walk.py:23-56 | the loop, on an agent for which it ends, returns the specified result |
| MetricKeys.SlugJoinsWords | backend/services/dynamic_metric_reading.py:20-22 | a slug is the maximal runs of letters and digits of the folded text joined by single underscores, or "value" when there is none |
| MetricKeys.WordsAreRuns | backend/services/dynamic_metric_reading.py:21 | these words are the maximal runs of the characters a to z and 0 to 9 of the folded text, in order |
| MetricKeys.SlugKeepsLetters | backend/services/dynamic_metric_reading.py:20-22 | a slug consists of a to z, 0 to 9 and underscores, and keeps every letter and digit of the folded text, in order |
| MetricKeys.SlugIsNormal | backend/services/dynamic_metric_reading.py:20-22 | a slug is never empty, starts and ends with a letter or digit, and has no two underscores in a row |
| MetricKeys.SlugFixedPoints | backend/services/dynamic_metric_reading.py:20-22 | the fixed points of slugify are exactly the texts of that form, so it is idempotent |
| MetricKeys.KeysAreDistinct | backend/services/dynamic_metric_reading.py:25-48 | one reading per entry, in order, with its value, the given type and unit, and pairwise different keys for distinct indexes; a single entry keeps the base key and name |
| MetricKeys.ReadingsOverEntries | backend/services/dynamic_metric_reading.py:36-48 | key, name, type, value and unit of every reading, character by character |
| MetricKeys.ReadingsOfWalkAreDistinct | backend/services/host_resources_metrics_service.py:141-143 | no two readings made from one walk share a key, however the walk ended |

## Left out

- Chart.BuildSeries: the rows are not sorted by time first, because the resampling does not depend on their order; IEEE rounding of means is not modelled.
- AvailabilityEtl.Summary: rounding to two decimals is not modelled; a window of length zero, for which the original yields not-a-number, gives no percentage.
- AvailabilityEtl.Dashboard: rounding to two decimals is not modelled.
- SnmpWalk.WalkColumn: it is stated for agents on which the loop ends, because on the others it runs for ever (`SnmpWalk.WalkStopsIff`); the bit width of sub-identifiers is not modelled.
- MetricKeys.Slugify: white-space stripping and lower-casing of Unicode text are a parameter.
- Rows are values in a session, not shared objects: aliasing between the rows a session hands out and the rows it stores is not modelled.
- Sessions commit one after the other; concurrent transactions and their isolation are not modelled.
- A device is identified by its position in the table; gaps in generated keys are not modelled.
- ARP, ICMP and SNMP transport, timeouts and retries, and the limits on parallel requests: answers and clock readings are inputs.
- Subnet rows are only numbers here; that a scan stores a new one is the hypothesis of `DeviceIdentity.SweepOfNewSubnetIsAllNew`.
- How SNMP readings become history rows (`_build_history`, `_sanitize_text`): a cycle takes the rows it saves as an input, and that they come from devices that support SNMP and answered their ping is a hypothesis (`SystemRuns.TakenFrom`).
- Keys of storage, interface and supply readings, which are built from labels, can collide; nothing is claimed about them.
- The static metric catalog, metric formatting, the subnet size check, routers, schemas, configuration and the frontend.
