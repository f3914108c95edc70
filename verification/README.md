# Verified model of kuvasz-agent

kuvasz-agent samples a Linux host every few seconds and sends metrics. This project models the parts of it
that hold state and make promises over whole runs, and proves those promises for all inputs:

- **Processes** (`collect-procpidstat.go`). Two `/proc` snapshots become deltas, the deltas a tree by parent pid,
  and a recursive walk from pid 0 folds a process into its parent's entry when both run the same command. The
  entries are then ranked and marked for reporting. The parent relation is *not* assumed to be a tree: a process
  that pid 0 does not reach may be its own ancestor. Files: `Keys`, `StatLine`, `ProcTypes`, `ProcTree`,
  `Consolidated`, `Conservation`, `ProcPidStat`, `Rounds`, `Selection`.
- **Web logs** (`collect-weblogs.go`). A one-pass loop cuts records into time windows and keeps two maps that must
  agree. It is proved to refine a batch meaning: greedy windows, one merged record a prefix. Files: `WebRecords`,
  `WebBatches`, `WebMerge`, `WebReport`, `WebAggregator`.
- **Logging** (`log/log.go`, `log/file.go`). Producers, the consumer goroutine and `Close` interleave over a bounded
  channel; behind it a writer rotates its file by lines, size and day. Files: `LogChannel`, `ArchiveNames`,
  `FileLog`, `FileLimits`, `FileRotation`, `FileLogWriter`, `EndToEnd`.
- **Counters** (`collect-postgres.go`, `collect-snmp.go`). Double-buffered rates, a buffer-cache tally, and deltas of
  wrapping SNMP counters. Files: `Postgres`, `PostgresRuns`, `BufferCache`, `Snmp`.

`Words` is 64-bit arithmetic, `Orders` the orders in which a Go map may be visited, `Wrappers` the usual datatypes.

## How it is stated

Objects that the program updates in place are classes here (`PidTable`, `Aggregator`, `Writer`, `PgStat`,
`Collector`, `Target`); each method's contract gives the whole new state as a function of the old one, and the
lemmas are about those functions. The logger is a state machine with one action for each step of a goroutine, and
a run is any sequence of actions. Counters are 64-bit words that wrap. `float32` values are reals.

Where Go visits a map, the loops here take an arbitrary next key, and the contracts hold for every choice. The
consolidated table is a function of the *set* of processes met (`Consolidated.Table`); `Consolidate` is proved
against it for every tree that lists the same processes, so the order of sibling slices cannot show in the result.

What such a function says is in turn fixed by lemmas in terms of fields, texts and positions alone: `DeltasExact`,
`UsageExact`, `ReportSays`, `ProducerExact`, `WriteExact`, `RecordSays`, `PassExact` and the two `SendsExact`, for example.

## Where the code and its promise differ

Each of these is a theorem with the exact condition, and an input in `Counterexamples` that does not meet it:

- A line of three or more same-named processes is not gathered in one entry; representatives alternate
  (`FullyConsolidatedExact`, `RepsAlternate`, `ThreeShells`).
- The top-n loops visit n + 2 positions (`TopNExact`, `TopOfNone`).
- A process seen twice whose parent is not, or that is its own ancestor, is dropped with all below it
  (`AllReachedExact`, `MissingParent`).
- A snapshot key has no separator: two commands can share one exactly when one is the other with digits in front, few
  enough for a 64-bit pid (`SnapshotKeyExact`, `SharedSnapshotKey`).
- A window whose first record has timestamp 0 is dropped when another record follows (`RunRefinesWindows`,
  `TwoRecordsAtZero`).
- The proxy latency wraps when the upstream total is the larger one (`ProxyLatencyExact`, `WrappedLatency`);
  a mean is the true one exactly when its total stays below 2^64 (`MeanExact`).
- Messages that get into the channel after `Close` has found it empty are never delivered (`DeliveredExact`,
  `LateMessage`).
- Daily rotation compares the day of the month only (`DailyRotationExact`, `SameFileExact`, `AMonthLater`).
- A wrapped 32-bit SNMP delta is one short (`Counter32Exact`, `WrappedByOne`); a 64-bit one needs growth below 2^63
  (`Counter64Exact`, `GrowthTooLarge`).
- A Postgres counter that vanishes is sent again if and only if both buffers hold it (`VanishedSilentExact`):
  its last rate on every second successful pass if it had not dropped, and a negative rate if it had (`VanishedRates`,
  `VanishedNegativeExact`, `NegativeRate`).

## Model

| member | source | states |
|---|---|---|
| Keys.TableKeyInjective | collect-procpidstat.go:257-276 | `comm-pid` names one command and one pid, whatever dashes and digits the command holds |
| Keys.SnapshotKeyInjective | collect-procpidstat.go:198 | `pid`+`comm` names one process among commands that do not start with a digit |
| Keys.SnapshotKeyExact | collect-procpidstat.go:198 | two commands can share a snapshot key if and only if one is the other with digits in front, few enough that 1 followed by them is a 64-bit number |
| Keys.KeyTexts | collect-procpidstat.go:198 | the two keys are command, dash, decimal pid and decimal pid, command |
| Counterexamples.SharedSnapshotKey | collect-procpidstat.go:198 | pid 1 running `2x` and pid 12 running `x` share one |
| StatLine.LastClose | collect-procpidstat.go:19 | the greedy group ends at the last `") "` |
| StatLine.SplitRecovers | collect-procpidstat.go:144-152 | a printed stat line gives back pid, command and remainder for every command, if and only if the remainder has no `") "` |
| ProcTypes.DeltaExact | collect-procpidstat.go:226-248 | nine counters of a delta are differences modulo 2^64, three sizes are the newer ones, and the rest is the newer record |
| ProcTypes.SumLoadsIsModular | collect-procpidstat.go:261-272 | each of the twelve accumulated fields is the integer sum modulo 2^64 |
| ProcTree.DepthBounded | collect-procpidstat.go:250-290 | a path from pid 0 never repeats a pid, so its length is below the number of processes even if unreachable processes form cycles |
| ProcTree.RepExact | collect-procpidstat.go:256-281 | a reachable process keeps its own entry if and only if its parent is not a representative with the same command |
| ProcTree.RepsAlternate | collect-procpidstat.go:256-281 | along a same-named chain representatives alternate |
| ProcTree.FullyConsolidatedExact | collect-procpidstat.go:343-346 | no entry is left whose parent has the same name if and only if no reachable process has the name of its parent and grandparent |
| Counterexamples.ThreeShells | collect-procpidstat.go:256-281 | a shell in a shell in a shell keeps an entry of its own |
| Consolidated.LookupHits | collect-procpidstat.go:257-259 | the lookup under the parent's pid finds exactly a same-named representative parent, never another entry |
| Consolidated.FinalExact | collect-procpidstat.go:256-288 | the final keys are those of the reachable representatives; each entry is its own load plus those folded into it, selected when whitelisted |
| Conservation.LoadIsConserved | collect-procpidstat.go:229-281 | for each of the twelve fields the table sums to the sum over all processes reachable from pid 0, modulo 2^64 |
| ProcTree.AllReachedExact | collect-procpidstat.go:331-346 | every process seen twice is reached from pid 0 if and only if each has parent 0 or a parent seen twice, and none is its own ancestor |
| Counterexamples.MissingParent | collect-procpidstat.go:331-346 | a process whose parent is not seen twice has no part in the table |
| ProcPidStat.Meet | collect-procpidstat.go:257-282 | one loop step: the table for one process more |
| ProcPidStat.Consolidate | collect-procpidstat.go:250-290 | the recursion terminates and leaves the table of everything below, for every order of the sibling slices |
| ProcPidStat.KeyMeansSameProcess | collect-procpidstat.go:332-339 | a key found in both snapshots is the same pid running the same command |
| ProcPidStat.BuildTree | collect-procpidstat.go:331-341 | after the loop the slice of its parent lists every process seen twice exactly once, with the field differences modulo 2^64 and the sizes as they are now, and no other process is listed |
| ProcPidStat.DeltasExact | collect-procpidstat.go:226-248 | the deltas are those of all keys that both snapshots hold, each with its twelve fields, and of no other process |
| ProcPidStat.ConsolidateAll | collect-procpidstat.go:331-346 | the table of a round is a function of the two snapshots; a process seen twice that pid 0 started has an entry under `comm-pid`, and every entry is of a process seen twice |
| Rounds.RoundIsConserved | collect-procpidstat.go:229-346 | unless a process is cut off from pid 0, the entries of a round sum, for each of the twelve fields, to what all processes seen twice have added, modulo 2^64 |
| Selection.Rank | collect-procpidstat.go:350-374 | a ranking holds exactly the entries that reach the threshold, each once, in descending order |
| Selection.UsageExact | collect-procpidstat.go:351-365 | usage times the interval is utime + stime + blkio_ticks, and read + written + cancelled bytes, as integer sums modulo 2^64 |
| Selection.Mark | collect-procpidstat.go:378-388 | the non-blacklisted entries of the first max(1, n + 2) positions are selected, nothing else changes |
| Selection.CollectRound | collect-procpidstat.go:329-403 | a whole round: the CPU ranking holds just the entries whose utime + stime + blkio_ticks modulo 2^64 over the interval reach the threshold, the disk ranking likewise; selected are exactly the whitelisted representatives and the non-blacklisted entries before either cut, and nothing else changes |
| Selection.SelectedExactly | collect-procpidstat.go:376-403 | marking twice selects exactly those entries, because consolidation has selected the whitelisted representatives and no other |
| Selection.CutIsFair | collect-procpidstat.go:376-403 | an entry past a cut is equalled or beaten by max(1, n + 2) others; one below the threshold is in no ranking |
| Selection.TopNExact | collect-procpidstat.go:378-388 | marking equals marking the top n if and only if the extra positions are blacklisted or selected already |
| Counterexamples.TopOfNone | collect-procpidstat.go:378-388 | with n = 0 both of two entries are selected |
| WebRecords.ParseRecord | collect-weblogs.go:83-167 | which lines are rejected and why, and what a parsed record holds |
| WebRecords.RecordSays | collect-weblogs.go:65-164 | what each field of a parsed record is; a prefix is the URL with dashes for slashes, the method in small letters or `other`, and the class of the status, each with the edge cases |
| WebRecords.PrefixDetermines | collect-weblogs.go:157-158 | the full prefix determines the short one |
| WebBatches.WindowsOneMore | collect-weblogs.go:242-283 | one more record extends the last window or opens a new one |
| WebBatches.WindowsAreGreedy | collect-weblogs.go:242-267 | the windows concatenate to the records, each stays within the interval of its start, the next starts beyond it |
| WebBatches.GreedyIsUnique | collect-weblogs.go:242-267 | no other cut has these properties |
| WebBatches.WindowsApart | collect-weblogs.go:242-267 | with timestamps that do not go back, a window spans at most the interval and ends strictly before every later one |
| WebMerge.BatchOneMore | collect-weblogs.go:268-283 | the map updates of the loop give the maps of the longer window |
| WebMerge.TotalsAgree | collect-weblogs.go:233-283 | `reqmetrics[s]` is the sum of `req` over the entries with short prefix s, and all entries count every record once |
| WebMerge.RatiosSumToOne | collect-weblogs.go:178-186 | every ratio has a positive denominator and is in (0, 1]; those of a short prefix sum to exactly 1 |
| WebMerge.TotalIsModular | collect-weblogs.go:271-276 | each total is the integer sum over its group modulo 2^64 |
| WebMerge.MeanBetween | collect-weblogs.go:188-195 | a mean lies between the least and greatest value of its group unless the sum overflows |
| WebMerge.MeanExact | collect-weblogs.go:188-195 | a reported mean is the true mean of its group if and only if the true total is below 2^64 |
| WebMerge.ProxyLatencyExact | collect-weblogs.go:254 | the proxy latency is the difference of the means if and only if the upstream total is not the larger one |
| WebReport.EntryMetrics | collect-weblogs.go:245-255 | what each number sent for an entry is: totals over the interval, the ratio, and the means |
| Counterexamples.WrappedLatency | collect-weblogs.go:254 | with more upstream than request time the difference is 2^64 too large |
| WebAggregator.RunRefinesWindows | collect-weblogs.go:219-284 | the loop is the greedy cut and drops nothing if and only if no window starts at timestamp 0, the last one of a single record excepted |
| WebAggregator.RunOneMore | collect-weblogs.go:233-283 | what one more record does to the open window, the flushed ones and the lost count |
| WebAggregator.PositiveIsNoZeroStart | collect-weblogs.go:233 | which holds when all timestamps are positive |
| Counterexamples.TwoRecordsAtZero | collect-weblogs.go:233-241 | of two records at timestamp 0 the first is lost |
| WebAggregator.RecordsAccounted | collect-weblogs.go:233-283 | every record is flushed, in the open window or dropped |
| WebReport.ReportAll | collect-weblogs.go:243-257 | every entry's metrics are sent once, in some order |
| WebReport.ReportSays | collect-weblogs.go:178-257 | a report has, for each prefix of the window, exactly one metric of each of the five names and, with upstream, of the four more, with value and timestamp in terms of the records: totals modulo 2^64 over interval or requests, time of the first record of the prefix; and no other metric |
| WebAggregator.Aggregator.Flush | collect-weblogs.go:243-257 | what is sent is the report of the open window, with just the names, values and timestamps of `ReportSays` |
| WebAggregator.Aggregator.AddToWindow | collect-weblogs.go:268-283 | the two maps after one record of the open window |
| WebAggregator.Aggregator.Record | collect-weblogs.go:233-283 | one turn of the loop keeps the maps those of the open window and reports each flushed window |
| WebAggregator.CollectWebLogStat | collect-weblogs.go:219-284 | the whole loop over lines, unreadable ones skipped: each flushed window is reported as in `ReportSays` |
| WebAggregator.KeptExact | collect-weblogs.go:222-232 | the readable lines are those with a time, a request of three words and a status, one by one and in order |
| LogChannel.RunKeepsInv | log/log.go:187-262 | over every interleaving, got ++ on its way ++ queued is what counts as sent, the queue is within its capacity, and at most one goroutine receives |
| LogChannel.SentIsAccepted | log/log.go:187-217 | over every run from every state, what counts as sent is what the producers brought at or above the threshold, in order |
| LogChannel.ProducerExact | log/log.go:187-217 | a message at or above the threshold can be sent if and only if the channel has room, and is then put last; it can be handed over if and only if the consumer waits at an empty channel; one below is dropped |
| LogChannel.IdleIsDelivered | log/log.go:221-234 | before Close the consumer has nothing to do if and only if it waits at an empty channel, and then every output has everything sent |
| LogChannel.QuitExact | log/log.go:231-245 | Close can be called at any time, once, and the waiting consumer may take quit with messages still queued |
| LogChannel.WritesBeforeDestroy | log/log.go:244-262 | nothing is written once outputs are being destroyed, and the quit handshake finds no message on its way |
| LogChannel.CloseTerminates | log/log.go:244-262 | once Close is called and producers are quiet, every run is bounded, and every run that cannot go on has delivered everything sent once to every output, destroyed the outputs and returned |
| LogChannel.QuietRunGoesOn | log/log.go:221-262 | from every state a state is reached where nothing can go on without a producer |
| LogChannel.DeliveredExact | log/log.go:246-257 | from the last look of Close on, everything is delivered if and only if no producer gets a message in |
| Counterexamples.LateMessage | log/log.go:246-257 | a message sent after the last look stays in the channel |
| ArchiveNames.NameLess | log/file.go:177 | archive names sort by date and number |
| ArchiveNames.NameInjective | log/file.go:177 | different archives have different names, none the log's own |
| ArchiveNames.NameText | log/file.go:177 | a name is file, dot, date with dashes, dot and three digits, each part written with leading zeros |
| FileLog.RotateConserves | log/file.go:170-207 | rotation overwrites nothing, keeps the whole text, and fails if and only if all 999 numbers of the day are taken |
| FileLog.WriteConserves | log/file.go:117-141 | a message that passes the level adds its frame to the whole text, even when rotation fails; any other changes nothing |
| FileLog.WriteAllConserves | log/file.go:117-141 | the same over any run |
| FileRotation.WriteExact | log/file.go:117-207 | a message that passes starts a new file if and only if `rotate` is on, a line, size or day limit is reached and a number of the day is free, the least one then; otherwise the archives stay and its frame is appended; counters in each case |
| FileRotation.RunRotatesExact | log/file.go:117-166 | over a run in which every day has a free number, nothing is archived if and only if every passing message finds room behind those before it |
| FileRotation.NeverRotates | log/file.go:120-122 | with `rotate` off nothing is ever archived and all frames go to one file |
| FileRotation.StaysInOneFile | log/file.go:107-166 | from an empty file, all frames are in one file while passing messages stay within maxlines, their charges below maxsize and their day number unchanged |
| FileRotation.OpenExact | log/file.go:107-166 | what is known of an opened file: size, day, and as lines the pieces between its newlines, none if it is empty |
| FileLimits.FrameCost | log/file.go:137-139 | 24 are charged for 21 characters of framing, one line for one line |
| FileLimits.RunTracksSize | log/file.go:117-166 | while rotations succeed the tracked size never falls short of the file |
| FileLimits.RunTracksLines | log/file.go:117-166 | nor do the tracked lines, for one-line messages |
| FileLimits.RunKeepsLimits | log/file.go:117-166 | then, with rotation on and files within limits at the start, no file exceeds maxlines lines or maxsize plus one framed message |
| FileLimits.StartedRunKeepsLimits | log/file.go:107-166 | so it is for a writer that has just opened its file, new or within the limits |
| FileLimits.NamesAreInOrder | log/file.go:174-194 | without gaps and with dates that do not go back, name order is rotation order |
| FileLimits.DailyRotationExact | log/file.go:120-122 | by date alone, of two consecutive messages that pass the second goes to the file of the first if and only if their dates have the same day number |
| FileLimits.SameFileExact | log/file.go:120-122 | over a run by date alone, everything after a message goes to its file, with no rotation, if and only if all that pass have its day number |
| Counterexamples.AMonthLater | log/file.go:120-122 | messages of 5 January and 5 February share a file |
| FileLog.FreeNumber | log/file.go:174-183 | the least number of the day that is free, or none |
| FileLogWriter.FindNumber | log/file.go:174-183 | the search loop finds that number |
| FileLogWriter.Writer.StartLogger | log/file.go:107-115 | opens or creates the file and reads its size and lines |
| FileLogWriter.Writer.InitFd | log/file.go:148-166 | the counters of a newly opened file: its size, its lines and the day |
| FileLogWriter.Writer.DoRotate | log/file.go:170-207 | the number search and the rename, or no change at all |
| FileLogWriter.Writer.DoCheck | log/file.go:117-130 | rotate if due, then charge the message unless the rotation failed |
| FileLogWriter.Writer.WriteMsg | log/file.go:133-141 | the new state of directory and counters |
| EndToEnd.NothingLost | log/log.go:187-234 | in every reachable state the archives and the current file are the initial content and the delivered messages that pass, and delivered, on its way and queued are all that producers brought at or above the threshold |
| EndToEnd.AllWritten | log/log.go:244-262 | after Close, archives and file hold the frames of everything producers brought at or above the threshold if and only if no message that passes the file's is left in the channel |
| EndToEnd.RunsReach | log/log.go:187-262 | every run of the logger is one of the whole system: the file never holds it up |
| Postgres.PgStat.Read | collect-postgres.go:857-905 | the readers' writes, complete or cut short |
| Postgres.SendStats | collect-postgres.go:956-974 | every key of the new buffer sends what it should, once, in some order |
| Postgres.SendsExact | collect-postgres.go:956-974 | key by key: a gauge once as shown, a counter in both buffers that has not dropped once as growth and time between, and nothing else |
| Postgres.ReadingExact | collect-postgres.go:857-905 | the reading of a key is the last one written |
| Postgres.Collector.Collect | collect-postgres.go:946-981 | one pass: what is sent, and the two buffers with their roles exchanged unless the pass failed |
| PostgresRuns.BuffersHoldSources | collect-postgres.go:946-979 | which passes' readings the two buffers hold, after any mix of failed and successful passes |
| PostgresRuns.PassExact | collect-postgres.go:946-979 | a pass writes over the newer buffer, whether it succeeds or not, and if it succeeds the buffers change roles |
| PostgresRuns.FreshExact | collect-postgres.go:946-979 | the two readings that a pass compares are its own and that of the preceding successful pass if and only if both read the key; otherwise an older or failed pass stands in |
| PostgresRuns.EmissionIsFresh | collect-postgres.go:956-974 | what is sent for a counter that both passes read |
| PostgresRuns.GaugeIsSent | collect-postgres.go:957-958 | a gauge is sent as the pass has read it, after any run |
| PostgresRuns.SentIsSentFor | collect-postgres.go:956-974 | what a pass after any run sends for a key is what the lemmas over runs speak of |
| PostgresRuns.RateNotNegative | collect-postgres.go:970 | with a clock that advances a second between them every rate sent is over positive time and not negative |
| PostgresRuns.RunRatesNotNegative | collect-postgres.go:960-974 | the same for every pass of a run whose clock advances from reading to reading |
| PostgresRuns.RatesTelescope | collect-postgres.go:960-974 | over a run with an advancing clock, rate times elapsed time, less skipped drops, sums to the last reading minus the first |
| PostgresRuns.VanishedSends | collect-postgres.go:956-979 | all that is sent for a key no longer read, over any run of passes |
| PostgresRuns.VanishedSilentExact | collect-postgres.go:956-979 | a counter no longer read is sent again if and only if both buffers hold it |
| PostgresRuns.VanishedRates | collect-postgres.go:956-979 | every second pass sends what was last sent; the others compare backwards in time |
| PostgresRuns.VanishedNegativeExact | collect-postgres.go:968-970 | a negative rate is sent if and only if the last step was a drop |
| Counterexamples.NegativeRate | collect-postgres.go:968-970 | a fall from 5 to 3 in ten seconds makes a rate of 2 over -10 seconds |
| BufferCache.CountBuffers | collect-postgres.go:374-391 | an entry for each table and state found, with its count modulo 2^64, and no other |
| BufferCache.TalliesByName | collect-postgres.go:384-390 | the entry of table t in state dirty or clean is named `database.<db>.table.<t>.buffercache.` and that word; there is one if and only if a row of the database shows it, and no other |
| BufferCache.TotalExact | collect-postgres.go:374-391 | a total is the sum of the counts of the rows of this database, table and state |
| BufferCache.CacheNameInjective | collect-postgres.go:384-389 | an entry name determines table and state |
| Snmp.Target.CollectOids | collect-snmp.go:48-67 | the stored counters, with other types left as they were |
| Snmp.Target.Poll | collect-snmp.go:113-149 | what a reply sends and how the two arrays change |
| Snmp.ReplyExact | collect-snmp.go:48-67 | what a reply leaves in the two arrays: each value as a signed 64-bit integer with its kind, and as it was where the reply has none or one of another type |
| Snmp.SendsExact | collect-snmp.go:127-140 | oid by oid: 32-bit and 64-bit differences as rates, a gauge as it is and not divided, nothing for other kinds |
| Snmp.GaugeAsShown | collect-snmp.go:58-63 | a gauge that two replies in a row show is sent as the second shows it |
| Snmp.FailureStartsOver | collect-snmp.go:113-126 | a failed request stores nothing, and the next reply sends nothing and is the one to compare with |
| Snmp.Counter32Exact | collect-snmp.go:129-134 | a 32-bit delta is never negative and is the true growth if and only if the shown value has not wrapped, else one short |
| Snmp.Counter64Exact | collect-snmp.go:55-57 | a 64-bit delta is the true growth, across the wrap too, if and only if that is below 2^63 |
| Counterexamples.WrappedByOne | collect-snmp.go:130-131 | from 2^32 - 1 to 2^32 nothing is sent for a growth of 1 |
| Counterexamples.GrowthTooLarge | collect-snmp.go:135-136 | a growth of 2^63 is sent as -2^63 |
| Snmp.Counter32Run | collect-snmp.go:120-141 | over an uninterrupted run 32-bit deltas fall short of the growth by the wraps seen |
| Snmp.Counter64Run | collect-snmp.go:120-141 | over an uninterrupted run 64-bit deltas add up to the growth |

## Left out

- Reading `/proc`, SQL, HTTP, SNMP transport, log tailing and configuration: their results are arbitrary inputs that
  meet the stated preconditions (one directory per pid, no pid 0, a status field that is not empty).
- Regular expressions other than the stat-line pattern: whitelist, blacklist and URL pattern are arbitrary functions.
- `float32` rounding and formatting: reals instead.
- `sort.Sort` is not part of this model: an insertion sort stands for it and only its contract is used, a descending
  rearrangement with equal loads in any order.
- Replacing `/`, space and `.` in command names, the `kernel` group, and fields kept from the previous process when a
  stat line is short: they decide what a record holds, not what is done with it.
- `SendPIDMetrics` and the senders: straight-line naming of metrics. (Line 216 sends `minflt` under the name `majflt`.)
- Request counts in web logs are unbounded naturals; the six totals wrap at 2^64 as in the source.
- WebRecords.ParseRecord: does not parse numbers and times; a field is given as its value or as missing.
- The logger's outputs are installed before the first message: adding or removing outputs while messages flow is an
  unsynchronised access in the source. `skip`, the caller's position and the console output are not modelled.
- LogChannel.RunKeepsInv: models the channel and the goroutines as values, because the steps interleave; update in
  place and memory ordering are not captured.
- FileLogWriter.Writer.WriteMsg: takes one reading of the clock for the whole call, so a call during which midnight
  passes is not modelled.
- Removal of old archives, other processes that touch the log directory, and I/O failures after a rename has begun.
- A log file whose name is empty, which `Init` rejects.
- PostgresRuns.RateNotNegative: needs a clock that advances a second between the readings; with none the source divides
  by zero and sends an infinity or no number, which reals do not have.
- The translation table and the SQL of Postgres, and stored values of unknown types, which read as 0.
- Collectors for CPU, disks, network, memory, file systems, MySQL, nginx status, ping and certificates: straight-line
  subtraction and scaling, or weaker copies of what is modelled.
