# StreamRail: a verified model

StreamRail takes events from HTTP and NATS, groups them into event-time windows, and
evaluates alerting rules over each window that closes. This project models its
windowing core, the storage and acknowledgement protocol around it, and the query it
computes, in Dafny 4.11, and proves what the design promises about whole runs.
`dafny verify dfyconfig.toml` checks everything.

Times are integers, in nanoseconds since Go's zero time; timestamps are unix seconds.
A run is a trace of events, ticks and crashes in any order. A tick may visit the
windows in any order and may be cancelled at any send. Reference functions over
traces (`Traces.Since`, `Traces.MaxTs`, `Corrections.Shut`, `SlidingTraces.Admitted`) never look at a
manager's state, and the theorems tie the managers to them. Where a run has crashes, a
manager restores from a store with a bucket for every window; `SharedStore` proves for
which sizes and namespaces the one database, with its text keys, is such a store for
every manager.

| file | what it models |
|---|---|
| Model, EventTime | events, windows, batches; truncation and flooring of times |
| Rules, Aggregator | filters, grouping keys, thresholds; the aggregation loop |
| Tumbling, Manager | the tumbling manager, as functions on its state and as the object that updates it in place |
| Deadlines | the deadlines of a window in plain numbers, on which statements about runs rest |
| Traces, Reports, Corrections, Completeness, Punctuality, Retention | whole runs of it: history, crashes, reports and corrections, completeness, bounds |
| Evaluation | the rules evaluated over the batches of all streams |
| Sliding, SlidingManager, SlidingTraces | the sliding manager, its object, its runs |
| Agreement | sliding windows with slide equal to size against tumbling windows |
| SliceSharing | batches that alias a growing bucket |
| StoreKeys, Badger | the text keys of the database, and the stores behind them |
| Streams | how rules are split over managers |
| SharedStore | the protocol over the one database that all its managers share |
| Protocol, Delivery, Duplicates, AckBarrier | broker, fan-out, managers and acknowledgement, step by step, with crashes between any two store writes |
| Refinement, Operations | that the steps of a manager in the protocol are its adds and ticks, and no others |

## Where the code and its comments differ

The model follows the code.

- `internal/window/tumbling.go:117-121` says a lateness of 0 disables correction. It does not. For every lateness from 0 up, an event is reported as a correction exactly when its window is shut once the event is in: sent by a tick since it was last collected, or begun by an event that came after the watermark had passed its end (`Corrections.EventIsReportedIffShut`). Without lateness a complete tick does drop at once what it sends (`Corrections.ZeroLatenessDropsAtOnce`), and then the next event for that window is corrected, alone, exactly when the newest timestamp has reached the window's end (`Corrections.ZeroLatenessCorrectsIff`, with a run in `Corrections.ZeroLatenessCorrects`). A window that no tick has sent yet takes late events in silence (`Corrections.OpenWindowTakesLateEvents`).
- `internal/window/sliding.go:10-12` says each event belongs to size/slide windows. That needs the slide to divide the size, which is not checked for a rule that takes the default size (`Sliding.EveryWindowVisitedIff`).
- `internal/store/badger.go:38-39` says stores of different namespaces never collide. They can if a grouping contains a slash (`StoreKeys.SlashInGroupingCollides`), and windows of one store can if they start within one second (`StoreKeys.SameBucketKeyIff`).
- `internal/window/tumbling.go:167-168` says an event is durably held once it is added. That takes a size that keeps the windows of one namespace apart in the database, which is at least a second or divides one, and is not checked (`internal/rule/config.go:136-143`); and namespaces apart from each other. Then the guarantees hold in the one database (`SharedStore.AtLeastOnceInDatabase`, `SharedStore.RestoreFromDatabase`). With any other size and a second of lateness an acknowledged event can be overwritten by the next one (`SharedStore.CollidingWindowsLose`, `SharedStore.AckedAreKeptIff`).
- `internal/engine/engine.go:85` says distinct groupings get distinct keys. A field name that contains the separator breaks that (`Streams.SeparatorInFieldCollides`).
- A window closed by the processing clock can be reported as normal a second time (`Completeness.ProcessingClockReportsTwice`): in some continuation if and only if the watermark has not passed its end (`Completeness.WindowCanBeReportedIff`).
- An alert on a batch without a matching event may be withdrawn by a correction, since MAX and MIN of nothing are 0: exactly when the first match does not pass the threshold by itself (`Aggregator.AlertSurvivesIff`, over runs `Corrections.AlertSurvivesCorrectionIff`, with a run in `Corrections.CorrectionWithdrawsAlert`).

## Model

| member | source | states |
|---|---|---|
| EventTime.WholeSecondWindow | internal/window/tumbling.go:185-198 | with a size of whole seconds, every event lies at or after its window's start and strictly before its end, both read in unix seconds |
| EventTime.EventsPrecedeTheirWindowEndIff | internal/window/tumbling.go:198-214 | from any moment on, no event is past the end of its own window on arrival if and only if the size is a whole number of seconds |
| EventTime.WindowsDivideTheDay | internal/window/tumbling.go:198 | windows of a size that divides a day start at the multiples of it in unix time |
| EventTime.WeeksStartOnMonday | internal/window/tumbling.go:198 | windows of a week start on Mondays |
| Rules.FilterMeaning | internal/rule/rule.go:69-76 | without a filter a rule selects every event; with one, by the event's own service, level or free field, which must be present with exactly that text |
| Rules.ThresholdMeaning | internal/rule/rule.go:79-92 | each operator against its comparison of numbers, and against infinities |
| Rules.GroupMeaning | internal/rule/rule.go:114-137 | events are grouped by service if nothing is asked for, by a field as it is or as nothing if missing, and by several separated |
| Aggregator.Aggregate | internal/aggregator/agg.go:25-72 | the loop returns the batch's identity, the number of matching events, which without a filter are all, and the value of the rule's aggregate over them |
| Aggregator.NoFilterSelectsAll | internal/aggregator/agg.go:31-35 | without a filter the matching events are the events |
| Aggregator.MatchingIsFilter | internal/aggregator/agg.go:31-35 | the matching events are those that have what the filter asks for in their own fields, in order, however the batch is cut |
| Aggregator.NumberMeaning | internal/aggregator/agg.go:36-50 | the numbers aggregated are those of the free field, if it has one |
| Aggregator.SummaryMeaning | internal/aggregator/agg.go:31-50 | count, sum, maximum and minimum of one pass are the size, total, greatest and least element of the numbers of the matching events |
| Aggregator.TotalsMeaning | internal/aggregator/agg.go:53-70 | COUNT is the number of matching events, SUM the total of their numbers |
| Aggregator.AverageMeaning | internal/aggregator/agg.go:64-67 | AVG divides the total by the count of all matching events, numeric or not, and is 0 without any |
| Aggregator.ExtremesMeaning | internal/aggregator/agg.go:28-63 | MAX and MIN are the greatest and least number, an infinity if no matching event has one, 0 if no event matches |
| Aggregator.ValuePermutation | internal/aggregator/agg.go:31-70 | every aggregate is the same for any order of the events |
| Aggregator.AlertSurvivesIff | internal/rule/rule.go:79-92 | a firing alert of COUNT or MAX above, or MIN below, a threshold survives one more event if and only if it is a COUNT, or some event matched, or this one does not, or its own number (an infinity if it has none) passes the threshold |
| Tumbling.AddInv | internal/window/tumbling.go:191-235 | an add keeps store and memory equal, open and closed keys apart, and every window start at or before the newest timestamp |
| Tumbling.TickInv | internal/window/tumbling.go:256-298 | so does a tick, complete or cut short |
| Tumbling.RestartIsInvisible | internal/window/tumbling.go:128-151 | between any two store writes, the state that a restart rebuilds from a store with a bucket for every window is the state before the crash; the database is such a store under the condition of `SharedStore.RestoreFromDatabase` |
| Tumbling.RestartFromNothing | internal/window/tumbling.go:129-131 | without a store, a new process holds nothing |
| Tumbling.RestoreRebuilds | internal/window/tumbling.go:128-151 | a new manager over an old manager's store, with a bucket for every window, is the old manager, less the record of past output |
| Tumbling.CloseOneMore | internal/window/tumbling.go:266-274 | sending and retiring one more window is closing one window more |
| Tumbling.TickOrderIrrelevant | internal/window/tumbling.go:259-280 | a complete tick leaves the same state in every order of map iteration, and sends the same batches up to their order |
| Tumbling.InterruptedTickResumes | internal/window/tumbling.go:275-277 | after a tick that was cancelled, with a restart or not but with no event in between, a tick at any later time gives what it would have given had the first one not happened |
| Tumbling.DueImpliesExpired | internal/window/tumbling.go:285-291 | what is due for collection is due for closing, so nothing is collected unsent |
| Deadlines.WholeSecondsMeaning | internal/window/tumbling.go:181-183 | the lateness counts in whole seconds on the events' side, cut off toward zero |
| Deadlines.DeadlinesArePlain | internal/window/tumbling.go:259-291 | the tests of the manager are its end, plus the lateness or twice the lateness, against the newest timestamp and against the clock |
| Deadlines.EventInTimeIsNotLate | internal/window/tumbling.go:181-214 | an event that is behind the newest one by no more than the lateness is never late for its window |
| Deadlines.EventInTimeIsTaken | internal/window/tumbling.go:201-225 | and unless its window is closed, it joins it in silence |
| Deadlines.TickSendsIff | internal/window/tumbling.go:259-272 | a tick sends no window before the newest event or the clock is past its end by the lateness; a complete one sends every window after |
| Deadlines.TickRetainsIff | internal/window/tumbling.go:285-298 | a complete tick leaves a window closed until the newest event or the clock is past its end by twice the lateness |
| Traces.InvHolds | internal/window/tumbling.go:191-298 | the invariant holds after every run, and the watermark is the newest timestamp of the run |
| Traces.CrashesAreTransparent | internal/window/tumbling.go:123-151 | over a store with a bucket for every window (`SharedStore.HeldWindowsHaveOwnTextsIff` says for which sizes), a run with crashes is possible if and only if the run without them is, and both end in the same state with the same output |
| Traces.BucketsAreHistory | internal/window/tumbling.go:191-235 | a window is held exactly while it has events since its last collection, and its bucket is those events in arrival order, with their count |
| Reports.ClosedAreReported | internal/window/tumbling.go:206-218 | the last batch sent for every closed window is its bucket |
| Corrections.ClosedIffShut | internal/window/tumbling.go:201-225 | over every run, the closed windows are exactly those that the trace makes shut |
| Corrections.EventIsReportedIffShut | internal/window/tumbling.go:201-225 | an event sends one correction, with everything since the window's last collection, if its window is shut once the event is in, and otherwise nothing |
| Corrections.LateEventIsReportedAlone | internal/window/tumbling.go:212-218 | an event past the watermark whose window is not held is reported as a correction that holds it alone |
| Corrections.ZeroLatenessDropsAtOnce | internal/window/tumbling.go:117-121 | without lateness, a complete tick forgets what it sends and what the watermark has passed |
| Corrections.ZeroLatenessCorrectsIff | internal/window/tumbling.go:117-121 | without lateness, an event for a window that is not held is corrected if and only if the newest timestamp has reached the window's end |
| Corrections.ZeroLatenessCorrects | internal/window/tumbling.go:117-121 | a run without lateness that sends a correction |
| Corrections.OpenWindowTakesLateEvents | internal/window/tumbling.go:202-204 | a run in which an event past the watermark joins an open window in silence |
| Corrections.LastReportIsHistory | internal/window/tumbling.go:206-218 | the last batch of a shut window is all its events since its last collection, in arrival order, marked by whether an event or a tick sent it |
| Corrections.RetainedWindowReports | internal/window/tumbling.go:206-210 | while no complete tick finds a closed window past its end by twice the lateness, through any ticks, crashes and other events, it stays closed and its reports are, one for each event, the previous report and exactly that event |
| Corrections.CorrectionsKeepAlertsFiring | internal/window/tumbling.go:206-210 | over the same runs, a monotone alert that fired on a report of the window with a matching event fires on every later report |
| Corrections.AlertSurvivesCorrectionIff | internal/window/tumbling.go:206-210 | over every run, an alert that fired on the last report of a shut window fires on the report that the next event makes exactly under the condition of `Aggregator.AlertSurvivesIff` |
| Corrections.CorrectionWithdrawsAlert | internal/rule/rule.go:79-92 | a run in which an event of the window withdraws an alert |
| Evaluation.Evaluate | internal/engine/engine.go:190-210 | the loop gives out, for each batch in order, one result per rule of its stream |
| Evaluation.LastResultIsAnswer | internal/engine/engine.go:165-208 | however the streams interleave, the last result of a rule for a window is its answer to the last batch of the one stream that serves it |
| Evaluation.LastResultIsBatchQuery | internal/engine/engine.go:109-210 | for every tumbling rule and shut window whose last batch reached the evaluation loop, whatever other batches a crash dropped on the way, the last result given out is the rule's own query, with its own window and grouping, over the filtered event history: key, end, count, value and mark |
| Reports.ArrivalOrderIrrelevant | internal/window/tumbling.go:191-226 | two runs over the same events in any order, not collecting a window while it holds events, hold the same events for it and aggregate to the same values |
| Completeness.RunPartitions | internal/window/tumbling.go:181-226 | with no event behind the newest by more than the lateness, and no window closed by the clock first, every event is in exactly one open window or one report, never corrected |
| Completeness.ReportsAreComplete | internal/window/tumbling.go:181-281 | under the same conditions a report already holds every event of its window in any continuation of the stream, and no window is reported twice |
| Punctuality.PunctualWindowHasOneReport | internal/window/tumbling.go:181-281 | a window whose events come within the lateness, and not after a tick at or past its end plus the lateness, is untouched, open with all its events, or reported once with all of them, though clocks close windows and other events are late |
| Punctuality.PunctualReportIsComplete | internal/window/tumbling.go:181-281 | under the same conditions a report of it is the only one, uncorrected, and holds every event of any continuation |
| Punctuality.PunctualWindowIsReported | internal/window/tumbling.go:256-281 | and a complete tick past either deadline leaves it reported |
| Completeness.AtMostOneNormalReport | internal/window/tumbling.go:256-298 | if windows are only collected past their watermark horizon, no window is reported as normal twice |
| Completeness.WindowCanOpenIff | internal/window/tumbling.go:212-298 | a window that is not open can open again in some continuation if and only if the watermark has not passed its end |
| Completeness.WindowCanBeReportedIff | internal/window/tumbling.go:212-298 | and can be reported as normal in some continuation, again if it was before, under exactly the same condition |
| Completeness.ProcessingClockReportsTwice | internal/window/tumbling.go:262-290 | with collection by the processing clock, every configuration has a run with events on time and two normal reports of one window |
| Retention.StateIsBounded | internal/window/tumbling.go:256-298 | after a complete tick of a whole run a group has at most ceil(L/S)+1 open and ceil(2L/S)+1 held windows |
| Retention.StateIsBoundedAcrossCrashes | internal/window/tumbling.go:191-298 | so it has whenever a manager ends a tick in the protocol, where crashes come between any two store writes, also between a checkpoint and its bucket |
| Manager.WindowManager.Restore | internal/window/tumbling.go:128-151 | loading the store rebuilds the restarted state and counts the open windows |
| Manager.WindowManager.Append | internal/window/tumbling.go:229-235 | the bucket of the key grows by the event, and is saved |
| Manager.WindowManager.Add | internal/window/tumbling.go:191-226 | the four-way branch computes the state that the theorems are about |
| Manager.WindowManager.CloseExpired | internal/window/tumbling.go:256-281 | the loop sends expired windows only, each once, all of them unless cancelled, and collects only when complete |
| Manager.WindowManager.GcClosed | internal/window/tumbling.go:285-298 | the loop removes exactly the due windows from memory and store |
| Sliding.VisitedStartsCover | internal/window/sliding.go:87-93 | the loop visits distinct windows, all containing the event |
| Sliding.EveryWindowVisitedIff | internal/window/sliding.go:82-110 | from any moment on, it visits every window containing the event, for all events, if and only if the slide divides the size |
| SlidingManager.WindowManager.Add | internal/window/sliding.go:82-110 | the loop adds the event to exactly the visited windows that still accept |
| SlidingManager.WindowManager.CloseExpired | internal/window/sliding.go:114-130 | the loop sends expired windows only, each once, all of them unless cancelled, and remembers them as closed |
| SlidingTraces.RunTracks | internal/window/sliding.go:82-130 | a window is open exactly while it has admitted events and was not sent, and holds exactly those |
| SlidingTraces.SentOnceAndExactly | internal/window/sliding.go:114-130 | no window is sent twice, the keys sent are those remembered as closed, and every batch is what was admitted |
| SlidingTraces.AdmittedIsFilteredPrefix | internal/window/sliding.go:94-102 | what a window admits is a prefix of the stream, filtered, and all of it while the window accepts |
| SlidingTraces.SlidingTickSendsIff | internal/window/sliding.go:114-130 | a tick sends no window before the newest event or the clock has reached its end; a complete one sends every window after |
| SlidingTraces.InOrderLosesNothing | internal/window/sliding.go:82-130 | in order and closed by watermark, every window holds every event of its group and span in the stream |
| SlidingTraces.InOrderLosesNothingIff | internal/window/sliding.go:82-130 | for a slide that divides the size, no window of any run in order and closed by watermark loses an event if and only if the slide is a whole number of seconds |
| SlidingTraces.EventLandsInAllWindows | internal/window/sliding.go:78-110 | then every event enters exactly size/slide windows, those that contain it |
| Agreement.AddAgreesIff | internal/window/sliding.go:91-109 | with slide equal to size and no lateness, an event keeps the sliding and the tumbling manager in agreement if and only if its window is open and not past, or new and not yet due |
| Agreement.TickAgrees | internal/window/sliding.go:114-130 | managers in agreement can take the same ticks, and stay in agreement |
| Agreement.SlidingRefinesTumbling | internal/window/sliding.go:82-130 | on every run whose events fit, both have the same open windows and send the same batches |
| SliceSharing.SharedBucket.Append | internal/window/tumbling.go:229-231 | appending, in place or into a new array, leaves what every earlier batch reads |
| SliceSharing.SharedBucket.Emit | internal/window/tumbling.go:243-249 | a batch shares the bucket's array and reads the events of that moment |
| SliceSharing.SharedBucket.AppendAll | internal/window/tumbling.go:229-250 | any number of appends, with any growth of the array, leave every batch sent before unchanged |
| StoreKeys.SameBucketKeyIff | internal/store/badger.go:57-62 | two buckets of one namespace share a key exactly when they have one group and start in one second, whatever the group values contain |
| StoreKeys.KeyTexts | internal/store/badger.go:47-84 | the key layout, by example |
| StoreKeys.BucketKeyInjective | internal/store/badger.go:57-62 | windows of whole seconds never share a key |
| StoreKeys.StartsTellApartIff | internal/store/badger.go:57-62 | from any moment on, windows of one size that start in one second are one window if and only if the size is at least a second or divides one |
| StoreKeys.ScanIsFaithfulIff | internal/store/badger.go:120-136 | among the windows of any one start, the prefix scan of a namespace sees no bucket of another, for any group, if and only if neither, with its closing slash, begins with the other |
| StoreKeys.StreamNamespacesApart | internal/engine/engine.go:80-81 | namespaces of slash-free size and grouping meet that condition exactly when they differ |
| StoreKeys.SlashInGroupingCollides | internal/store/badger.go:53-62 | with a slash in a grouping, buckets of two streams get one key |
| Badger.CheckpointRoundTrip | internal/store/badger.go:87-117 | an int64 survives its eight big-endian bytes |
| Badger.CheckpointBytes | internal/store/badger.go:88-89 | the most significant byte comes first, by example |
| Badger.Database.Save | internal/store/badger.go:64-72 | saving changes that bucket of that namespace and nothing else of it, if and only if no other window is filed under its text; and no namespace apart from it and no mark |
| Badger.Database.Delete | internal/store/badger.go:74-78 | deleting removes that bucket of that namespace and nothing else of it, under the same condition; and changes no namespace apart from it and no mark |
| Badger.Database.SaveCheckpoint | internal/store/badger.go:87-93 | the watermark of that namespace is set, and no namespace apart from it and no mark changes |
| Badger.Database.LoadCheckpoint | internal/store/badger.go:95-118 | returns the saved watermark, or that there is none, or fails on a value of the wrong length |
| Badger.Database.LoadAll | internal/store/badger.go:120-142 | the scan returns exactly the buckets saved and not deleted in the namespace, each once |
| Badger.Database.Seen | internal/store/badger.go:152-158 | says whether the message was marked and has not expired, whatever was saved, deleted or checkpointed since |
| Badger.Database.Mark | internal/store/badger.go:162-167 | adds one message to the marked ones, and changes no window store |
| Badger.Database.Expire | internal/store/badger.go:162-167 | the time to live takes one message from the marked ones, and changes no window store |
| Streams.Partition | internal/engine/engine.go:118-139 | the two loops map each stream to its rules in order, and to the fields of the first of them |
| Streams.RulesOfIsFilter | internal/engine/engine.go:118-126 | the rules of a stream are those with its size, slide and fields, in configuration order |
| Streams.SameGroupingIff | internal/engine/engine.go:86-97 | two groupings with one canonical text group all events alike if and only if they name the same fields |
| Streams.SeparatorInFieldCollides | internal/engine/engine.go:86-91 | with the separator in a field name, two groupings share a stream and are not alike |
| Streams.StreamsServeRules | internal/engine/engine.go:118-154 | every rule is in exactly one stream, and with separator-free field names that stream's group function is the rule's |
| Streams.SameStreamIff | internal/engine/engine.go:118-126 | a rule is served in windows of its own size, or the default if it gives none; two rules share a stream exactly if size, slide and fields are the same |
| Streams.GroupKeysTellGroupsApart | internal/rule/rule.go:122-137 | with separator-free values, composite keys are equal exactly when all the values are |
| Protocol.LocalOk | internal/window/tumbling.go:162-174 | every single step of a manager keeps its invariant and loses no event that is stored open or emitted |
| Refinement.AddInSteps | internal/window/tumbling.go:162-171 | the steps of an uninterrupted add amount to the manager's add |
| Refinement.TickInSteps | internal/window/tumbling.go:256-298 | the steps of an uninterrupted or cancelled tick amount to the manager's tick |
| Operations.StepIsOfOperation | internal/window/tumbling.go:155-175 | conversely, every step continues the add or the tick it is in, or ends a tick that the manager may take |
| Operations.HistoriesAreRuns | internal/window/tumbling.go:155-175 | whatever the interleaving, a manager whose crashes fall between operations has gone through a whole run by itself over exactly the events it has finished, and is inside one operation since |
| Operations.FinishedIsPrefix | internal/engine/engine.go:221-241 | within one process these events are a prefix of what the fan-out took, so all managers go through the same events in the same order |
| Delivery.RunsAreConsistent | internal/engine/engine.go:221-256 | the invariant of the whole protocol holds after every history |
| Delivery.CrashConsistent | internal/ingester/nats.go:135-144 | a crash, anywhere, keeps it: channels and counters are lost, nothing promised is |
| Delivery.AtLeastOnce | internal/ingester/nats.go:145-181 | however handlers, managers and crashes interleave, also with a handler that blocks between its seen check and its enqueue or acknowledgement: once a message is marked seen or acknowledged, its event is, in every manager with a store, in a stored open bucket or in a batch handed downstream; over stores with a bucket for every window, see `SharedStore.AtLeastOnceInDatabase` for the database |
| Delivery.FanOutPrefixes | internal/engine/engine.go:221-241 | streams have received prefixes of the input, not growing along the streams, and at most one envelope apart |
| Delivery.AckFiresOnceAfterAll | internal/engine/engine.go:243-256 | an upstream acknowledgement fires at most once, and exactly when all managers have finished the event |
| Duplicates.MarkedMessageIsNotTakenAgain | internal/ingester/nats.go:145-157 | once a message is marked, with no copy on its way, the fan-out never takes it again until the mark expires, whatever is redelivered with an id, whatever the interleaving and the crashes |
| Duplicates.DuplicateIsAcknowledged | internal/ingester/nats.go:149-157 | a redelivery of a marked message can be acknowledged at once, and changes nothing else |
| Duplicates.MarkedBeforeAcked | internal/ingester/nats.go:165-170 | a message delivered with its id, whose mark does not expire, is marked before it is acknowledged |
| Duplicates.MessageCanGetThrough | internal/ingester/nats.go:145-181 | after every history each message that decodes can still be acknowledged, and marked, at worst after a crash and a redelivery |
| SharedStore.LocalMirrors | internal/store/badger.go:57-93 | with a size that keeps windows apart, every step of a manager changes its namespace of the one database as it changes its own store |
| SharedStore.RunsAreShared | internal/engine/engine.go:156-157 | for managers with such sizes and namespaces apart from each other, after every history the database holds, under each namespace, what its manager believes to be stored, and the marks of exactly the seen messages |
| SharedStore.AtLeastOnceInDatabase | internal/ingester/nats.go:145-181 | under the same conditions, once a message is marked in the database or acknowledged, the database has an open bucket with its event under the namespace of every manager with a store, or the event is in a batch handed downstream |
| SharedStore.RestoreFromDatabase | internal/window/tumbling.go:128-151 | and after any history, restoring from a namespace of the database gives the manager there was, less the record of past output |
| SharedStore.HeldWindowsHaveOwnTextsIff | internal/store/badger.go:57-62 | no run ever holds two windows with one text key if and only if the size is at least a second or divides one |
| SharedStore.CollidingWindowsLose | internal/store/badger.go:57-72 | with any other size and a second of lateness, a run that acknowledges two messages and then has the event of the first in no stored bucket and no batch |
| SharedStore.AckedAreKeptIff | internal/window/tumbling.go:162-171 | with at least a second of lateness, one manager keeps what it acknowledged, in the database or in a batch, in every run if and only if the size is at least a second or divides one |
| SharedStore.SmallWindowsAreSentOnArrival | internal/window/tumbling.go:212-218 | with less lateness, windows of less than a second never open: every add sends a batch with its event |
| AckBarrier.Barrier.Done | internal/engine/engine.go:251-255 | each call moves the 32-bit counter and fires at zero |
| AckBarrier.FiresExactlyOnceIff | internal/engine/engine.go:246-256 | the callback has fired exactly once if and only if all calls came, and less than a turn of the counter more |

## Left out

- Manager.WindowManager: buckets are values in its maps; that a bucket is changed through a pointer is not shown there. What such sharing can do to batches is shown in SliceSharing.
- EventTime.FromUnix: times and durations are unbounded integers; overflow of Go's 64-bit durations and times is not modelled.
- Manager.WindowManager.Restore: a store that cannot be read makes it return the error and the process stop; only the checkpoint's own error is modelled (`Badger.Database.LoadCheckpoint`).
- Tumbling.RestartIsInvisible: what a manager restores when two of its windows had one text key, under a size that is less than a second and does not divide one, is not modelled beyond the loss shown in `SharedStore.CollidingWindowsLose`.
- Rules.FieldFloat: numbers are reals, so rounding, NaN and infinite field values are not modelled, nor is the tie between the text a value prints as and its number.
- Badger.Database.Save: serialisation is taken as an exact round trip, and writes as durable once they return; the manager discards their errors.
- Protocol.Deliver: the broker may deliver any message any number of times, so negative acknowledgement and termination of malformed messages leave no trace; a handler that gives up at shutdown, or meets a malformed message, enqueues nothing.
- Protocol.ExpireSeen: the time to live of a seen entry is a step that may come at any time.
- Sliding managers in the protocol: they promise nothing across a crash, as they store nothing; a manager without a store stands for them.
- Duration text: the text of a window size in a namespace is a parameter without slashes.
- A negative lateness, which the flag accepts: the theorems on collection ask for a lateness of at least 0.
- A manager without an output channel, which only unit tests use, and the rule name in a window key, which is never set.
- Channel capacities, tickers, scheduling and liveness: queues are unbounded and ticks come at any time, which allows every bounded behaviour.
- Batches after they are handed downstream, and exactly-once counting: the code promises neither. A crash between sending a batch and saving its window sends it again.
- HTTP ingestion, notifiers, templates, metrics, command line and rule files: input, output and plumbing.
