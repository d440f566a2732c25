# Verification of the load-test controller

A Dafny model of the controller's stateful parts and proofs about it. Verify everything with
`dafny verify dfyconfig.toml`.

## What is modelled

* **Recurring schedules** (`Instants`, `Recurrence`, `OccurrenceWalks`, `UtcCalendar`). A series is the orbit of an
  `advance` function. The calendar, the search for the next run, the conflict check, deletion and recovery all walk that
  orbit separately; the proofs show that they agree. The zone's date arithmetic on whole seconds is a parameter that
  has to go forward by an hour or more; `UtcCalendar` builds the UTC calendar and discharges that.
* **Schedules and their life** (`Schedules`, `Overlap`, `ScheduleDelete`, `Recovery`, `SchedulerModel`,
  `SchedulerEffects`, `SchedulerSafety`, `CrashRecovery`, `SchedulerOutcomes`, `SchedulerRuns`, `ScheduleEnds`,
  `OneTimeSlots`, `CrashRuns`, `Scheduler`). The scheduler is a machine over store writes, so that a crash may cut a
  step, or a restart, off after any of them; `Scheduler` is the object that performs them.
* **Artifacts** (`Text`, `RegistryModel`, `Registry`, `RawFormat`, `RawParser`, `Collection`,
  `UploadVerdicts`, `CompletionLoop`). The upload registry against the complete history of uploads, the printed text
  and its two parsers, and the verdict on what arrived.
* **Ramps** (`Durations`, `Ramping`, `RampRuns`, `RampingManager`, `VuScenarios`). The VU schedule, its sharing among
  workers, the pause and override clock told from the event log alone, and the rewriting of scenarios.
* **Polling and startup** (`Polling`, `PollEndings`, `PollLoop`, `Startup`).
* **Payload padding and the token cache** (`Padding`, `TokenCache`).
* **Merging metrics** (`StatusCodes`, `AuthMerge`, `K6Metrics`, `WeightedMeans`, `SummaryMerge`, `Aggregation`,
  `LiveFailures`).

Instants and durations are integers (nanoseconds; milliseconds in the token cache), metric values are reals, the parts
of the environment a step depends on (the clock, what the database or a worker answers, whether a test could be
started) are its parameters.

## What the proofs found

Each finding has the exact condition under which it happens, and an input.

* A live poll, in which workers report only their failure rates, counts the failures of the first worker with requests
  and no others (`LiveFailures.LiveTotalsIff`, `SecondWorkerUnseen`).
* Nothing keeps a schedule within its recurrence end: neither create nor update compares the time with it, and the due
  query does not look at it. A schedule past its end still runs once (`CrashRecovery.StepObeysIff`, `PastEndRuns`,
  `ScheduleEnds.UpcomingIsSeriesIff`). The number of runs is bounded all the same (`ScheduleEnds.ExecutionsBounded`).
* Deleting "this and all later" occurrences past the end date revives occurrences (`ScheduleDelete.DeleteFutureExactIff`,
  `DeleteFutureRevives`).
* Deleting the first occurrence of a series that is over puts the series back to scheduled
  (`ScheduleDelete.DeleteSingleExactIff`, `EndedSeriesRunsAgain`).
* The conflict check looks at the first 100 occurrences of every other series and at the first slot of the proposal
  (`Overlap.HorizonMissesIff` and `HundredthHourAccepted`, `LaterRunsMissedIff` and `SecondRunUnchecked`).
* An update may put a schedule onto an occurrence on its own skip list, which then runs (`CrashRecovery.StepObeysIff`,
  `SkippedOccurrenceRuns`).
* Resuming a paused schedule is not checked for overlaps (`OneTimeSlots.ResumeKeepsDisjointIff`, `ResumeOverlaps`).
* A monthly series that starts after the 28th drifts to another day (`UtcCalendar.MonthlyKeepsDayIff`,
  `EndOfJanuaryDrifts`).
* A constant-vus scenario whose duration reads as less than a second, such as "1m30s", runs for a minute without a ramp
  (`VuScenarios.OutlivesByBufferIff`, `BuilderHoldMatchesScriptIff`, `CompoundDurationLosesRamp`).
* Padding an object that lacks the padding field by fewer bytes than the field needs ends in a run-time error
  (`Padding.OutOfRangeIff`, `TenBytesShort`).
* A token response whose body is `null` ends a round of requests as neither success nor failure
  (`TokenCache.AuthState.RequestAccessToken`, `NullBodyThrows`).
* A worker that leaves out a latency statistic pulls it towards zero for all (`Aggregation.AggregateIsMeanIff`,
  `MissingStatisticDilutes`).

## Model

| member | source | states |
|---|---|---|
| Recurrence.NextIncludedOccurrence | controller/internal/scheduler/recurrence.go:64-79 | The bounded loop over the series returns the next unskipped occurrence within the end date, "no more" or the step-limit error, as the recursive search whose meaning `OccurrenceWalks.NextIncludedExact` fixes |
| Recurrence.ExpandOccurrences | controller/internal/scheduler/recurrence.go:83-128 | The calendar loop lists the slots that `OccurrenceWalks.ExpandExact` characterises |
| Recurrence.OrbitOrder | controller/internal/scheduler/recurrence.go:25-60 | Repeating the step never meets an instant twice, and the order of the points is the order of their indices, for every zone whose advance is forward by an hour or more |
| Recurrence.OrbitGrows | controller/internal/scheduler/recurrence.go:25-60 | Later points of a series are at least an hour later |
| Recurrence.OrbitWhole | controller/internal/scheduler/recurrence.go:25-60 | A series based on a whole second stays on whole seconds, in every zone |
| Recurrence.SingleShown | controller/internal/scheduler/recurrence.go:83-128 | A one-time schedule is shown whatever its end date says, one of an unknown type once and only up to its end, each only if it is not skipped and meets the range |
| OccurrenceWalks.MeetsBetweenExact | controller/internal/scheduler/recurrence.go:25-60 | A walk along the series decides whether it has an unskipped point in a given interval |
| OccurrenceWalks.WalkStops | controller/internal/scheduler/recurrence.go:64-79 | Where the search stops: at the first included point, at the first point past the end date, or just past its step limit, having skipped everything before |
| OccurrenceWalks.SearchNeverFails | controller/internal/scheduler/recurrence.go:64-79 | A skip list of fewer than 100 distinct seconds never reaches the 100-step error |
| OccurrenceWalks.SearchFailsIff | controller/internal/scheduler/recurrence.go:25-79 | The search gives up if and only if the type is unknown or the next hundred points are all skipped and not past the end |
| OccurrenceWalks.NextIsLeast | controller/internal/scheduler/recurrence.go:64-79 | An answer is the least later unskipped occurrence within the end date, with any skip list |
| OccurrenceWalks.NoMoreMeansNone | controller/internal/scheduler/recurrence.go:64-79 | "No more" is answered only when no later occurrence exists, with any skip list |
| OccurrenceWalks.NextIncludedExact | controller/internal/scheduler/recurrence.go:12-79 | With a short skip list the search answers an instant if and only if it is the least later occurrence, and "no more" if and only if there is none |
| OccurrenceWalks.ExpandExact | controller/internal/scheduler/recurrence.go:83-128 | The slots shown are exactly the unskipped orbit points among the first 100 that are not past the end date and whose slot meets the range, in time order, each with its own end |
| OccurrenceWalks.CalendarAgreesWithScheduler | controller/internal/scheduler/recurrence.go:64-128 | From every shown slot the scheduler's search moves to the next shown slot, and from a base that is itself left out to the first shown one |
| OccurrenceWalks.LastShown | controller/internal/scheduler/recurrence.go:64-128 | After the last shown slot the scheduler's search leaves the range or the first 100 points, or the series is over |
| UtcCalendar.UtcForward | controller/internal/scheduler/recurrence.go:25-60 | Hourly, daily, weekly and monthly steps in UTC advance by at least an hour, so every result about forward zones holds for UTC |
| UtcCalendar.FixedSteps | controller/internal/scheduler/recurrence.go:42-50 | A step is an hour in every zone for hourly series, and in UTC a day and a week for daily and weekly ones |
| UtcCalendar.MonthTable | controller/internal/scheduler/recurrence.go:42-54 | The months have their Gregorian lengths, in every year |
| UtcCalendar.EvenOrbit | controller/internal/scheduler/recurrence.go:25-60 | The n-th point of an hourly, daily or weekly UTC series is n periods after its base |
| UtcCalendar.EvenNext | controller/internal/scheduler/recurrence.go:64-79 | Without a skip list the next run of such a series is one period later, or none if that is past the end |
| UtcCalendar.EvenCalendar | controller/internal/scheduler/recurrence.go:83-128 | The calendar shows it at every period from its base, the first hundred that meet the range and the end, and nowhere else |
| UtcCalendar.MonthlyStep | controller/internal/scheduler/recurrence.go:48-52 | A monthly UTC step advances by exactly the length of the current month, overflow into the next month included, and keeps the time of day |
| UtcCalendar.YearStart | controller/internal/scheduler/recurrence.go:48-52 | The month table used for monthly steps places every year where the Gregorian leap-year rule does |
| UtcCalendar.MonthlyKeepsDayIff | controller/internal/scheduler/recurrence.go:48-52 | A monthly UTC series stays on its day of the month for ever if and only if it starts on one of the first 28 days |
| UtcCalendar.EndOfJanuaryDrifts | controller/internal/scheduler/recurrence.go:48-52 | A series based on 31 January of any year runs next on 3 March, in a leap year on 2 March, and never keeps its day |
| Overlap.NearbyExact | controller/internal/scheduler/overlap.go:64-93 | For one series, also of an unknown type, the first overlap found among the expanded slots is its earliest clash, and none is found exactly when there is none |
| Overlap.RecurringConflictExact | controller/internal/scheduler/overlap.go:64-93 | Nothing is reported if and only if no other series has an occurrence among its first 100 points whose slot overlaps the proposal; otherwise the earliest clash of the first clashing series is |
| Overlap.HorizonMissesIff | controller/internal/scheduler/overlap.go:64-93 | A series has an occurrence that overlaps the proposal if and only if the series stage reports one or a walk that goes on behind its first 100 points meets one: the stage misses exactly what only that walk finds |
| Overlap.HorizonComplete | controller/internal/scheduler/overlap.go:64-93 | A proposal that ends by the 101st point and is reported free meets no occurrence of the series at all |
| Overlap.HundredthHourAccepted | controller/internal/scheduler/overlap.go:64-93 | A one-minute test proposed for the run of an hourly schedule 100 hours ahead is accepted |
| Overlap.LaterRunsMissedIff | controller/internal/handler/schedule.go:259-269 | A recurring proposal meets a stored slot if and only if its first slot does, which is all the check looks at, or a walk along its later runs meets it |
| Overlap.SecondRunUnchecked | controller/internal/handler/schedule.go:259-269 | Of a recurring proposal only the first slot is checked: an hourly one is accepted although its second run meets a stored test |
| Overlap.FreeIsClear | controller/internal/scheduler/overlap.go:26-108 | What the machine takes as "no conflict" is that the proposal meets neither the running test, nor a live stored slot, nor any of the first 100 included occurrences of another active series |
| Overlap.CheckOverlapExact | controller/internal/scheduler/overlap.go:26-108 | The check reports nothing if and only if the proposal shares no time with the running test (two hours if its length is unknown), with another row that is scheduled or running and not paused, or with an included occurrence of another repeating row; what it reports is the running test with its slot, the first stored row, or the earliest clash of the first clashing series, in this order |
| ScheduleDelete.FilterSkippedOccurrencesBefore | controller/internal/handler/schedule.go:200-211 | Keeps exactly the skip entries before the cutoff second, in order |
| ScheduleDelete.SkippedBeforeKeeps | controller/internal/handler/schedule.go:200-211 | After pruning, an instant is skipped if and only if it was and falls in an earlier second than the cutoff |
| ScheduleDelete.BaseMoved | controller/internal/handler/schedule.go:562-586 | Moving the base to the next occurrence drops no later occurrence of the series |
| ScheduleDelete.MovedUpcoming | controller/internal/handler/schedule.go:562-586 | A row moved to its next occurrence still runs for every later time it would have run for, and for nothing else |
| ScheduleDelete.DeleteSingleExactIff | controller/internal/handler/schedule.go:507-626 | Single-scope deletion takes exactly the chosen second out of the times the scheduler will still run the row for, also when it moves the base, ends the series or drops the row, if and only if the row is scheduled or the handler does not move it on to a later run |
| ScheduleDelete.RefusedUntouched | controller/internal/handler/schedule.go:507-626 | When a deletion answers with an error the row is untouched |
| ScheduleDelete.DeleteRefusedIff | controller/internal/handler/schedule.go:530-570 | Refused are occurrences more than a minute ago, by whole seconds, then running rows, and single deletions behind which the search gives up |
| ScheduleDelete.DeleteRemovesIff | controller/internal/handler/schedule.go:541-626 | A row is dropped if and only if it is a one-time one, or was never executed and nothing of it is left |
| ScheduleDelete.DeleteCompletesIff | controller/internal/handler/schedule.go:571-626 | A row that has been executed stays, completed and ending a second before the deleted occurrence if nothing is left of it, and otherwise with its status |
| ScheduleDelete.EndedSeriesRunsAgain | controller/internal/handler/schedule.go:558-626 | A series that was ended at its first time and whose end another deletion moved up is completed and runs no more; taking its first time out puts it back to scheduled, and it runs again |
| ScheduleDelete.DeleteSingleFails | controller/internal/handler/schedule.go:558-597 | It fails to find the next run only behind 100 distinct skipped seconds |
| ScheduleDelete.DeleteFutureLeaves | controller/internal/handler/schedule.go:598-626 | Future-scope deletion of a scheduled row leaves the row's own time, if it is earlier than the chosen one, and the unskipped points up to a second before it, whatever the end date was; a row that is over stays so |
| ScheduleDelete.DeleteFutureExactIff | controller/internal/handler/schedule.go:598-626 | It leaves exactly the times before the chosen occurrence if and only if the row is over, or of an unknown type, or a walk along the series meets no unskipped point between the old end date and a later new one |
| ScheduleDelete.DeleteFutureExact | controller/internal/handler/schedule.go:598-626 | For an occurrence no later than a second after the current end date it leaves exactly the times strictly before the chosen one |
| ScheduleDelete.DeleteFutureRevives | controller/internal/handler/schedule.go:598-626 | Past the end date it adds occurrences: a series over at its base gets a second run back |
| ScheduleDelete.FutureNeverStrands | controller/internal/handler/schedule.go:598-626 | A row that a future-scope deletion leaves scheduled stands within its new end date, even if it was past the old one |
| Recovery.NextFutureOccurrence | controller/internal/scheduler/scheduler.go:231-249 | The loop of at most 1000 advances, as the recursive search whose meaning `Recovery.NextFutureLeast` fixes |
| Recovery.NextFutureLeast | controller/internal/scheduler/scheduler.go:231-249 | Recovery lands on the least later occurrence that is not before the recovery time, and calls a series exhausted only when every later occurrence is in the past |
| Recovery.StuckIff | controller/internal/scheduler/scheduler.go:231-249 | With a short skip list the advance limit is hit if and only if the 1000th occurrence ahead is still in the past |
| Recovery.HourlyStuckIff | controller/internal/scheduler/scheduler.go:231-249 | For an hourly schedule without end and skip list the limit is hit if and only if its base lies more than 1000 hours back |
| Recovery.ShortOutageRecovers | controller/internal/scheduler/scheduler.go:231-249 | An outage of at most 1000 hours never hits it |
| Recovery.NormalizedRow | controller/internal/scheduler/scheduler.go:227-302 | A normalised row that is still due runs at or after the recovery time; if it was moved it stands on an included occurrence; nothing but its time and status changes |
| SchedulerSafety.StepKeepsInv | controller/internal/scheduler/scheduler.go:84-210 | Every tick, completion, create, update, delete, pause and resume keeps callbacks, running executions and running schedules matched one to one, and every stored time on a whole second, as its column holds it |
| SchedulerSafety.EmptyInv | controller/internal/scheduler/scheduler.go:67-82 | A fresh scheduler satisfies the invariant |
| SchedulerSafety.RunningCounts | controller/internal/scheduler/scheduler.go:84-210 | A schedule is running if and only if exactly one callback is pending for it and exactly one of its executions is in progress; otherwise there is none of either |
| SchedulerOutcomes.TickTakesEarliest | controller/internal/store/store.go:1275-1290 | A tick takes an earliest row that is scheduled, not paused and due within fifteen seconds, and is possible if and only if there is one |
| SchedulerOutcomes.TickOutcome | controller/internal/scheduler/scheduler.go:157-174 | A tick that starts the test marks the row running, adds an execution in progress for its time and registers its callback, and does nothing else |
| SchedulerOutcomes.FailedTickOutcome | controller/internal/scheduler/scheduler.go:410-449 | A tick that cannot start it leaves a failed execution and moves the row on as after a failure |
| SchedulerOutcomes.CompletionOutcome | controller/internal/scheduler/scheduler.go:187-210 | A completed test writes off its own execution, drops its callback and moves its row on: a one-time row is completed or failed, a repeating one goes to its next run, is completed without one, and is paused after three failures in a row |
| SchedulerOutcomes.StreakIff | controller/internal/store/store.go:1391-1411 | The failures counted are at least n if and only if the last n executions of the schedule have all failed |
| SchedulerOutcomes.PausedBeforeScheduled | controller/internal/scheduler/scheduler.go:472-522 | After three failures the row is paused before it is put back to scheduled |
| SchedulerOutcomes.PutOutcome | controller/internal/store/store.go:1192-1262 | A created or updated row is that of the request with its times rounded to the nearest second; no other row, execution or callback changes |
| SchedulerOutcomes.PauseOutcome | controller/internal/store/store.go:1264-1268 | Pausing and resuming change nothing but the row's flag |
| SchedulerOutcomes.DeleteOutcome | controller/internal/handler/schedule.go:541-626 | A deleted row goes with exactly its own executions, a changed one is replaced, and a refusal changes nothing |
| SchedulerOutcomes.CrashShowsRuns | controller/internal/scheduler/scheduler.go:157-210 | Wherever a step is cut off, every execution in progress belongs to a running row |
| SchedulerOutcomes.RestartShowsRuns | controller/internal/scheduler/scheduler.go:211-226 | The same for a cut-off restart |
| CrashRecovery.CrashStoreGood | controller/internal/scheduler/scheduler.go:157-210 | Cut off after any store write of any step, the tables are consistent, and after a guarded step no row that is up for execution stands on a skipped occurrence, or past its end date |
| CrashRecovery.StepObeysIff | controller/internal/handler/schedule.go:94-626 | A step puts a row that is up for execution onto a skipped occurrence, or past its end date, if and only if it is an update onto a skipped second, or a create or an update past the end date, with times as the store rounds them |
| CrashRecovery.SkippedOccurrenceRuns | controller/internal/handler/schedule.go:289-349 | An update onto a skipped occurrence is accepted and the next tick executes it |
| CrashRecovery.PastEndRuns | controller/internal/handler/schedule.go:117-152 | A schedule whose end date lies before its first time is accepted and executed |
| CrashRecovery.RecoverRestores | controller/internal/scheduler/scheduler.go:525-529 | From any consistent tables, recovery leaves no running rows or executions, every unpaused scheduled row at or after the recovery time, and the invariant in force |
| CrashRecovery.RecoverObeys | controller/internal/scheduler/scheduler.go:251-302 | Recovery never moves a row onto a skipped occurrence or past its end date |
| CrashRecovery.CrashThenRecover | controller/internal/scheduler/scheduler.go:211-327 | From a crash between any two store writes of any step, guarded or not, recovery leads to such a state; after a guarded step the rows obey the rule too |
| CrashRecovery.RecoverWritesAll | controller/internal/scheduler/scheduler.go:211-327 | The writes of a restart that lists every row once, in any order, are the recovery |
| CrashRecovery.CutRecoveryGood | controller/internal/scheduler/scheduler.go:211-327 | A restart that dies after any of its own writes leaves consistent tables with every row obeying, as the next restart needs them |
| CrashRecovery.RecoverLeavesAlone | controller/internal/scheduler/scheduler.go:227-229 | A row that is paused, not up for execution, or not in the past comes out of recovery as it was, except that a running one is scheduled again |
| CrashRecovery.RecoverFailsOthers | controller/internal/scheduler/scheduler.go:251-302 | An overdue one-time row has failed, and so has one of an unknown type |
| CrashRecovery.RecoverMovesLeast | controller/internal/scheduler/scheduler.go:251-302 | An overdue recurring row moves to the least included occurrence not in the past; it is completed if and only if every later one is past, and fails if and only if the search gives up; nothing but its time and status changes |
| CrashRecovery.RecoverWritesOff | controller/internal/scheduler/scheduler.go:211-218 | Executions that were in progress have failed; all others and their order stay |
| CrashRuns.RunsKeepInv | controller/internal/scheduler/scheduler.go:84-327 | However steps, crashes and restarts that crash again follow each other, callbacks, running executions and running schedules are matched one to one at the end |
| CrashRuns.RunsObey | controller/internal/scheduler/scheduler.go:84-327 | In such a run of guarded steps no row that is up for execution ever stands on a skipped occurrence, or past its end date |
| CrashRuns.EmptyIsSound | controller/internal/scheduler/scheduler.go:67-82 | All of it holds for the runs of a controller that has just been set up |
| SchedulerRuns.StepKeepsStrict | controller/internal/scheduler/scheduler.go:472-522 | Without restart, update and an untimely resume every step keeps each schedule's next time ahead of everything it has run and its failure streak below three |
| SchedulerRuns.ExecutionsAdvance | controller/internal/scheduler/scheduler.go:119-133 | Over a whole such run two executions of one schedule are for times at least an hour apart, the later row for the later time: no occurrence runs twice |
| SchedulerRuns.EmptyStrict | controller/internal/scheduler/scheduler.go:67-82 | An empty controller is where these runs may start |
| SchedulerRuns.NeverAfterThreeFailures | controller/internal/store/store.go:1391-1411 | In every such run from an empty controller, a tick starts a recurring schedule only with fewer than three failures in a row behind it, and for a time it has never executed |
| SchedulerRuns.ExecutionsSpread | controller/internal/scheduler/scheduler.go:119-133 | n executions of a schedule span at least n - 1 hours from the first to the last |
| ScheduleEnds.ExecutionsBounded | controller/internal/scheduler/scheduler.go:472-522 | A schedule created with a recurrence end has at most one execution more than there are hours from its stored first time to that end, however the run goes on, as long as no deletion moves the end date up |
| ScheduleEnds.ExecutionsWithinEnd | controller/internal/scheduler/scheduler.go:472-522 | The same bound read off the state, for a row that obeys its end date |
| ScheduleEnds.SuccessConsumesTime | controller/internal/scheduler/scheduler.go:472-522 | A successful run takes exactly its own time out of the times still to come, and marks the series completed if and only if none is left |
| ScheduleEnds.UpcomingIsSeriesIff | controller/internal/store/store.go:1275-1290 | The times the due query will run a row for are the occurrences of its series if and only if the row obeys its skip list and its end date |
| OneTimeSlots.ResumeKeepsDisjointIff | controller/internal/handler/schedule.go:648-661 | A resume keeps live one-time schedules pairwise disjoint if and only if a one-time row that becomes live again overlaps no other live one-time slot |
| OneTimeSlots.RoundedStaysClear | controller/internal/store/store.go:134-139 | A proposal that is clear of a stored slot stays clear of it when the store rounds its time |
| OneTimeSlots.StepKeepsDisjoint | controller/internal/store/store.go:1292-1318 | Every other step keeps them disjoint, even one cut off after any of its writes |
| OneTimeSlots.CutRecoveryDisjoint | controller/internal/scheduler/scheduler.go:211-327 | So does a restart, cut off after any of its writes |
| CrashRuns.RunsKeepDisjoint | controller/internal/scheduler/scheduler.go:84-327 | In every run, with any crashes and restarts, whose resumes fit, they stay disjoint |
| OneTimeSlots.RecoverKeepsDisjoint | controller/internal/scheduler/scheduler.go:303-327 | Recovery keeps them disjoint |
| OneTimeSlots.ResumeOverlaps | controller/internal/handler/schedule.go:648-661 | A resume is not checked: a one-time schedule created while another was paused overlaps it afterwards |
| SchedulerService.Scheduler.CountConsecutiveFailures | controller/internal/store/store.go:1391-1411 | Walks the last ten executions, newest first, and counts the failures up to the first other status |
| SchedulerService.Scheduler.AdvanceSchedule | controller/internal/scheduler/scheduler.go:472-522 | Performs exactly the writes of the step machine's advance, in their order |
| SchedulerService.Scheduler.BeginScheduledExecution | controller/internal/scheduler/scheduler.go:157-174 | Marks the row running, inserts the execution and registers its callback |
| SchedulerService.Scheduler.Tick | controller/internal/scheduler/scheduler.go:383-449 | One tick is the machine's tick step for the due schedule, or nothing when a test is active or nothing is due |
| SchedulerService.Scheduler.OnTestComplete | controller/internal/scheduler/scheduler.go:187-210 | Takes one pending callback, whichever the map yields, and performs the machine's completion step for it |
| SchedulerService.Scheduler.DeleteSchedule | controller/internal/handler/schedule.go:507-626 | Performs the deletion of the machine and answers its outcome |
| SchedulerService.Scheduler.NormalizeOverdueSchedule | controller/internal/scheduler/scheduler.go:251-302 | Rewrites one overdue row as the machine's normalisation and no other row |
| SchedulerService.Scheduler.Recover | controller/internal/scheduler/scheduler.go:211-327 | The three recovery passes together are the machine's recovery |
| RegistryModel.NormalizedWorkers | controller/internal/completion/registry.go:74-100 | Expected workers are trimmed, non-empty, distinct, and exactly the trimmed non-blank names given |
| RegistryModel.UploadShown | controller/internal/completion/registry.go:119-157 | An upload replaces what is shown for its worker, unless it is an auth summary that is not stronger than the one kept |
| RegistryModel.StepRefines | controller/internal/completion/registry.go:74-265 | Each operation answers as the complete history of uploads and closings demands, and keeps the relation to it |
| RegistryService.ScoreParts | controller/internal/completion/registry.go:174-212 | The points of an auth summary: one for an empty one, and what each part adds |
| RegistryModel.RegistryRefinesHistory | controller/internal/completion/registry.go:74-265 | Lazy expiry cannot be observed: with a clock that does not run backwards every sequence of calls is answered as if each run were dropped the moment its period is over |
| RegistryModel.EmptyRelated | controller/internal/completion/registry.go:60-72 | An empty registry matches the empty history, so the refinement starts there |
| RegistryModel.StepKeepsExpectedOnly | controller/internal/completion/registry.go:119-157 | No operation records an upload of a worker that was not expected |
| RegistryModel.SnapshotNamesExpected | controller/internal/completion/registry.go:119-157 | A snapshot holds artifacts of expected workers only |
| RegistryService.Registry.CleanupExpired | controller/internal/completion/registry.go:252-265 | Deletes exactly the expired runs |
| RegistryService.Registry.RegisterRun | controller/internal/completion/registry.go:74-104 | The registration step of the registry machine |
| RegistryService.Registry.RemoveRun | controller/internal/completion/registry.go:106-117 | The closing step: the run is kept for the late-upload period |
| RegistryService.Registry.StoreArtifact | controller/internal/completion/registry.go:119-157 | The upload step: unknown run, token, worker and artifact type are refused in this order, an accepted upload is put away |
| RegistryService.Registry.Snapshot | controller/internal/completion/registry.go:213-250 | The snapshot step, expiring lazily |
| RegistryService.AbortDominates | controller/internal/completion/registry.go:174-212 | An auth summary that reports an abort outranks every one that does not |
| RegistryService.AbortKept | controller/internal/completion/registry.go:119-212 | Once a worker has reported an abort its snapshot shows an abort for good, whatever is uploaded later |
| RawFormat.SplitFirst | controller/internal/scriptgen/summary.go:459-470 | Splitting undoes joining: a marker-free block in front of a marker is the first block of the split |
| RawFormat.SplitRendered | controller/internal/completion/registry.go:267-284 | Splitting the printed text gives one block per printed worker, in order |
| RawParser.ParseRawSummaryContent | controller/internal/scriptgen/summary.go:459-492 | The loop over the blocks collects the decodable ones, as the function the round trip is about |
| RawParser.ParseRawAuthSummaryContent | controller/internal/scriptgen/summary.go:593-624 | The same for the auth parser |
| RawParser.SummaryRoundTrip | controller/internal/scriptgen/summary.go:459-492 | Parsing the printed text gives back every worker with its own name and its trimmed body, in the order printed |
| RawParser.AuthRoundTrip | controller/internal/scriptgen/summary.go:593-624 | The auth parser gives back the same bodies in the same order, with the marker left on the first name |
| RawParser.CollectedExact | controller/internal/scriptgen/summary.go:459-492 | The blocks that come through are exactly those the decoder accepts, in their order; one it rejects is skipped wherever it stands |
| RawParser.ScanNoMarker | controller/internal/scriptgen/summary.go:459-470 | Text that is lexically JSON (sections 6 and 7 of RFC 8259) never contains the block marker |
| RawParser.ScanReadsOver | controller/internal/scriptgen/summary.go:465-470 | The lexical condition reads over any JSON string, so it turns only on what stands outside of strings |
| RawParser.JsonContentOk | controller/internal/completion/registry.go:267-284 | A body that is JSON once trimmed cannot be cut by the marker |
| Collection.OrderedArtifactWorkers | controller/internal/completion/registry.go:303-323 | Expected workers that uploaded in their order, then the unexpected ones in byte order, each once |
| Collection.BuildRawSummary | controller/internal/completion/registry.go:267-284 | The text is the rendering of all non-blank artifacts, arranged so, and empty for an unknown type |
| Collection.ClassifyArtifactCollection | controller/internal/handler/test.go:448-497 | Expected and received counts, missing workers and verdict, as the function `Collection.ClassifiedExact` is about |
| Collection.ClassifyMeaning | controller/internal/handler/test.go:448-497 | Whatever was expected and whatever arrived: counts, missing workers and verdict, with blanks trimmed and nobody expected |
| Collection.ParsedSenders | controller/internal/handler/test.go:540-566 | Parsing the printed snapshot names exactly the workers that uploaded |
| Collection.ClassifiedExact | controller/internal/handler/test.go:448-497 | For the workers that uploaded: complete iff every expected worker did, missing iff none did, and received plus missing is expected |
| Collection.VerdictExact | controller/internal/handler/test.go:448-566 | The same through the printed text and back, for every snapshot whose non-blank summaries are valid JSON |
| UploadVerdicts.ReplyAnswers | controller/internal/completion/registry.go:74-265 | The n-th answer of a registry that started empty is the one the calls before it demand |
| UploadVerdicts.VerdictFromCalls | controller/internal/handler/test.go:448-566 | Whatever an empty registry was asked to do, the verdict on the printed snapshot of a run says complete if and only if the last accepted summary of every expected worker is not blank, missing if and only if that of none is, and lists exactly the workers without one |
| CompletionLoop.LoadCompletionSummary | controller/internal/handler/test.go:980-1065 | The retry loop returns the first complete report, else one that no other report seen before the deadline beats |
| Durations.AtoiReadsItoa | controller/internal/scriptgen/scriptgen.go:1384-1395 | Printing a number and parsing the text gives it back exactly when it fits 64 bits |
| Durations.ParsersAgree | controller/internal/orchestrator/ramping.go:285-305 | On every string the stage parser and the duration parser agree up to 64-bit wrap-around of the nanoseconds |
| Durations.ParsersAgreeIff | controller/internal/scriptgen/scriptgen.go:1384-1404 | They agree exactly if and only if the length in nanoseconds fits 64 bits |
| Durations.SecondsTextReadsBack | controller/internal/scriptgen/scriptgen.go:1959-1964 | A duration printed as whole seconds is read back as the same number |
| Durations.UnitsRead | controller/internal/scriptgen/scriptgen.go:1384-1404 | A number behind which s, m, h or another letter stands reads as that many seconds, minutes, hours or seconds |
| Durations.NothingElseReads | controller/internal/scriptgen/scriptgen.go:1384-1404 | White space around it does not matter, and without a number in front of the last letter it reads as nothing |
| Ramping.CalculateVUs | controller/internal/orchestrator/ramping.go:250-282 | The loop returns count, done flag and stage index of the schedule function the lemmas below are about |
| Ramping.PlanCoversSchedule | controller/internal/orchestrator/ramping.go:250-282 | Done if and only if the whole schedule has elapsed; before that the stage is the one whose interval contains the moment |
| Ramping.StageNeverGoesBack | controller/internal/orchestrator/ramping.go:250-282 | Stage index and done flag never go back as time passes, whatever the durations are |
| Ramping.PlanBetweenTargets | controller/internal/orchestrator/ramping.go:250-282 | The count lies between the previous and the current target at every moment of every schedule |
| Ramping.PlanInIntegers | controller/internal/orchestrator/ramping.go:262-273 | In exact arithmetic the interpolation is one integer division, and its divisor is positive |
| Ramping.StageStartsAtPreviousTarget | controller/internal/orchestrator/ramping.go:250-282 | A stage begins exactly at the target the previous one was to reach |
| Ramping.PlanMovesTowardsTarget | controller/internal/orchestrator/ramping.go:250-282 | Within a stage the count moves towards the target and never back |
| Ramping.ScaleVUs | controller/internal/orchestrator/orchestrator.go:288-310 | The shares sent; they add up to the total if and only if it is not negative or divides evenly |
| Ramping.SharesEven | controller/internal/orchestrator/orchestrator.go:288-310 | No two shares differ by more than one, and none exceeds the total divided and rounded up |
| Ramping.SharesDescend | controller/internal/orchestrator/orchestrator.go:288-310 | The first workers get the larger shares |
| Ramping.PeakExact | controller/internal/scriptgen/scriptgen.go:1194-1200 | The peak is a target that no other exceeds, or one |
| Ramping.CapacityIsTight | controller/internal/scriptgen/scriptgen.go:1201-1214 | The capacity is what the first worker needs at the peak, and no more |
| Ramping.GenerateRampingVUs | controller/internal/scriptgen/scriptgen.go:1194-1228 | The per-worker capacity and the duration text written into the script |
| Ramping.DemandFitsCapacity | controller/internal/scriptgen/scriptgen.go:1201-1214 | At every moment of every schedule no worker is asked for more VUs than its script allows |
| Ramping.ScriptOutlivesRamp | controller/internal/scriptgen/scriptgen.go:1201-1220 | The script's own duration, read back, runs past the end of the ramp by exactly the completion buffer |
| RampRuns.ElapsedConserved | controller/internal/orchestrator/ramping.go:94-144 | In every run the elapsed time a live tick uses is the total unpaused time since the start |
| RampRuns.DoneOnlyAfterSchedule | controller/internal/orchestrator/ramping.go:194-213 | A live tick reports the ramp done if and only if the unpaused time covers the sum of the stage durations |
| RampRuns.LiveIffRunning | controller/internal/orchestrator/ramping.go:45-154 | A run loop is live if and only if some start, or accepted resume of a paused ramp with stages, has since been followed by no stop, no pause that took effect, and no tick at which all stages were over |
| RampRuns.TickLaw | controller/internal/orchestrator/ramping.go:194-243 | Every tick of every run does nothing unless the log says a run loop is ticking, and then what the log prescribes: the schedule at the unpaused time, except that a positive override governs every tick of its stage and, once left, never returns |
| RampingService.RampingManager.Begin | controller/internal/orchestrator/ramping.go:45-65 | The start step on the fields, logged |
| RampingService.RampingManager.SetManualOverride | controller/internal/orchestrator/ramping.go:69-90 | The override step: remembers the stage of this moment, ignored without stages |
| RampingService.RampingManager.PauseRamp | controller/internal/orchestrator/ramping.go:94-114 | The pause step: banks the elapsed time once, stops the run loop |
| RampingService.RampingManager.ResumeRamp | controller/internal/orchestrator/ramping.go:118-144 | The resume step: nothing unless every worker accepted and it was paused |
| RampingService.RampingManager.Halt | controller/internal/orchestrator/ramping.go:147-154 | The stop step |
| RampingService.RampingManager.TickOnce | controller/internal/orchestrator/ramping.go:198-243 | One second of the ticker does what the log before it prescribes while the log says a run loop is ticking, and nothing otherwise |
| VuScenarios.TransformVUScenarios | controller/internal/scriptgen/scriptgen.go:1915-2027 | Every scenario is replaced on its own, and the stages are concatenated in one visit of each scenario, in an unspecified order; with one scenario they replay it as `VuScenarios.StagesReplayed` says |
| VuScenarios.StagesReplayed | controller/internal/scriptgen/scriptgen.go:1924-2022 | A ramping-vus scenario is replayed as its stages in order, leaving out what is not an object; a constant one as its count, at least one, from the first moment to the end of its duration; an externally controlled one as its maximum or fifty, for its duration or two minutes; no other |
| VuScenarios.RewrittenMeaning | controller/internal/scriptgen/scriptgen.go:1924-2022 | What the workers get instead: externally controlled from 0 VUs, with the peak as maximum and the duration, or its default, plus the completion buffer |
| VuScenarios.SingleScenario | controller/internal/scriptgen/scriptgen.go:1915-2027 | With one scenario the visiting order does not matter |
| VuScenarios.HoldIsConstant | controller/internal/scriptgen/scriptgen.go:1981-1989 | The two stages of a constant scenario are exactly its VU count from the first moment on, and done from its duration on |
| VuScenarios.OutlivesByBufferIff | controller/internal/scriptgen/scriptgen.go:1924-2022 | The rewritten scenario outlives the ramp by exactly the completion buffer if and only if it is not a constant-vus scenario whose duration reads as less than a second |
| VuScenarios.CompoundDurationLosesRamp | controller/internal/scriptgen/scriptgen.go:1384-1404 | The duration "1m30s" reads as no seconds: the script runs for a minute, and its ramp is over at once |
| VuScenarios.RewrittenLeavesRoom | controller/internal/scriptgen/scriptgen.go:1936-1994 | However the total is shared out and whenever it is asked for, no share exceeds the rewritten maxVUs |
| VuScenarios.BuilderHoldMatchesScriptIff | controller/internal/handler/test.go:1571-1598 | The request handler and the script generator, which default the duration separately, describe the same run if and only if the duration is empty or reads as at least a second |
| VuScenarios.CompoundDurationInBuilder | controller/internal/handler/test.go:1571-1598 | The builder turns "1m30s" into the same pair of a one-minute script and an empty ramp |
| VuScenarios.BuilderHoldMeaning | controller/internal/scriptgen/scriptgen.go:1231-1255 | Whatever the duration, the requested count is in force throughout and every share fits the script's capacity |
| Polling.MemoryExact | controller/internal/orchestrator/orchestrator.go:429-467 | Having seen the test run means that some poll had data; the empty-poll counter is the number of polls since the last one that had; the time series is the polls with data in order; the latest metrics are the last poll's |
| Polling.PeaksExact | controller/internal/orchestrator/orchestrator.go:446-451 | A worker's recorded peak is the maximum count it ever reported, although polls without data are not looked at |
| Polling.PollCounts | controller/internal/orchestrator/orchestrator.go:429-467 | A poll with any requests or any VUs makes the run seen and resets the counter; one with neither changes nothing but the counter, and that only in a run that was seen |
| PollEndings.AllWorkersEnded | controller/internal/orchestrator/orchestrator.go:607-664 | True if and only if the ramp is done or every worker is reachable and either not running and finished or, for native runs, paused |
| PollEndings.AllEndedIff | controller/internal/orchestrator/orchestrator.go:607-664 | Which answers let a worker count as ended, spelled out |
| PollEndings.NativeCompletesIff | controller/internal/orchestrator/orchestrator.go:470-509 | A native run completes if and only if three empty polls follow data, or all workers ended after data, five polls and all but a poll interval of the expected duration, or it never started |
| PollEndings.ControllableCompletesIff | controller/internal/orchestrator/orchestrator.go:470-509 | A controllable run without managed ramp completes if and only if all workers ended after data and five polls, or it never started |
| PollEndings.ManagedCompletesIff | controller/internal/orchestrator/orchestrator.go:470-509 | A managed ramp completes if and only if it is done, or all workers ended while the run had fallen silent for two polls after data, or it never started |
| PollEndings.PausedKeepsRunAlive | controller/internal/orchestrator/orchestrator.go:607-650 | While a worker of a controllable run says it is paused and the ramp is not done, only the never-started guard ends the run |
| PollEndings.ActiveWorkerKeepsRunAlive | controller/internal/orchestrator/orchestrator.go:607-664 | While data arrives, one unreachable or running worker keeps any run alive unless the ramp is done |
| PollEndings.NeverStartedIsBounded | controller/internal/orchestrator/orchestrator.go:586-602 | A run that never reports data is over at its 150th poll at the latest |
| PollService.Orchestrator.UpdatePollingState | controller/internal/orchestrator/orchestrator.go:429-467 | One poll folded into the fields |
| PollService.Orchestrator.Poll | controller/internal/orchestrator/orchestrator.go:511-605 | The loop stops at the first event that stops it, calls the completion function once unless that is a cancellation, never otherwise, and the fields then describe exactly the polls so far |
| PollService.Orchestrator.ApplyPeakVUs | controller/internal/orchestrator/orchestrator.go:315-332 | Every worker with a recorded peak shows it, the others are untouched, and the total is the sum of the peaks |
| Startup.ResumeWorker | controller/internal/orchestrator/orchestrator.go:141-167 | A worker counts as resumed if and only if one of its five answers is a success that no answer before it forestalled; otherwise the result is the answer that stopped the tries, or the last one |
| Startup.GaveUpOnce | controller/internal/orchestrator/orchestrator.go:141-167 | That answer is unique, and there is none when the command was taken |
| Startup.TakenIff | controller/internal/orchestrator/orchestrator.go:141-167 | For a user's resume: one answer accepts. For a start: an acceptance comes before any "already active" answer |
| Startup.ResumeAll | controller/internal/orchestrator/orchestrator.go:134-171 | Succeeds if and only if every worker took the command; otherwise reports the answer that ended the tries of one that did not |
| Startup.WaitForAllReady | controller/internal/orchestrator/orchestrator.go:789-820 | Succeeds if and only if two consecutive sweeps found every worker paused, not stopped and not finished |
| Startup.SteadyMeaning | controller/internal/orchestrator/orchestrator.go:789-820 | Ready means paused, not stopped and not finished, for every worker in two sweeps in a row |
| Startup.ResumeAllForStart | controller/internal/orchestrator/orchestrator.go:213-263 | At most three attempts; each but the last ended with some worker's "already active", had every worker take the stop command and was followed by steady readiness; success means every worker took the last attempt; every failure has its own reason |
| Padding.EscapeAppend | controller/internal/scriptgen/scriptgen.go:940-945 | Appending padding to a string appends exactly as many bytes to its serialization |
| Padding.EscapeReadsBack | controller/internal/scriptgen/scriptgen.go:966-975 | A JSON reader (section 7 of RFC 8259) gets the text back from its escaped form |
| Padding.EscapeIsSafe | controller/internal/scriptgen/scriptgen.go:966-975 | The escaped form has no control character and nothing that looks like markup |
| Padding.EntriesShape | controller/internal/scriptgen/scriptgen.go:966-975 | Entries are separated by commas |
| Padding.PaddedSize | controller/internal/scriptgen/scriptgen.go:940-947 | The size of the padded object: the padding, plus 19 or 20 bytes when the field is new |
| Padding.SizeObjectPayload | controller/internal/scriptgen/scriptgen.go:921-964 | The exact condition of every outcome: content if and only if there is no padding field that is not a string, the object is not too large, and it has the size, or the field, or room for an empty one; the content has the requested size and is the object with the same other fields and a padding text that continues the old one, keys in order |
| Padding.SizedMeaning | controller/internal/scriptgen/scriptgen.go:921-964 | The same about the outcome as a function of the input |
| Padding.SizedExactly | controller/internal/scriptgen/scriptgen.go:921-964 | Content has exactly the requested size, and the corrections always converge |
| Padding.OutOfRangeIff | controller/internal/scriptgen/scriptgen.go:949-956 | The slice at line 954 runs out of range if and only if there is no padding field and the shortfall does not cover an empty one |
| Padding.TenBytesShort | controller/internal/scriptgen/scriptgen.go:949-956 | An object of 1014 bytes without the field cannot be padded to 1024 |
| Padding.PaddingTouchesNothingElse | controller/internal/scriptgen/scriptgen.go:940-956 | No other field changes, and the padding string only by appending |
| Padding.BuildExactPayloadContent | controller/internal/scriptgen/scriptgen.go:892-919 | Without a target, or at it, the text as it is; too large a value and one that is no object get their own errors; an object below the target is sized with the exact conditions above |
| TokenCache.RefreshWindow | controller/internal/scriptgen/scriptgen.go:273-284 | A token is renewed no earlier than a second after issue (or its lifetime, if shorter) and no later than its expiry, whatever skew, jitter and lifetime |
| TokenCache.NoLeadIff | controller/internal/scriptgen/scriptgen.go:273-284 | It is renewed at its very expiry if and only if it lives at most a second, or neither skew nor jitter ask for a lead |
| TokenCache.LeadExact | controller/internal/scriptgen/scriptgen.go:273-284 | The lead is the largest that asks for no more than skew and jitter, takes no more than a fifth of the life or five seconds before the jitter, and leaves a second |
| TokenCache.JitterSpread | controller/internal/scriptgen/scriptgen.go:262-271 | VUs are spread over whole seconds up to the maximum, then from the start again |
| TokenCache.RetriedIff | controller/internal/scriptgen/scriptgen.go:321-334 | Tried again are lost responses and retryable statuses that are no success |
| TokenCache.EndsExact | controller/internal/scriptgen/scriptgen.go:461-524 | A round ends with the first reply that is not retried, if it comes within the retry limit, and otherwise with the last one the limit allows |
| TokenCache.RecordedExact | controller/internal/scriptgen/scriptgen.go:295-304 | A response adds one to the count of its own status, from 100 to 599, and to no other |
| TokenCache.OutcomeMeaning | controller/internal/scriptgen/scriptgen.go:408-497 | Which reply gives a token, and the cause, status and retryable flag of the abort otherwise |
| TokenCache.AuthState.SendRequests | controller/internal/scriptgen/scriptgen.go:461-520 | Requests are sent until one is not retried, at most one more than the retry limit, and each response is counted under its status |
| TokenCache.AuthState.RequestAccessToken | controller/internal/scriptgen/scriptgen.go:436-529 | One round ends as exactly one success, exactly one failure with its abort cause, status and retryable flag, or (a 2xx body `null`, a post that throws) an uncaught exception; an abort is marked retryable only once all attempts are used up; only a success changes the token |
| TokenCache.NullBodyThrows | controller/internal/scriptgen/scriptgen.go:478-492 | A 200 with the body `null` ends the round with an exception, after one request and with neither a success nor a failure counted |
| TokenCache.AuthState.EnsureAuthorizationHeader | controller/internal/scriptgen/scriptgen.go:531-545 | A reused token has not expired when it is looked at; any other header carries a token issued just now; the counters of `Valid` (refreshes one less than successes, successes at most requests) hold in every run |
| StatusCodes.MergeStatusCodeCounts | controller/internal/scriptgen/summary.go:166-193 | The merged table is strictly ascending with positive codes and counts, and its count for every code is the sum of both |
| StatusCodes.EntryAdds | controller/internal/scriptgen/summary.go:171-182 | An entry adds its count to its own code if both are positive, and nothing otherwise |
| StatusCodes.AppendUniqueStatusCodes | controller/internal/scriptgen/summary.go:130-150 | The positive codes of both lists, each once, ascending |
| StatusCodes.CanonicalUnique | controller/internal/scriptgen/summary.go:166-193 | Such a table is determined by its counts |
| AuthMerge.MergeAuthSummaries | controller/internal/scriptgen/summary.go:626-702 | Counts and table are the sums, flags and code lists collect what any worker reports, texts and refresh skew are the first that are set, means are weighted by requests, and the merge fails exactly when there is nothing to report |
| AuthMerge.MergedIsMean | controller/internal/scriptgen/summary.go:626-702 | Every merged time is the mean over the workers that made requests, weighted by these |
| AuthMerge.MergedMeansWithin | controller/internal/scriptgen/summary.go:626-702 | It lies within the range of their values |
| AuthMerge.FirstTextExact | controller/internal/scriptgen/summary.go:626-702 | Each merged text is the first one that is not empty |
| AuthMerge.OneSummary | controller/internal/scriptgen/summary.go:626-702 | Merging one summary gives its own figures back |
| AuthMerge.MergeOrderIndependent | controller/internal/scriptgen/summary.go:626-702 | The same workers in another order give the same counts, table, flags, rate, means and maximum |
| WeightedMeans.MeanWithin | controller/internal/scriptgen/summary.go:207-228 | A weighted mean lies within the range of its values |
| WeightedMeans.MeanOfTwo | controller/internal/scriptgen/summary.go:207-228 | The mean of two values balances them by their weights |
| WeightedMeans.PercentilesStayOrdered | controller/internal/scriptgen/summary.go:207-228 | Percentiles in order on every contributing worker are in order in the weighted means |
| SummaryMerge.AggregateLatencyMetric | controller/internal/scriptgen/summary.go:230-270 | Every statistic is the weighted mean over the workers that have the metric; minimum and maximum bound the usable values and are attained |
| SummaryMerge.MergedLatencySane | controller/internal/scriptgen/summary.go:230-270 | The merged statistics stay within the workers' range and in order |
| SummaryMerge.OneWorkerLatency | controller/internal/scriptgen/summary.go:230-270 | With one worker the merged statistics are that worker's |
| SummaryMerge.TwoWorkersLatency | controller/internal/scriptgen/summary.go:230-270 | Two workers are balanced by the count of the weight metric, else by their requests, else as one each |
| SummaryMerge.MinimumExact | controller/internal/scriptgen/summary.go:197-205 | The merged minimum is the least one reported; for durations a zero counts as not reported, for other metrics it counts |
| SummaryMerge.MergeTotals | controller/internal/scriptgen/summary.go:346-378 | The totals, the business counters included, are the sums of the workers' tallies, and business metrics are announced if and only if a worker has any |
| SummaryMerge.TotalsAreSums | controller/internal/scriptgen/summary.go:361-373 | Every plain total is the sum of its own metric |
| SummaryMerge.BusinessAreSums | controller/internal/scriptgen/summary.go:374-381 | So is every business counter |
| SummaryMerge.FailuresNearest | controller/internal/scriptgen/summary.go:361-366 | A worker's failures are its requests times its failure rate to the nearest whole number, halves up and never below 0, and its successes the rest |
| SummaryMerge.RequestsConservedIff | controller/internal/scriptgen/summary.go:361-366 | Successes and failures add up to the requests if and only if no worker has more rounded failures than requests |
| SummaryMerge.WholeCountsConserved | controller/internal/scriptgen/summary.go:361-366 | They do for whole request counts and failure rates within [0, 1] |
| Aggregation.AggregateAll | controller/internal/orchestrator/aggregator.go:14-258 | Samples, VU and request totals, weighted latencies, rates and failure counters of a poll |
| Aggregation.AggregateIsMeanIff | controller/internal/orchestrator/aggregator.go:131-190 | The aggregated statistic is the weighted mean over the workers that report it if and only if every weighing worker reports it or their weighted values add up to 0 |
| Aggregation.AggregateWithinRange | controller/internal/orchestrator/aggregator.go:131-190 | A statistic that every weighing worker reports stays within the reported range, whatever the other statistics are |
| Aggregation.AggregateKeepsOrder | controller/internal/orchestrator/aggregator.go:131-190 | Two statistics that every weighing worker reports in the same order keep that order, with or without p(99) |
| Aggregation.MissingStatisticDilutes | controller/internal/orchestrator/aggregator.go:131-190 | A worker that reports only its mean halves the median of the other one |
| Aggregation.RatesComplement | controller/internal/orchestrator/aggregator.go:192-236 | Error and success rate lie in [0, 1] and are complementary if and only if there is anything to judge by |
| Aggregation.RatesMeaning | controller/internal/orchestrator/aggregator.go:192-240 | The rates are the shares of failures and successes, else of failed and passed checks, else the mean check rate, else everything failed |
| Aggregation.RoundNearest | controller/internal/orchestrator/aggregator.go:110-116 | Counts made up from rates are rounded to the nearest whole number, halves away from zero |
| Aggregation.ReportedMeaning | controller/internal/orchestrator/aggregator.go:242-249 | Counters that nobody has are made up from the error rate to the nearest whole number, and account for all requests |
| Aggregation.CountersAreSums | controller/internal/orchestrator/aggregator.go:62-219 | Requests and check counters are plain sums |
| Aggregation.FailuresAreSums | controller/internal/orchestrator/aggregator.go:99-118 | So are the failure counters when every worker that has them has counted anything |
| Aggregation.VusMeaning | controller/internal/orchestrator/aggregator.go:55-60 | A worker's VU count is cut off towards zero, and none for a worker that could not be fetched |
| Aggregation.TwoBalanced | controller/internal/orchestrator/aggregator.go:130-188 | Two workers that report a statistic are balanced by their requests, one without requests counting as one |
| Aggregation.CheckTotalsBounded | controller/internal/orchestrator/aggregator.go:203-222 | The averaged check rate stays within [0, 1] when every worker's does |
| Aggregation.AggregateRatesSane | controller/internal/orchestrator/aggregator.go:87-236 | For workers whose own counters are not negative and whose rates lie in [0, 1], so do the aggregated rates, and they are complementary if and only if some worker reported anything to judge by |
| LiveFailures.LiveTotalsIff | controller/internal/orchestrator/aggregator.go:97-112 | When the workers report only their failure rates, as live polling does, the failure counters are those of all workers together if and only if at most one worker has made a request |
| LiveFailures.LiveRates | controller/internal/orchestrator/aggregator.go:97-201 | The rates of such a poll are those of the first worker with requests, whatever the others report |
| LiveFailures.SecondWorkerUnseen | controller/internal/orchestrator/aggregator.go:97-201 | Of two workers with a hundred requests each the second fails every time, and the poll shows no errors |

## Left out

- SchedulerRuns.StepKeepsStrict: excludes restarts, updates and resumes into the past by its hypothesis, because each of them can put a schedule back to a time it has already run for.
- ScheduleEnds.ExecutionsBounded: follows the same runs, and leaves out future-scope deletions past the end date, which move the end date up, and a second schedule under the same name.
- OneTimeSlots.StepKeepsDisjoint: demands that a resume fits, which the code does not check; `OneTimeSlots.ResumeKeepsDisjointIff` shows that nothing less will do.
- CrashRecovery.CrashStoreGood: demands a guarded step for the rows' rule, which the code does not check; `CrashRecovery.StepObeysIff` shows that nothing less will do. The consistency of the tables needs no guard (`CrashRecovery.CrashStoreConsistent`).
- SchedulerSafety.StepKeepsInv: takes the database to round a time to the nearest second when it stores it in a DATETIME column, halves up; MySQL documents this for its default mode.
- ScheduleDelete.DeleteSingleExactIff: the times a row will run for leave out that the search for the next run may itself give up behind 100 distinct skipped seconds.
- SchedulerService.Scheduler.OnTestComplete: does not say that the callback belongs to the finished test, because the code takes any entry of its map.
- RawParser.AuthRoundTrip: names of auth summaries other than the first, because the first comes back with the marker in front; nothing reads it.
- UploadVerdicts.VerdictFromCalls: takes worker names free of newlines, and non-blank summaries that the JSON decoder accepts.
- LiveFailures.LiveTotalsIff: takes whole request counts and rates within [0, 1], as k6 reports them.
- RampRuns.DoneOnlyAfterSchedule: takes durations and targets that are not negative.
- Ramping.PlanInIntegers: floating-point rounding, and 64-bit overflow of the sum of all stage durations.
- VuScenarios.OutlivesByBufferIff: takes durations of under 292 years, where the two parsers agree.
- VuScenarios.TransformVUScenarios: arrival-rate scenarios, which are passed on, and their division among workers.
- Polling.PeaksExact: takes VU counts that are not negative; a negative count could hide a poll's data.
- PollService.Orchestrator.Poll: the absolute deadline and a cancellation are events of the environment, and the order of events that are ready together is any.
- Startup.ResumeAllForStart: the lengths of the timeouts; a timeout is the end of the list of sweeps.
- Padding.SizeObjectPayload: byte strings that are not valid UTF-8, which the JSON decoder never produces.
- TokenCache.AuthState.RequestAccessToken: the texts of the errors, the retry delays and the k6 counters that repeat the state's own.
- AuthMerge.MergeOrderIndependent: mode, URL, messages, abort cause and refresh skew are the first ones set and do depend on the order.
- SummaryMerge.MergeTotals: thresholds and the per-worker list.
- Aggregation.AggregateAll: request rate, data volumes, business, iteration and status counters, all plain sums; minimum, maximum, thresholds and per-worker latencies.
- Recurrence.NextIncludedOccurrence: real time zones and daylight-saving gaps; the zone's date arithmetic is a parameter.
- RunNow, which moves a series to the present.
- Store errors: the store is an infallible map, with the conditions of its queries as predicates.
- Interleavings finer than a lock-held section, such as a ramp tick that fires while a pause takes the lock.
- HTTP handlers, SQL text, files, mail, passwords and tokens of users, encryption, the dashboard and the dummy service.
- The generated JavaScript beyond the token cache, regular-expression script editing, template inference, the second metrics format and quality flags.
- The registry's run record is a value in a map, not an object; nothing else refers to it.
