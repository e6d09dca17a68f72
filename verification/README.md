# Verification model of the media pipeline

Dafny 4.11 model of the hard parts of a torrent-to-library pipeline: who may run at the same time,
when a scheduled job fires, what one pipeline run leaves behind, how the provenance spine is repaired
and audited, and the small algorithms those parts rest on. `dafny verify dfyconfig.toml` checks it all.

* **Locks** (`LockFiles`, `LockProtocol`). PID lock files as one process handles them, and the two-tier
  protocol (one global pipeline holder against per-item scrape-resolves) as an interleaving of any number
  of processes, items and crashes. The invariant is Dekker-style with scan progress: a resolve that read
  `pipeline.lock` without seeing a claimant is still ahead of that claimant's scan.
* **Cron** (`Calendar`, `CronFields`, `Cron`, `CronText`, `Schedule`). Gregorian minutes, expression parsing, the
  jumping search for the next matching minute, the way from an expression's text to that minute, and
  the scheduling loop against an arbitrary clock.
* **Pipeline** (`PipelineRun`, `PipelineLaws`, `Pipeline`). One run as a function of everything outside it
  (step results, pauses, the moment of a shutdown request), the orchestrator class proved to compute exactly
  that function whatever history writes fail, and laws over all runs.
* **Provenance spine** (`Spine`, `ReleaseNames`, `SpineRepair`, `SpineControl`). The repair and the two audits
  over the same sources, the theorem that one discharges the other, and what the index of releases can tell.
* **Algorithms** (`SchemaWalk`, `ContractDiff`, `LogRing`, `AtomicWrite`, `StepReports`, `Splitters`,
  `Scrubbers`). Cyclic schema reachability, operation matching, the byte-bounded log ring, crash atomicity,
  report recording and merging, and the nesting- and quote-aware scanners.

Imperative code is modelled by classes and loops proved against specification functions or predicates; what
the code promises is proved about those. Step bodies, clocks, landings in the library and operating-system
answers are arbitrary inputs.

Findings, each stated exactly in the model:

* Two-tier exclusion needs live lock files to be readable: a failing read of one is taken for "not held". After
  any run, failing reads included, the tiers can still come to hold together iff some global claimant can no
  longer meet a resolve that did not see it (`LockProtocol.BreakableAfterRunIff`); `LockProtocol.ReadFaultBreaksIff`
  and `LockProtocol.ScanFaultBreaksIff` say exactly which single failing read leads there, and
  `LockProtocol.OneFaultIsEnough` that one on either side can. One live holder per lock needs no such assumption.
* An expression that only allows 29 February fails around a non-leap century
  (`Cron.LeapDayOnlyFailsAfter2096`); `Cron.FiresIff` says, from the expression and the starting date, exactly
  which expressions fail when.
* A critical crash returns normally, so the history says `success`; so does an exception that is not an
  `Exception`. `PipelineLaws.SuccessIff` and `PipelineLaws.KilledIff` say exactly when, whatever moment a
  shutdown is requested at.
* A shutdown request that lands after the last look a boundary takes lets that boundary's step start
  (`PipelineLaws.LateStepIff`).
* An atomic write publishes exactly what one `write` call accepted; it is the whole payload iff that call
  accepted all of it (`AtomicWrite.WholeIffAccepted`).
* The release index keeps the first run that mentions a release, not the first that ingested it: one failed
  transfer ties the release to the failing run for good (`ReleaseNames.CarrierHandedOverIff`).
* A release whose name holds a colon or an arrow is tied to no run (`ReleaseNames.UnreadableIsNeverCarried`), and
  with a colon its lines count for the release named before it (`ReleaseNames.ColonNameIsAnothers`).
* A rebuilt journey can keep an identity gap or a grab gap, because the repair and the check may describe it by
  different wanted rows, and because an obligation dated 0 counts as none (`SpineControl.RowGapsIff`).
* A rebuilt journey names the run that carried it as its scraping run even when that run journaled no scrape and
  the instant is an estimate (`SpineRepair.NamedRuns`).
* `lock.py` says that either side's backing off leaves nothing behind and that at most one side proceeds; both
  backing off at once is possible (`LockProtocol.BothMayBackOff`), as its text says.

## Model

| member | source | states |
|---|---|---|
| LockFiles.LockDirectory.AcquireLock | personalscraper/lock.py:68-101 | one attempt on a path: refused by a live owner, an error when unreadable, otherwise the caller owns it, stale or corrupt content removed |
| LockFiles.LockDirectory.IsLockHeld | personalscraper/lock.py:126-151 | true iff the file names a live process; missing, corrupt and unreadable read as not held; nothing is changed |
| LockFiles.LockDirectory.ReleaseLock | personalscraper/lock.py:162-163 | the path is gone, every other file is as before |
| LockFiles.LockDirectory.AnyScrapeResolveActive | personalscraper/lock.py:189-194 | true iff some item lock names a live process |
| LockFiles.LockDirectory.AcquirePipelineLock | personalscraper/lock.py:217-237 | undisturbed, acquired iff no live or unreadable pipeline.lock, no live resolve and no failing scan; any other answer leaves no live claim of the caller |
| LockFiles.LockDirectory.AcquireScrapeResolveLock | personalscraper/lock.py:271-287 | undisturbed, acquired iff neither the item nor the pipeline is held live; any other answer leaves no live claim of the caller |
| LockProtocol.SoundKept | personalscraper/lock.py:68-151 | every step of every process, failing reads included, keeps: live claims are on disk, no file outlives its claim, no probe sees its own process |
| LockProtocol.InvKept | personalscraper/lock.py:22-27 | every step but a failing read of a live process's lock file also keeps: a resolve that did not see a claimant is ahead of its scan or seen by it |
| LockProtocol.InvAlways | personalscraper/lock.py:217-287 | so both hold after every run without such a read |
| LockProtocol.OneHolderAlways | personalscraper/lock.py:68-101 | after every run, failing reads included, each lock has at most one live holder |
| LockProtocol.MutualExclusion | personalscraper/lock.py:10-27 | after every run without a failing read of a live process's lock file, no global holder coexists with a resolve holder |
| LockProtocol.ClaimSucceedsIffFree | personalscraper/lock.py:68-101 | after every run, failing reads included, an idle process owns no file, and gets a lock iff no live process is between claim and release of it: dead owners never block |
| LockProtocol.ReleaseFrees | personalscraper/lock.py:162-163 | releasing or backing off removes the file, leaves everybody else alone, and the next claim succeeds |
| LockProtocol.FreeScanHolds | personalscraper/lock.py:189-194 | a scan with no live item before it ends in holding by its own steps, vanished files passed over |
| LockProtocol.LiveItemStopsScan | personalscraper/lock.py:228-237 | a scan that probes a live item backs off |
| LockProtocol.BreakableIff | personalscraper/lock.py:22-27 | in every sound state, some further run without such a read breaks the exclusion iff some global claimant can no longer meet a resolve that did not see it |
| LockProtocol.BreakableAfterRunIff | personalscraper/lock.py:22-27 | the same after every run, failing reads included |
| LockProtocol.ReadFaultBreaksIff | personalscraper/lock.py:133-141 | one failing read by a resolve makes the exclusion breakable iff the owner of pipeline.lock holds, or has the item behind its scan without having seen the resolve |
| LockProtocol.ScanFaultBreaksIff | personalscraper/lock.py:133-141 | one failing read by a scan makes the exclusion breakable iff the owner of that item lock got past pipeline.lock without seeing the scanner |
| LockProtocol.DistinctItemsInParallel | personalscraper/lock.py:17-20 | a run in which two resolves of distinct items hold together |
| LockProtocol.BothMayBackOff | personalscraper/lock.py:25-27 | a run in which both racing sides back off |
| LockProtocol.OneReadFaultBreaksExclusion | personalscraper/lock.py:133-141 | the shortest case of the resolve side: while the global side holds, the resolve holds beside it two steps after its claim |
| LockProtocol.OneScanFaultBreaksExclusion | personalscraper/lock.py:133-141 | the shortest case of the scan side: the last probe of a scan fails while its resolve holds |
| LockProtocol.OneFaultIsEnough | personalscraper/lock.py:133-141 | on a fresh host both cases are reached, so a single failing read on either side can break the exclusion |
| Calendar.OrdinalOfNextDay | personalscraper/scheduler.py:121 | ordinals count calendar days and weekdays follow each other |
| Calendar.WeekdayOfDay | personalscraper/scheduler.py:121 | the weekday without ordinals: 1 January of year 1 is a Monday, with Sunday counted 0, and days follow |
| Calendar.DayNumber | personalscraper/scheduler.py:121 | every date is some number of days after that one, so its weekday is fixed |
| Calendar.MonthLengths | personalscraper/scheduler.py:119 | the twelve month lengths and the leap day |
| Calendar.DaysBeforeYearClosedForm | personalscraper/scheduler.py:115-121 | counting year lengths is the closed form of the proleptic ordinal |
| Calendar.IndexIsOrder | personalscraper/scheduler.py:117 | calendar order is the order of the minute count |
| Calendar.MonthJumpIsNextMonth | personalscraper/scheduler.py:119 | the 32-day jump lands on the first minute of the next month, for every month length |
| CronFields.StrideValues | personalscraper/scheduler.py:69 | the loop collects exactly the range's values |
| CronFields.RangeIsModular | personalscraper/scheduler.py:69 | a stride is every step-th value from first to last |
| CronFields.ParseField | personalscraper/scheduler.py:53-70 | a set iff every part is valid, and then exactly the values the parts name |
| CronFields.Parse | personalscraper/scheduler.py:85-93 | succeeds iff there are five valid fields; the five exact sets, Sunday 7 folded to 0, well-formed |
| CronFields.TermReadsBack | personalscraper/scheduler.py:55-68 | each written form of a part parses to what it means, or is an error iff it is not legal |
| CronFields.IntOnly | personalscraper/scheduler.py:55-66 | a number is digits, underscores between them and one sign before them, nothing else |
| CronFields.SignsRead | personalscraper/scheduler.py:55-66 | a sign counts, an underscore between digits does not |
| CronFields.FieldReadsBack | personalscraper/scheduler.py:53-70 | any list of parts written with commas is valid iff all are legal, and then parses to exactly the values it means |
| CronFields.BlankSeparates | personalscraper/scheduler.py:85 | a blank anywhere separates: the words of the two sides, in order |
| CronFields.ExpressionReadsBack | personalscraper/scheduler.py:85-87 | fields written out with blanks between them are cut back into the same fields |
| Cron.MonthJumpSkips | personalscraper/scheduler.py:118-120 | the month jump skips no matching minute |
| Cron.DayJumpSkips | personalscraper/scheduler.py:121-128 | the day jump skips no matching minute, under the either-day rule |
| Cron.HourJumpSkips | personalscraper/scheduler.py:129-131 | the hour jump skips no matching minute |
| Cron.NextFire | personalscraper/scheduler.py:112-136 | the least matching minute strictly after the given instant; none iff no minute within 1830 days matches |
| Cron.FiresIff | personalscraper/scheduler.py:117-136 | a match exists within the horizon iff the weekday is restricted, a day of an ordinary year is allowed, or 29 February is and one of the next four years is leap, or this year's is still ahead, or 24 February before a fifth leap year is past |
| Cron.FailureMeetsCentury | personalscraper/scheduler.py:33 | with 29 February allowed it fails only when one of the next four years is a non-leap century |
| Cron.EarlyDayFires | personalscraper/scheduler.py:33 | an expression allowing a day up to the 28th never fails |
| Cron.OrdinaryExpressionFires | personalscraper/scheduler.py:33 | a restricted weekday, or a day that exists in ordinary years, is enough never to fail |
| Cron.WeekdayInMonth | personalscraper/scheduler.py:121-125 | every month has each weekday in its first seven days |
| Cron.LeapDayOnlyFailsAfter2096 | personalscraper/scheduler.py:33 | the concrete failure of a 29-February-only expression before 2104 |
| CronText.NextFireOf | personalscraper/scheduler.py:96-136 | from text to minute: malformed iff not five valid fields, otherwise the least minute the fields' text matches, or none within the horizon |
| CronText.WrittenIsRead | personalscraper/scheduler.py:85-93 | five written fields are valid text and match a minute iff the terms mean it, Sunday being 0 and 7, unrestricted iff the star alone |
| CronText.ValidIffLegal | personalscraper/scheduler.py:85-93 | written fields are valid text iff there are five and every term is legal within its field's bounds |
| CronText.WrittenFires | personalscraper/scheduler.py:96-136 | the first match of a written expression is the first minute its terms mean |
| Schedule.AwaitBoundary | personalscraper/scheduler.py:171-172 | returns unstopped only after a clock reading at or past the boundary; every sleep follows a reading before it, lasts what the next reading leaves, and never more than 60 seconds; one poll per sleep |
| Schedule.WaitAndRun | personalscraper/scheduler.py:171-178 | one round runs the job once, after such a reading, and searches on from the later of the boundary and the reading after its end; or it stops without running it |
| Schedule.RunSchedule | personalscraper/scheduler.py:167-178 | for any clock: every run is for the first boundary after what came before, starts only on a reading at or past it, and ends before the next starts; every sleep waits for such a boundary; polls are spent on runs and sleeps only; a bad expression fails before the first poll |
| Schedule.FiresIncrease | personalscraper/scheduler.py:152-154 | fire minutes strictly increase over a whole run, clock jumps included |
| Schedule.PassedBoundaryIsSkipped | personalscraper/scheduler.py:150-154 | a boundary that passed while a job ran never starts a run |
| Schedule.MicrosUntilCounts | personalscraper/scheduler.py:172 | the length asked for is zero at the boundary, 60 seconds more for every minute before it, above zero exactly before it |
| Schedule.JobsDoNotOverlap | personalscraper/scheduler.py:176-178 | with a clock that does not go back no job starts before all earlier ones ended |
| Schedule.NoBoundaryLost | personalscraper/scheduler.py:150-154 | every matching minute between start and last fire either fired or fell during an earlier run |
| PipelineLaws.StepSpecsAreShaped | personalscraper/pipeline_steps.py:607-622 | the nine declared steps have the shape the laws use; ingest and sort are the critical ones |
| PipelineLaws.StepKeeps | personalscraper/pipeline.py:713-840 | one turn of the step loop keeps trace, report, extras, calls and history aligned, for every way it can end |
| PipelineLaws.RunStops | personalscraper/pipeline.py:372-477 | every run stops for one of five reasons after some number of ended steps |
| PipelineLaws.EventGrammar | personalscraper/pipeline.py:372-477 | every event log is one sentence of the grammar, PipelineEnded once and last; a trailing unmatched pause only when interrupted |
| PipelineLaws.AtMostOneStepAfterShutdown | personalscraper/pipeline.py:136-172 | at most one step starts after a shutdown request at any moment; killed only if requested |
| PipelineLaws.BooksAgree | personalscraper/pipeline.py:744-822 | log, report, history writes and calls cover the same prefix of steps, with the matching event, report and status each |
| PipelineLaws.ProductionOrder | personalscraper/pipeline_steps.py:607-622 | with the declared steps, what is reported, what ended in the log and what was recorded is one prefix of ingest, sort, clean, scrape, cleanup, enforce, verify, trailers, dispatch |
| PipelineLaws.ReportedResults | personalscraper/pipeline.py:642-664 | each ended step files its own report; a crash one error with no status, a skip one skip |
| PipelineLaws.CompletesIff | personalscraper/pipeline.py:419-451 | a run goes through iff every step passes and no request lands in time for the last boundary |
| PipelineLaws.OutcomeOfFirstFailure | personalscraper/pipeline.py:432-466 | the first step that does not pass decides how the run ends and which outcome is stored, unless the request lands in time for its boundary or an earlier one |
| PipelineLaws.KilledIff | personalscraper/pipeline.py:453-467 | killed iff the request lands by the check, or the last poll, of a boundary that all earlier steps pass to |
| PipelineLaws.SuccessIff | personalscraper/pipeline.py:371-435 | success iff the run goes through, or its first step that does not pass is a critical crash or an escaping exception and no boundary up to it sees a request |
| PipelineLaws.LateStepIff | personalscraper/pause.py:105-111 | a step starts after the request iff it lands between a boundary's last look and its step's start; then exactly one does |
| PipelineLaws.TimelyRequestStopsAt | personalscraper/pipeline.py:713-720 | a request that lands in time for boundary k leaves at most k steps reported and k callables run |
| PipelineLaws.OnlySpecStepsRun | personalscraper/pipeline_steps.py:683-686 | every callable invoked is the resolved one of a declared step; other override names never run |
| PipelineLaws.DispatchIsGuarded | personalscraper/pipeline.py:432-451 | dispatch runs at most once, last, and only if no critical step crashed, verify returned a non-empty list in this run, and trailers did not report an error unless opted out |
| PipelineLaws.DispatchedIff | personalscraper/pipeline_steps.py:587-622 | dispatch is called iff every step before it passes, verify handed over something and no request lands in time for its boundary |
| PipelineLaws.PauseLoopKeeps | personalscraper/pause.py:95-111 | a pause only emits its pair, or stops on a shutdown seen by a poll |
| PipelineLaws.BoundaryKeeps | personalscraper/pipeline.py:710-720 | a pending request ends the run at the boundary, before anything starts |
| Pipeline.PipelineRunWriter.Insert | personalscraper/pipeline.py:385-391 | a row, unless the insert fails |
| Pipeline.PipelineRunWriter.UpdateStep | personalscraper/pipeline_history.py:306-334 | appends the entry to an existing row, or changes nothing when the write fails |
| Pipeline.PipelineRunWriter.Finalize | personalscraper/pipeline_history.py:369-376 | sets the outcome of an existing row, or changes nothing when the write fails |
| Pipeline.PersistedIsSubsequence | personalscraper/pipeline_history.py:306-334 | whatever writes fail, the stored steps are an in-order subsequence of those recorded |
| Pipeline.PersistedIsComplete | personalscraper/pipeline_history.py:329-334 | all of them when no write fails |
| Pipeline.Pipeline.RequestShutdown | personalscraper/pipeline.py:149-150 | raises the flag, wherever it lands |
| Pipeline.Pipeline.Checkpoint | personalscraper/pause.py:95-111 | the pause checkpoint, refining the pause loop |
| Pipeline.Pipeline.EmitSkippedStep | personalscraper/pipeline.py:642-664 | the symmetric skip: started, reported, completed, recorded as skipped |
| Pipeline.Pipeline.CallStep | personalscraper/pipeline.py:734-840 | one called step, the extra surviving a refused payload |
| Pipeline.Pipeline.RunStep | personalscraper/pipeline.py:713-840 | one turn of the loop refines the step function, the stored row staying in sync |
| Pipeline.Pipeline.BetweenSteps | personalscraper/pipeline.py:440-451 | the three between-step actions; a crashed trailers step does not trip its gate |
| Pipeline.Pipeline.Run | personalscraper/pipeline.py:371-497 | events, report, extras and calls are a function of the world alone, whatever history writes fail; the row is the recorded steps whose write succeeded plus the outcome |
| Pipeline.ApplyStepOverrides | personalscraper/pipeline_steps.py:683-686 | the registry maps every name to its override, else to the built-in |
| Spine.InterpolationIsHonest | scripts/backfill-provenance-spine.py:335-354 | observed instants are kept, estimates are named, and the four instants are in order iff the observed ones were |
| Spine.ThirdsWhenNothingObserved | scripts/backfill-provenance-spine.py:338-352 | with nothing observed ingest and scrape fall at one and two thirds of the span |
| Spine.StrictIffRoom | scripts/backfill-provenance-spine.py:338-352 | with nothing observed the order is strict iff the span is at least 3 |
| Spine.InterpolationIsStable | scripts/backfill-provenance-spine.py:335-354 | a second application is the identity and estimates nothing |
| Spine.LowerIgnoresCase | scripts/backfill-provenance-spine.py:411 | two hashes are one iff they differ in the case of letters at most |
| Spine.GrabInstantIsLeast | scripts/backfill-provenance-spine.py:396-401 | the grab instant of a hash is the least of its obligations', none iff it has none |
| Spine.LastEndWins | scripts/backfill-provenance-spine.py:287-292 | a stage's instant is the end of the last entry of its name that has one |
| Spine.LastIngestWins | scripts/backfill-provenance-spine.py:293-294 | the reasons are those of the last ingest entry |
| ReleaseNames.NameIsStrippedHead | scripts/backfill-provenance-spine.py:298 | the release any line names is its text up to the first colon or arrow, stripped |
| ReleaseNames.LineNames | personalscraper/ingest/ingest.py:575-624 | which release each form of line about one is taken for: its own, or the one before the first colon or arrow of its name |
| ReleaseNames.ReasonReadsBack | scripts/backfill-provenance-spine.py:296-298 | a line gives its release's name back iff the name has no colon, no outer blank and no arrow |
| ReleaseNames.ColonNameIsAnothers | scripts/backfill-provenance-spine.py:296-298 | a line about a release whose name goes on with a colon is taken for the release named before it |
| ReleaseNames.CarrierIsFirstMention | scripts/backfill-provenance-spine.py:295-300 | in every journal the index keeps the first run with a line about the release, and knows the release iff some run has one |
| ReleaseNames.CarrierHandedOverIff | scripts/backfill-provenance-spine.py:260-261 | in every journal the run kept is the one that handed the release over iff no earlier run has a line about it |
| ReleaseNames.UnreadableIsNeverCarried | scripts/backfill-provenance-spine.py:298 | a name with a colon, an arrow or an outer blank is tied to no run, whatever the journal says |
| SpineRepair.RunsByRelease | scripts/backfill-provenance-spine.py:270-301 | each release maps to the oldest run whose ingest lines name it, with its stage instants |
| SpineRepair.GrabInstants | scripts/backfill-provenance-spine.py:396-401 | each hash maps to its least obligation instant |
| SpineRepair.GroupOrphans | scripts/backfill-provenance-spine.py:407-417 | one entry per hash without a journey, described by the row of least kind priority, then least id |
| SpineRepair.PackGoesFirst | scripts/backfill-provenance-spine.py:65 | a shared hash is described by a pack before a movie, a movie before an episode, an episode before anything else, and by the first of its kind |
| SpineRepair.RebuildRow | scripts/backfill-provenance-spine.py:420-484 | one rebuilt row from the dictionaries, equal to its definition on the sources |
| SpineRepair.RowOrder | scripts/backfill-provenance-spine.py:486 | the report order: earlier grabs first, no grab counting as 0, then the hash |
| SpineRepair.NamedRuns | scripts/backfill-provenance-spine.py:461-463 | a stage names the carrying run iff it has an instant, estimated or not; the dispatch iff it landed and the run journaled one |
| SpineRepair.AcquireDb.BackfillSpine | scripts/backfill-provenance-spine.py:388-519 | exactly one row per orphaned hash, sorted; prior rows untouched, and nothing written without apply |
| SpineRepair.SecondRepairIsEmpty | scripts/backfill-provenance-spine.py:392-417 | a second repair rebuilds nothing |
| SpineRepair.RepairCovers | scripts/backfill-provenance-spine.py:405-417 | after a repair every grabbed hash has a journey |
| SpineControl.RunsByRelease | scripts/check-spine-complete.py:96-124 | the check's index gives the same instants as the repair's |
| SpineControl.FirstWantedByHash | scripts/check-spine-complete.py:154-159 | each hash maps to its first wanted row |
| SpineControl.GapsOfRow | scripts/check-spine-complete.py:173-199 | exactly the gaps a journey has |
| SpineControl.CollectGaps | scripts/check-spine-complete.py:164-201 | a gap is listed iff some journey has it |
| SpineControl.StageGapIffObserved | scripts/check-spine-complete.py:178-184 | an ingest or scrape gap is listed iff the repair would find the instant |
| SpineControl.SpineAnomalies | scripts/check-acquisition-coherence.py:634-678 | the two spine rules, each reported iff it applies |
| SpineControl.DispatchMissingMeans | scripts/check-acquisition-coherence.py:669-678 | the dispatch rule goes by the last journey of the hash: a closed row is reported iff it is neither dispatched nor reconciled |
| SpineControl.NoRowMissing | scripts/check-acquisition-coherence.py:659-668 | after a repair no SPINE_ROW_MISSING remains |
| SpineControl.NoStageGap | scripts/check-spine-complete.py:178-184 | no rebuilt row has an ingest or scrape gap on the same sources |
| SpineControl.OrderGapIffObserved | scripts/check-spine-complete.py:186-192 | the order gap fires on a rebuilt row iff the observed instants contradict |
| SpineControl.RowGapsIff | scripts/check-spine-complete.py:173-199 | a rebuilt row has an identity gap iff the first wanted row has a season and the representative none; a grab gap iff the representative was never searched and the least obligation is dated 0, or there is none and the first row was searched |
| SpineControl.SingleRowGaps | scripts/check-spine-complete.py:173-199 | so with a single wanted row: no identity gap, and a grab gap only for a never searched row with an obligation dated 0 |
| SpineControl.DispatchMissingIff | scripts/check-acquisition-coherence.py:669-678 | the dispatch rule stays on a repaired journey iff a closed row's representative has no proven landing |
| SchemaWalk.Walker.Walk | scripts/compare-contracts.py:241-264 | terminates on cyclic references; what it enters it finishes |
| SchemaWalk.ChildReferences | scripts/compare-contracts.py:243-261 | walking meets no reference written in neither node nor document: the termination measure |
| SchemaWalk.ReferenceLeads | scripts/compare-contracts.py:249-251 | a local reference leads to the member its path names, part by part |
| SchemaWalk.SchemaReference | scripts/compare-contracts.py:249-251 | so does every reference to a declared schema |
| SchemaWalk.MissingLeadsToNothing | scripts/compare-contracts.py:249-251 | a path the document does not have leads to the empty object |
| SchemaWalk.StepIff | scripts/compare-contracts.py:243-261 | the steps of reachability, keyword by keyword: references, properties, items, additionalProperties, oneOf, anyOf, allOf, lists |
| SchemaWalk.OwnNamesIff | scripts/compare-contracts.py:253-255 | a node declares the names under its properties unless it is a reference |
| SchemaWalk.MalformedIff | scripts/compare-contracts.py:253-261 | which values under which keywords cannot be iterated |
| SchemaWalk.SuccessSchemasIff | scripts/compare-contracts.py:230-237 | the walk starts from the schema of every response whose code starts with 2 |
| SchemaWalk.ResponseProperties | scripts/compare-contracts.py:230-268 | exactly the property names reachable from any 2xx schema; raises iff a reachable node cannot be iterated |
| ContractDiff.ShapeIsIdempotent | scripts/compare-contracts.py:128 | blanking parameter names twice is blanking once |
| ContractDiff.RenamingKeepsShape | scripts/compare-contracts.py:111-128 | renaming a path parameter never changes the shape |
| ContractDiff.Compute | scripts/compare-contracts.py:327-334 | missing and unused iff no operation of the other side has the shape; the rest shared with one that has |
| ContractDiff.SamePathMatches | scripts/compare-contracts.py:165-176 | one path below two roots is one operation, whatever its parameter is called |
| ContractDiff.PlainMatchIff | scripts/compare-contracts.py:165-176 | without parameters, operations match iff verb and path below the root are equal; verbs always have to be |
| ContractDiff.SharedIsOneToOne | scripts/compare-contracts.py:327-334 | with distinct shapes on each side, shared operations and counterparts correspond one to one |
| LogRing.IncrementalTrim | personalscraper/run_journal.py:83-87 | trimming as lines arrive equals trimming the whole history |
| LogRing.TrimIsLongest | personalscraper/run_journal.py:53-55 | what is kept is the longest suffix that fits |
| LogRing.LogTailHandler.Emit | personalscraper/run_journal.py:79-87 | after any sequence of records the ring holds the longest fitting suffix of all lines, the size counter exact |
| LogRing.LogTailHandler.Tail | personalscraper/run_journal.py:96-98 | the joined tail is shorter than the cap; none iff the ring is empty |
| LogRing.CharBytesAreUtf8 | personalscraper/run_journal.py:84 | a character counts as many bytes as its UTF-8 form has |
| LogRing.Utf8ReadsBack | personalscraper/run_journal.py:84 | that form reads back as the character |
| AtomicWrite.FileSystem.AtomicWriteBytes | personalscraper/io_utils.py:38-66 | the sequence of effects, stopped anywhere |
| AtomicWrite.WriteKeeps | personalscraper/io_utils.py:38-66 | wherever the write stops, every directory image a crash may keep has a former content or exactly what the call accepted at the path |
| AtomicWrite.CrashIsAtomic | personalscraper/io_utils.py:38-66 | after a crash at any point, keeping any part of the directory changes in flight, the path holds a whole former content or exactly what was written, the latter only after the replace |
| AtomicWrite.CompletedIsDurable | personalscraper/io_utils.py:55-66 | after the directory flush only the new content can come back |
| AtomicWrite.WholeIffAccepted | personalscraper/io_utils.py:50-66 | once the call returns, its directory flush failing or not, the published content is the whole payload iff the write call accepted all of it |
| AtomicWrite.RenameWithoutFlushIsNotAtomic | personalscraper/io_utils.py:51 | without the flush before the rename any content may come back |
| AtomicWrite.RenameMayBeLost | personalscraper/io_utils.py:57-58 | without the directory flush a crash may keep the temporary name and lose the rename |
| AtomicWrite.NeverAMix | personalscraper/io_utils.py:22-66 | over any number of writes, each stopped anywhere, its directory flush failing or not, with or without a crash after it, the path holds the initial content or what one write's call accepted |
| StepReports.Merge | personalscraper/models.py:173-206 | the field-wise merge, an error on different names |
| StepReports.MergeAssociates | personalscraper/models.py:156-162 | merging is associative on every field |
| StepReports.EmptyIsNeutral | personalscraper/models.py:153-206 | the empty report is neutral |
| StepReports.MergePrefersLater | personalscraper/models.py:173-206 | lists keep the first report's entries before the second's; status, renames and payload prefer the second |
| StepReports.MergeAdds | personalscraper/models.py:173-206 | counters and shared counts add up |
| StepReports.StepReport.Record | personalscraper/pipeline_protocol.py:195-212 | one event, and the report merged with the item's own report |
| StepReports.StepReport.RecordAll | personalscraper/pipeline_protocol.py:148-212 | one event per item in order; the report is the merge of the items' reports |
| StepReports.SummaryOfJoin | personalscraper/pipeline_protocol.py:148-212 | recording two batches equals merging their reports |
| StepReports.CountersCountTerminals | personalscraper/pipeline_protocol.py:117-145 | the three counters sum to the number of terminal statuses |
| StepReports.StatusCounts | personalscraper/pipeline_protocol.py:117-145 | which status raises which counter |
| Splitters.CommaSegments | scripts/csstokens_patterns.py:58-72 | the pieces of a value between its top-level commas |
| Splitters.TopLevelEntries | scripts/check-i18n-placeholders.py:65-92 | the entries between top-level commas, quotes and escapes respected |
| Splitters.JoinOfPieces | scripts/csstokens_patterns.py:58-72 | joining the pieces gives the text back, for every text |
| Splitters.PiecesOfJoin | scripts/check-i18n-placeholders.py:65-92 | splitting inverts joining on pieces closed in brackets and quotes |
| Splitters.PiecesAreCut | scripts/check-i18n-placeholders.py:54-64 | the split is the one cut at top-level commas whose join is the text |
| Splitters.BothSplittersCut | scripts/csstokens_patterns.py:58-72 | so are those of both grammars |
| Splitters.QuotedIsClosed | scripts/check-i18n-placeholders.py:67-76 | a text in any of the three quotes, its quotes and backslashes escaped, is one piece |
| Splitters.BracketedIsClosed | scripts/check-i18n-placeholders.py:77-92 | a text in any of the three brackets that closes what it opens is one piece |
| Splitters.ParenthesizedIsClosed | scripts/csstokens_patterns.py:58-72 | so is one in parentheses in a CSS value |
| Splitters.PlainIsClosed | scripts/csstokens_patterns.py:58-72 | no other character nests or quotes |
| Splitters.CommaSplits | scripts/check-i18n-placeholders.py:65-92 | a comma after a closed text splits |
| Scrubbers.WithoutPythonComments | scripts/csstokens_login.py:77-102 | comments outside strings become spaces |
| Scrubbers.BlankingKeepsPositions | scripts/csstokens_login.py:73-76 | length and line breaks are kept, for every text |
| Scrubbers.BlankingIsIdempotent | scripts/csstokens_login.py:77-102 | a second pass changes nothing |
| Scrubbers.CommentIsBlanked | scripts/csstokens_login.py:77-102 | a comment runs from a # outside strings to the end of its line; it alone becomes spaces |
| Scrubbers.StringIsKept | scripts/csstokens_login.py:77-102 | a string in either quote is kept whole, whatever it holds |
| Scrubbers.SkipCall | scripts/check-css-tokens.py:284-291 | the inner loop stops just after the matching parenthesis |
| Scrubbers.WithoutResolvedFunctions | scripts/check-css-tokens.py:276-294 | every resolved call, fallbacks included, becomes one space |
| Scrubbers.CallIsScrubbed | scripts/check-css-tokens.py:276-294 | a var or env call goes up to its matching parenthesis, nested calls included, and leaves one space |
| Scrubbers.UnclosedCallIsScrubbed | scripts/check-css-tokens.py:284-291 | a call that is never closed takes the rest with it |
| Scrubbers.ScrubbedHasNoHead | scripts/check-css-tokens.py:263-294 | no call head is left and none is formed |
| Scrubbers.ScrubbingIsIdempotent | scripts/check-css-tokens.py:276-294 | a second pass changes nothing |

## Left out

- LockProtocol.MutualExclusion: one `acquire_lock` on one path is a single step, because two acquirers interleaving inside stale removal or between file creation and the PID write are not excluded by the code. It assumes that no read of a live process's lock file fails; LockProtocol.BreakableAfterRunIff gives the exact condition without that.
- LockProtocol.InvKept: its scan part, and so LockProtocol.InvAlways, makes the same assumption; LockProtocol.SoundKept is what holds without.
- LockProtocol.InvAlways: the same assumption.
- LockProtocol.Apply: PIDs are not reused while a lock file names them; `mkdir` and the missing scrape directory are the empty directory; interrupts that are not an `Exception` inside the scan are not modelled.
- LockFiles.LockDirectory.AcquireLock: PID texts that `os.kill` gives a group meaning (zero, negative, too large) are read as ordinary PIDs.
- Cron.NextFire: years have no upper bound; `datetime` overflows past year 9999.
- CronFields.Int: ASCII digits only; Unicode digits and Unicode blanks are not parsed.
- CronFields.ParseField: a field with digits outside ASCII is an error here and a value in the source; a number of more digits than Python's `int` converts is a value here and an error in the source.
- CronText.NextFireOf: the same: text with such digits or blanks is answered as malformed.
- CronFields.Parse: the same, and blanks outside ASCII do not separate fields.
- Schedule.RunSchedule: a loop that is never stopped is covered through its finite prefixes; the sign of a sleep is not constrained, because the clock is read twice.
- PipelineLaws.EventGrammar: set-up failing before `PipelineStarted`, a failing emit of `PipelineEnded`, crash recovery, signal handlers and context variables are not modelled; a pause whose sentinel never goes away is not either.
- PipelineRun.World: payload validation of a fallback report is assumed not to raise; the bus isolates subscribers.
- Pipeline.PipelineRunWriter.UpdateStep: a stored array that is not readable JSON, which the source resets to an empty one, is not modelled: nothing in the model corrupts it.
- Pipeline.Pipeline.Run: timestamps, counts and reasons inside history entries, the log tail, and stored arrays that are not readable JSON are not modelled.
- SpineRepair.AcquireDb.BackfillSpine: provider lookups and the library landing are an arbitrary function of the wanted row; paths, titles and follow ids are carried by no law.
- ReleaseNames.CarrierIsFirstMention: of a step's lines the history keeps the first twenty, and the reasons of the model are those kept.
- Spine.Lower: ASCII lower-casing, as hashes are hexadecimal; the tracker is taken as already keyed by lower-cased hash.
- AtomicWrite.FileSystem.AtomicWriteBytes: permission bits and the creation of the parent directory are not modelled.
- SchemaWalk.ResponseProperties: each response is taken with its JSON schema already extracted, null when it has none.
- Scrubbers.WithoutResolvedFunctions: the class of word characters is a parameter that must not contain the space or the closing parenthesis.
- LogRing.LogTailHandler.Emit: lone surrogates are not characters of the model.
- The step bodies, the provider registry, the web interface, configuration, telemetry, HTML reports and the signal plumbing of the scheduler: inputs or out of scope.
- The ownership cache and the rules of the coherence audit that call other layers; the import-time validation of the step list; the register's text; the pre-formatted field listing: they would add only easy members.
