# Lakehouse Studio: verified models of its state machines and transformations

Lakehouse Studio deploys data-lake stacks with Docker Compose. Most of it is glue around Docker, SQL and HTTP, but
inside it are several small protocols, fixpoints and transformations with real invariants. This project models
those in Dafny 4.11 and proves what they keep. `dafny verify dfyconfig.toml` checks all of it.

External effects are inputs of the model: what Docker, `mc`, the file system, SQLite or a directory walk answered
is a parameter, and every theorem holds for all of its values, but for those named under "Left out". Code that changes
state step by step is a class or a loop, tied by its `ensures` to a function on values; the theorems are about those
functions and about whole runs.

| file | models |
|---|---|
| `ComponentRegistry.dfy`, `StackTables.dfy` | the round-based dependency resolver, generic over its tables, and the concrete tables |
| `EventBus.dfy`, `Interleavings.dfy`, `Subscriptions.dfy`, `LogSessions.dfy` | the event bus and its replay; its interleavings with publishers and subscribers; what a queue hears; what a log session sends |
| `LogPages.dfy`, `LogRepeats.dfy`, `LogWitnesses.dfy` | what a page holds over its sessions: gaps, repetitions, and runs that show both |
| `WriteBehind.dfy`, `RegistryMemory.dfy` | the debounced registries of data sources and ingest jobs, and what they hold |
| `Schedules.dfy`, `SchedulerRuns.dfy` | the backup schedule file; its scheduler among user saves, each read and each write a step |
| `ScheduleUpdates.dfy`, `RunSpacing.dfy`, `ScheduleRetries.dfy`, `ScheduleTicks.dfy`, `ScheduleStamps.dfy`, `SchedulerWitnesses.dfy` | which updates of that file survive, how far apart runs are, retries, what a tick starts, disabled entries, and runs that attain the bounds |
| `Trees.dfy`, `Backups.dfy` | directory trees and archives; backup, restore and the drill |
| `EnvText.dfy`, `MemberNames.dfy`, `GitOps.dfy`, `Bundles.dfy`, `ImportReports.dfy` | .env masking and reading, archive member names, export and import, their round trip, and what an import reports |
| `Stacks.dfy`, `CompatCheck.dfy`, `CompatSwaps.dfy`, `CompatExplainer.dfy`, `CompatVerdicts.dfy` | the two cart compatibility engines, swaps that come back, how the engines agree, and their verdicts in terms of cart and stacks |
| `AuditLog.dfy` | the audit store over an abstract table |
| `Notifications.dfy` | notification de-duplication with pruning |
| `Headers.dfy`, `Redact.dfy` | CSV header de-duplication; override sanitizing and shell quoting |
| `Wrappers.dfy`, `Collections.dfy`, `Decimals.dfy` | shared: option and result types, sets of elements, decimal numerals |

Where the code and its comments disagree the model follows the code, and a lemma shows it:

- The resolver's documentation says MinIO is not added once HDFS is in the stack; that holds when HDFS is selected,
  and fails exactly as `StackTables.RegistryMixedExactly` says when HDFS is only pulled in.
- The run update of a schedule is said not to clobber a concurrent save. The save endpoint runs in a worker thread
  (`backend/main.py:1768`), so each can overwrite the other; `ScheduleUpdates.UpdateSurvivesExactly` says when an
  update survives, and `SchedulerWitnesses.OvertakenRunRepeats` shows a backup run twice because of it.
- A disabled schedule is saved without a next run; it can get one all the same, exactly when
  `ScheduleStamps.StepBreaksExactly` says.
- An exported `.env` is said never to include real passwords; `EnvText.SecretHiddenExactly` says when a value is
  hidden, and `EnvText.PasswordShips` shows one that is not.
- A page that resumes from its last number is meant to miss nothing; `LogPages.PageCompleteExactly` and
  `LogPages.OutOfLineSkips` say when it does, and `LogWitnesses.PageMissesAnEvent` shows a run.
  `LogRepeats.RepeatsExactly` and `LogWitnesses.PageRepeatsAnEvent` do the same for an event shown twice.
- The replay protocol says a client is reset when it is older than what is buffered; it is reset one event earlier
  than needed (`EventBus.ResetThoughNothingMissing`).
- The tmp file is said to be left so that data is not lost; after five denied moves the store counts as saved, no
  timer tries again and the file stays behind (`WriteBehind.DeniedWriteIsForgotten`,
  `WriteBehind.ForgottenStaysBehind`).
- De-duplicated headers are said to be free of duplicates; `Headers.DistinctExactly` says when they are.
- A swap is described as removing a component and adding what is missing; `CompatSwaps.AddsBackExactly` says when it
  adds the same one back, and `CompatSwaps.RecommendedPairComesBack` shows a cart where it does.

## Model

| member | source | states |
|---|---|---|
| `ComponentRegistry.Extend` | backend/component_registry.py:1052-1057 | one dependency list of one id: adds, in order, what is neither present nor already added, except object-store ids while on-prem storage is present |
| `ComponentRegistry.ExtendFor` | backend/component_registry.py:1048-1064 | one id: its explicit dependencies and then its role dependencies; nothing for an id the registry does not know |
| `ComponentRegistry.CollectAdditions` | backend/component_registry.py:1045-1064 | one round over a snapshot of the result gives that round's additions |
| `ComponentRegistry.ResolveDependencies` | backend/component_registry.py:1034-1097 | terminates for every selection (measure: dependency universe minus result) with the fixpoint, reordered |
| `ComponentRegistry.ResolveClosed` | backend/component_registry.py:1034-1067 | the answer contains the selection and is closed under explicit and role dependencies, object-store ids excepted while an on-prem id is in the answer |
| `ComponentRegistry.ResolveHasNeeds` | backend/component_registry.py:1048-1064 | every explicit dependency of a member of the answer, and each dependency of each of its roles, is in the answer, object-store ids excepted while an on-prem id is |
| `ComponentRegistry.AddedIsNeeded` | backend/component_registry.py:1048-1064 | whatever the resolver adds stands in the table row of a member of the answer |
| `ComponentRegistry.ClosureIsLeast` | backend/component_registry.py:1042-1067 | the reference closure is the least superset closed under dependencies |
| `ComponentRegistry.ResolveBetweenClosures` | backend/component_registry.py:1042-1067 | the answer lies between the suppressed and the full least closure, equal to the full one when no on-prem id ends up present and to the suppressed one when an on-prem id was selected |
| `ComponentRegistry.ResolveSetDetermined` | backend/component_registry.py:1042-1097 | as a set the answer depends only on the set selected, not on order or repetition |
| `ComponentRegistry.ReorderElems` | backend/component_registry.py:1095-1097 | the final reordering neither loses nor invents an id |
| `ComponentRegistry.ResolveIdempotent` | backend/component_registry.py:1034-1097 | resolving a resolved list returns the very same list |
| `ComponentRegistry.ResolveTopological` | backend/component_registry.py:1069-1097 | for tables whose order list respects dependencies, every explicit dependency precedes its dependant in the answer |
| `ComponentRegistry.OnPremSelectedSuppresses` | backend/component_registry.py:1039-1053 | if an on-prem id is selected, an object-store id appears only if it was selected |
| `ComponentRegistry.MixedExactly` | backend/component_registry.py:1047-1062 | on-prem storage together with an unselected object-store id comes out exactly when no on-prem id is selected, something selected pulls one in, and something selected asks for the object store |
| `StackTables.TablesOrderRespectsDeps` | backend/component_registry.py:1070-1094 | the literal order list is duplicate free, lists every explicit dependency, and lists it before its dependant |
| `StackTables.TablesPulledInDirectly` | backend/component_registry.py:22-965 | in the concrete tables only hive and tez pull HDFS or YARN in, and nothing pulls hive or tez in |
| `StackTables.RegistryTopological` | backend/component_registry.py:1034-1097 | the answer of the real registry is topologically ordered for every selection |
| `StackTables.RegistryMixedExactly` | backend/component_registry.py:1036-1041 | the documented suppression of MinIO fails on the real tables exactly when hive or tez is selected without HDFS or YARN while some selected component wants an unselected MinIO id |
| `StackTables.TezWithSparkMixes` | backend/component_registry.py:1036-1047 | selecting tez and spark gives HDFS together with an unselected MinIO: HDFS arrives one round too late |
| `EventBus.EventBus.constructor` | backend/events.py:21-27 | an empty bus with the given history size |
| `EventBus.EventBus.AppendHistory` | backend/events.py:29-38 | numbering and appending in one critical section; the oldest event leaves a full history; no other install changes |
| `EventBus.EventBus.PutNoWait` | backend/events.py:44-54 | a put enters the queue unless it is full |
| `EventBus.EventBus.PutOrCount` | backend/events.py:43-56 | event and drop notice for one queue: enters, or is counted as dropped, and with nothing in between the notice never fits |
| `EventBus.EventBus.Fanout` | backend/events.py:40-56 | every subscriber queue with room receives the event and every full one adds one to the drop counter; no drop notice is delivered; other installs and unsubscribed queues are untouched |
| `EventBus.EventBus.Publish` | backend/events.py:58-65 | numbering, appending and fanning out, all in terms of the old view: subscribers with fewer than ten thousand events get the numbered event, every other queue stays; other installs are untouched |
| `EventBus.EventBus.HistorySnapshot` | backend/events.py:67-85 | the snapshot, its newest number and the reset flag |
| `EventBus.EventBus.Subscribe` | backend/events.py:92-96 | a fresh empty queue joins the install's subscribers |
| `EventBus.EventBus.Unsubscribe` | backend/events.py:98-107 | the queue is no longer among the subscribers, the others are, and nothing else changes |
| `Subscriptions.LeftHearsNothing` | backend/events.py:98-107 | in every interleaving, from an unsubscription on no event whose fan-out starts later enters the queue or counts as dropped there, and the queue is not a subscriber again |
| `Subscriptions.SubscribedHearsAll` | backend/events.py:92-96 | from a subscription on, and until the queue leaves, every event that is logged enters the queue, is counted as dropped there, or is still with its publisher |
| `Subscriptions.PutExactly` | backend/events.py:43-46 | a put enters a queue of fewer than ten thousand; otherwise the event is counted as dropped and the queue stays |
| `Subscriptions.NoticeExactly` | backend/events.py:47-56 | the notice carries the count so far and no number, and enters if there is room by then |
| `Subscriptions.QueuesBounded` | backend/events.py:92-94 | no queue ever holds more than ten thousand events |
| `EventBus.FannedOneMore` | backend/events.py:43-56 | the two puts of the source, one queue after another, add up to the fan-out as a whole |
| `EventBus.ReplayExactly` | backend/events.py:67-85 | over a log numbered 1, 2, 3, ... the replay is the part of the buffered log after since_seq, and reset is signalled exactly when 0 < since_seq < oldest buffered number |
| `EventBus.ResetThoughNothingMissing` | backend/events.py:79-80 | reset is also sent when the oldest buffered event is the very next one, so the documented "older than what is buffered" is cautious by one |
| `EventBus.ReplayClientHoldsRun` | backend/events.py:10-18 | in every run of publishes and reconnects, a client that only replays, and never follows its queue, holds a gap-free run of the install's full log ending at the number it remembers |
| `Interleavings.ReachableInv` | backend/events.py:29-65 | in every interleaving of publishers (locked append, then one unlocked put per queue), subscribers and sessions: history is the last min(N, n) events with consecutive numbers, queues hold logged events, and every event has one fate per queue |
| `Interleavings.OffersConserved` | backend/events.py:40-56 | events offered to queues = events that entered + the drop counter, in every interleaving |
| `LogSessions.NothingSentTwice` | backend/main.py:2683-2712 | a log session never sends a numbered event twice although its queue is subscribed before history is read |
| `LogSessions.LiveExactly` | backend/main.py:2695-2706 | of what the queue brings, every event newer than the replay is sent on, once each, and every notice |
| `LogSessions.NothingMissing` | backend/main.py:2683-2712 | each event logged after the session's replay point was sent, is still queued, was counted as dropped for that queue, is still with its publisher, or was fanned out after the handler had unsubscribed the queue |
| `LogPages.PageStepExactly` | frontend/index.html:4318-4366 | the page that replays, follows its queue and reconnects from the last delivered number: a step keeps its log free of gaps and repetitions exactly when it is not the delivery of a queued event with another number than the next one |
| `LogPages.PageCompleteExactly` | frontend/index.html:4318-4400 | over any number of sessions of one page, in every interleaving, its log is free of gaps and repetitions throughout exactly when no queue brings it an event out of line |
| `LogPages.OutOfLineExactly` | backend/main.py:2682-2709 | while the page is complete, the next queued event is out of line exactly when some event logged after the replay and before it has not come yet |
| `LogPages.NeverFallsBack` | backend/main.py:2682-2709 | while the page is complete, the next queued event never repeats or precedes one it has |
| `LogPages.OutOfLineSkips` | backend/events.py:40-65 | each event the first one out of line jumps over was dropped at the queue, was fanned out after the queue had left, or stands behind it: still with its publisher, in the queue, or taken out later |
| `LogPages.SkippedStaysMissing` | backend/main.py:2684-2704 | a session opened from a number without a reset sends nothing up to it, so an event the page skipped stays missing |
| `LogWitnesses.PageMissesAnEvent` | frontend/index.html:4318-4400 | a run: the queue brings number 2 first, the page reconnects from 2, and it never sees 1 |
| `LogRepeats.RepeatStepExactly` | frontend/index.html:4318-4366 | a step puts a number on the page twice exactly when it handles one that was on the page when its session was opened |
| `LogRepeats.RepeatsExactly` | frontend/index.html:4318-4400 | over any number of sessions, in every interleaving, no number is ever on the page twice exactly when no session brings one that was there when it was opened |
| `LogRepeats.RepeatStartsBelow` | backend/main.py:2684-2704 | such a session was not reset and was opened from a number below the one it repeats |
| `LogWitnesses.PageRepeatsAnEvent` | frontend/index.html:4318-4400 | a run: the page gets 2 and then 1, reconnects from 1, and has 2 twice |
| `Interleavings.QueueOrderCanReverse` | backend/events.py:35-60 | two publishers can fan out in the opposite order of their numbers |
| `WriteBehind.DataSources.constructor` | backend/data_sources.py:264-281 | memory is the rows of the file that validate, clean, no timer |
| `WriteBehind.DataSources.AtomicWrite` | backend/data_sources.py:218-228 | temp file, then at most five moves: the file is replaced whole, left with the whole temp file after five denials, or an exception escapes |
| `WriteBehind.DataSources.WriteNow` | backend/data_sources.py:231-235 | writes the whole store; clears the dirty flag unless an exception escapes, also when all moves were denied |
| `WriteBehind.DataSources.FlushFromTimer` | backend/data_sources.py:238-246 | a timer callback, live or late |
| `WriteBehind.DataSources.Persist` | backend/data_sources.py:249-261 | forced: cancels the recorded timer and writes; otherwise marks dirty and arms a timer if none is recorded |
| `WriteBehind.DataSources.CreateSource` | backend/data_sources.py:291-317 | adds one entry, saved by force |
| `WriteBehind.DataSources.DeleteSource` | backend/data_sources.py:338-342 | removes an existing entry, saved by force; an unknown id changes nothing |
| `WriteBehind.DataSources.MarkTested` | backend/data_sources.py:360-365 | replaces an existing entry, saved later |
| `WriteBehind.DataSources.UpdateJob` | backend/ingest.py:592-608 | the ingest registry's update on the same pattern; an unknown job or a record that fails validation changes and writes nothing |
| `RegistryMemory.StepMemory` | backend/data_sources.py:291-365 | what memory holds of an id after each operation: the new entry, nothing after its deletion, and what it held before for every other id |
| `RegistryMemory.LastEntryHeld` | backend/data_sources.py:291-365 | over runs: an id that was created, or changed while it was there, and not changed since, has the entry it was given |
| `RegistryMemory.LoadedHeld` | backend/data_sources.py:264-281 | an id no operation changed has the row that was loaded, if it validates |
| `RegistryMemory.DeletedIsGone` | backend/data_sources.py:338-342 | a deleted id is gone until it is created again |
| `RegistryMemory.LastEntrySaved` | backend/data_sources.py:231-235 | when the store is clean and its last write went through, the file has the entry the id was last given |
| `RegistryMemory.DeletedIsGoneFromDisk` | backend/data_sources.py:338-342 | and nothing of a deleted id |
| `WriteBehind.StepKeepsInv` | backend/data_sources.py:213-261 | every mutation, flush and timer callback, with every I/O outcome, keeps the invariant |
| `WriteBehind.ReachableInv` | backend/data_sources.py:213-261 | every state reachable by mutations, flushes and timer callbacks satisfies the invariant, the pending callbacks being separate from the timer field |
| `WriteBehind.CleanMeansSaved` | backend/data_sources.py:218-235 | not dirty implies that memory equals the file, unless the last write gave up, which leaves it whole in the temp file, or nothing was written yet and rows were dropped at load |
| `WriteBehind.DirtyMeansPending` | backend/data_sources.py:238-261 | dirty implies a callback is still pending unless a write raised |
| `WriteBehind.QuiescentMeansSaved` | backend/ingest.py:287-338 | with no callback left and no write raised, the store is clean and saved the way its last write ended |
| `WriteBehind.AnyCallbackSaves` | backend/data_sources.py:238-246 | any callback that meets a dirty store and a working disk saves everything, late ones of cancelled timers included |
| `WriteBehind.DiskIsPastSnapshot` | backend/data_sources.py:218-235 | the disk always holds the file as found or one whole past content of memory, and never goes back to an older one |
| `WriteBehind.GaveUpExactly` | backend/data_sources.py:220-228 | a write gives up exactly when the temp file was written and all five moves were denied |
| `WriteBehind.DeniedWriteIsForgotten` | backend/data_sources.py:220-235 | for every registry and every I/O outcome, a forced write or a flush ends clean with the file behind memory exactly when it gave up and the file was behind before |
| `WriteBehind.ForgottenStaysBehind` | backend/data_sources.py:238-246 | from then on no timer catches up: callbacks leave the file as it is |
| `WriteBehind.LateCallbackClearsNewerTimer` | backend/data_sources.py:238-242 | a late callback forgets a newer timer, so two timers end up pending, and nothing is lost |
| `Schedules.ScheduleFile.Save` | backend/backup.py:547-570 | the saved entry: caller fields merged, next run recomputed from now when enabled and none otherwise; invalid settings write nothing |
| `Schedules.ScheduleFile.ListAll` | backend/backup.py:573-585 | every entry that loads, once each |
| `Schedules.ScheduleFile.PersistRunUpdate` | backend/backup.py:588-605 | changes the two stamps of an existing dictionary entry and nothing else |
| `Schedules.RunUpdateIsFocused` | backend/backup.py:588-605 | sets the two stamps, and never alters enabled, interval or kind, or another install's entry |
| `Schedules.LoadedExactly` | backend/backup.py:533-544 | an entry that is missing, malformed or outside 1 to 168 hours reads as a disabled daily metadata schedule; any other reads as it stands |
| `Schedules.SavedExactly` | backend/backup.py:547-570 | a save is refused exactly when its interval lies outside 1 to 168 hours; otherwise the entry has the caller's fields, the others as loaded, and its next run that many hours from now if it is enabled |
| `Schedules.SavedReadsBack` | backend/backup.py:533-570 | what is saved reads back as it was saved |
| `SchedulerRuns.LoneSaveIsSave` | backend/backup.py:547-570 | a save no other step interrupts is the save of one thread alone |
| `SchedulerRuns.LoneRecordIsRunUpdate` | backend/backup.py:588-605 | so is a run update |
| `SchedulerRuns.ReachableInv` | backend/backup.py:547-688 | with every read, write and wait a step of its own, in every interleaving of saves with the scheduler, and with reads that fail: every file version is what its writer read, an earlier version or nothing, with one entry replaced, and the scheduler works on a true listing of what it read |
| `SchedulerRuns.OnlyEnabledAtTickStart` | backend/backup.py:651-658 | a backup runs only for a schedule that was enabled and due when its tick started, and not before the tick |
| `ScheduleUpdates.KeptExactly` | backend/backup.py:567-605 | every later version keeps an update exactly when no writer that read before it wrote after it |
| `ScheduleUpdates.LostExactly` | backend/backup.py:567-605 | one later version lacks it exactly when that version is made from one that overtook it |
| `ScheduleUpdates.EntryComesFrom` | backend/backup.py:567-605 | an install's entry in a version is the last update of it that the version keeps; an update it does not keep has no part in it |
| `ScheduleUpdates.UpdateSurvivesExactly` | backend/backup.py:588-605 | in every run a save or run update stays part of every later file exactly when no writer's read-to-write window contains its write, no writer's read failed and the file is not lost after it; while it is the latest one kept for its install, its entry is there as written |
| `RunSpacing.RunsAnHourApart` | backend/backup.py:651-688 | two successful runs of one install, the stamps of the first on file and not overtaken by a stale writer or one whose read failed: stamps at least 3600 s apart, beginnings at least 3600 s minus the time the first waited inside its tick, and no overlap |
| `RunSpacing.RunsHoursApart` | backend/backup.py:651-688 | the same with h hours for an install whose entry asks for h hours or more in every version of the file |
| `ScheduleTicks.SavedStartsExactly` | backend/backup.py:559-565 | after a save at time t with h hours, and no other update, the first tick that may start the install does so exactly from t + 3600 h on |
| `ScheduleTicks.RecordedStartsExactly` | backend/backup.py:683-686 | after a recorded run, the first later tick that may start the install does so exactly from its interval on, counted from the tick of the run |
| `SchedulerWitnesses.BoundIsTight` | backend/backup.py:651-660 | for every such wait a run attains that bound |
| `SchedulerWitnesses.AnHourBetweenStartsExactly` | backend/backup.py:651-660 | an hour between the beginnings is certain exactly when the first did not wait |
| `SchedulerWitnesses.OvertakenRunRepeats` | backend/backup.py:567-605 | without the condition on stale writers: a save of one install that spans the run of another makes it succeed twice at once, its stamps written both times |
| `ScheduleRetries.FailedRunLeavesEntry` | backend/backup.py:660-682 | after a run that fails, or whose stamps are not written, the entry on file stays as it is until the install is started again, unless it is saved, a save rewrites a file it could not read, the file is lost or the scheduler stopped |
| `ScheduleRetries.FailedRunIsRetried` | backend/backup.py:660-682 | under the same condition, the next tick that reads the file and runs to its end starts the backup again |
| `ScheduleRetries.UnrecordedRunRepeats` | backend/backup.py:682-688 | over runs: a backup that succeeded, but whose stamps could not be written or whose entry could not be read, is counted and made again by the next such tick |
| `ScheduleTicks.TickStartsExactly` | backend/backup.py:651-658 | a tick that reads the file and runs to its end starts the backup of an install exactly when the entry on file loads and is due as the tick begins, whatever is saved meanwhile |
| `ScheduleTicks.RunsAgainExactly` | backend/backup.py:651-688 | within the hour after a run whose stamps were written, the next such tick starts the install again exactly when the entry on file is due, and then a stale writer has overtaken the stamps |
| `ScheduleStamps.StepBreaksExactly` | backend/backup.py:557-605 | a step breaks "disabled implies no next run" exactly when it writes the stamps of a run into an entry that was disabled when read |
| `ScheduleStamps.DisabledWithNextRunExactly` | backend/backup.py:557-605 | over runs from a file that satisfies it, it holds throughout exactly when no such step occurs |
| `ScheduleStamps.DisabledWithNextRun` | backend/backup.py:557-605 | it does occur: a schedule switched off during its backup ends up switched off with a next run |
| `Trees.ExtractMembers` | backend/backup.py:396-410 | members extracted in order; a failure leaves the tree as the members before it made it |
| `Trees.ExtractWalk` | backend/backup.py:396-410 | extracting an archive of a tree over a live tree lays the archived entries over it, and fails exactly when a path is a file on one side and a directory on the other |
| `Trees.ExtractFresh` | backend/gitops_import.py:290-309 | files extracted into an empty directory make exactly themselves and the directories they need, in any order |
| `Backups.CreateBackup` | backend/backup.py:209-286 | the members of the tarball in order, or no backup when install or directory is missing |
| `Backups.WalkOfCaptured` | backend/backup.py:206-237 | the walks of the existing metadata entries together list every captured path once, directories first |
| `Backups.CreatedIsBackupOf` | backend/backup.py:230-257 | what is created is a backup of the tree at that time |
| `Backups.Install.SelectUnder` | backend/backup.py:387-392 | the members under a top directory, that directory taken off their names |
| `Backups.Install.RestoreBackup` | backend/backup.py:328-453 | the whole effect of a restore on tree, bucket and state, failures included |
| `Backups.RestoreOfCreated` | backend/backup.py:377-453 | restoring a created backup succeeds exactly when no kinds clash; then every captured path has its backup-time content, every other path is untouched, mirrored objects are written only if data is restored, and the state changes only from CLEANED or STOPPED to READY; on a clash every captured path has its live or its backup content and everything else is untouched |
| `Backups.BucketUntouched` | backend/backup.py:414-430 | MinIO is untouched when restore_data is false, whatever the archive and however the restore ends |
| `Backups.RefusedExactly` | backend/backup.py:355-362 | a restore is refused exactly while the install is in a running state or has a live task; then, as without a tarball, nothing is touched |
| `Backups.StateExactly` | backend/backup.py:433-439 | the state becomes READY exactly when a restore of a CLEANED or STOPPED install succeeds; a restore that does not succeed leaves state and bucket |
| `Backups.CopiedExactly` | backend/backup.py:429-431 | after a mirror into the bucket an object is the scratch file of its name if that was copied, and what it was before otherwise |
| `Backups.CapturedExactly` | backend/backup.py:206 | a backup captures the compose file, .env and everything at or below scripts |
| `Backups.RecordErrorExactly` | backend/backup.py:774-808 | a record is accepted exactly when it is a regular file of at most a megabyte that names the install; each complaint is true of it |
| `Backups.Verify` | backend/backup.py:732-831 | the drill passes exactly for a sound archive: intact record of this install within 1 MB, and a MinIO tree if the sidecar says full; each error reported is true of the archive |
| `Backups.DrillOfCreated` | backend/backup.py:768-817 | on an intact created backup the drill passes exactly when it is metadata, or full with a successful mirror that holds something |
| `Notifications.EventDispatcher.Dispatch` | backend/notifications.py:229-257 | dedup check, record and prune, and the enabled channels of the rule in order |
| `Notifications.SentExactly` | backend/notifications.py:229-240 | in time order an event is sent exactly when its type has channels, its timestamp is past its TTL, and no event of the same install and type was sent within 300, 900 or 3600 s by severity; other installs and types play no part |
| `Notifications.AttemptedExactly` | backend/notifications.py:246-256 | a channel is attempted once for each time the rule lists it if it is enabled and has a driver, and otherwise never |
| `Notifications.PruningIsInvisible` | backend/notifications.py:235-245 | for every trace with non-negative, non-decreasing timestamps the pruned table sends exactly what a never-pruned one sends |
| `Notifications.PruningInvisibleOnTime` | backend/notifications.py:235-245 | so it does when events come out of order, as long as none lies behind an earlier one by more than 3600 s minus its own TTL |
| `Notifications.PruningInvisibleExactly` | backend/notifications.py:235-245 | that is how far it goes: per severity, pruning is invisible for events that step back by a given time exactly when the time is at most 3600 s minus the TTL |
| `Notifications.SentSpacing` | backend/notifications.py:38-240 | consecutive sent events of one key are at least the later one's TTL apart |
| `Notifications.WindowBound` | backend/notifications.py:38-240 | a window of length w sends at most w/300 + 1 events of one key |
| `Notifications.TableStaysRecent` | backend/notifications.py:241-245 | after a sent event every table entry lies within 3600 s |
| `Headers.Dedup` | backend/ingest.py:234-244 | the renamed headers: the n-th repetition of a name gets suffix n; the length is kept |
| `Headers.FirstOccurrenceKept` | backend/ingest.py:237-243 | first occurrences are kept as they are |
| `Headers.SuffixedInjective` | backend/ingest.py:240 | name, underscore and decimal determine name and number |
| `Headers.DistinctExactly` | backend/ingest.py:233-244 | the names come out pairwise distinct exactly when no generated name is itself a header |
| `Headers.DistinctWhenUnsuffixed` | backend/ingest.py:233-244 | the names come out distinct when no header is another header followed by underscore and digits |
| `Headers.GeneratedNameTaken` | backend/ingest.py:233-244 | a, a, a_1 comes out with a repeated name |
| `Redact.SanitizeEnvOverrides` | backend/redact.py:87-100 | the accepted pairs and the rejections, in input order |
| `Redact.SanitizePartitions` | backend/redact.py:87-100 | accepted and rejected keys split the input keys in two disjoint parts |
| `Redact.SanitizeSorts` | backend/redact.py:66-100 | a key is accepted with its own value exactly when nothing is wrong with key or value, and otherwise its reason is reported |
| `Redact.AcceptedExactly` | backend/redact.py:66-100 | what is accepted are exactly the pairs with a proper name of at most 128 characters and a value of at most 4096 without newline, carriage return or null byte, unchanged |
| `Redact.ProblemExactly` | backend/redact.py:66-84 | each reason given is true of the pair |
| `Redact.QuotedReads` | backend/redact.py:103-110 | under sections 2.2.1 and 2.2.2 of the POSIX.1-2017 Shell Command Language the quoted value reads as exactly the value, as one word |
| `Redact.QuoteInjective` | backend/redact.py:103-110 | two values with the same quoted form are the same value |
| `Redact.EnvTextRoundTrip` | backend/runner.py:1828-1829 | sourcing the .env text written from overrides with safe keys and values gives back the same assignments in order |
| `AuditLog.AuditStore.constructor` | backend/audit_log.py:150-181 | an empty table |
| `AuditLog.AuditStore.Write` | backend/audit_log.py:212-257 | one row with the next id, or nothing when the engine fails |
| `AuditLog.AuditStore.Find` | backend/audit_log.py:189-209 | every fetched row as an entry, in order |
| `AuditLog.AuditStore.RetentionPrune` | backend/audit_log.py:341-365 | refuses a non-positive retention; otherwise keeps exactly the rows from the cutoff on and counts the deleted |
| `AuditLog.LimitExactly` | backend/audit_log.py:295 | a limit between 1 and 5000 is taken as it is, others move to the nearer end |
| `AuditLog.WriteReadExactly` | backend/audit_log.py:212-313 | writing then reading returns the same entry exactly when its actor is non-empty and either its payload lacks _entry_id and its id is non-empty, or the payload's own _entry_id is falsy and the id equals the row id |
| `AuditLog.OtherFieldsSurvive` | backend/audit_log.py:189-241 | every other field and payload key comes back in all cases; only an empty actor changes |
| `AuditLog.PayloadExactly` | backend/audit_log.py:189-209 | a payload that is not a JSON object reads as an object that holds it, an empty column as an empty one |
| `AuditLog.FiltersSeeTheEntry` | backend/audit_log.py:269-286 | filters on the columns are filters on the entry that was written |
| `AuditLog.WrittenIsFound` | backend/audit_log.py:260-314 | a round-tripping entry that satisfies a query is in every answer while the limit has room |
| `AuditLog.AnswerIsComplete` | backend/audit_log.py:288-295 | within the limit an answer lists every matching row |
| `AuditLog.OldRowsAreInvisible` | backend/audit_log.py:317-351 | losing rows older than a cutoff changes no answer of a query from the cutoff on, nor of one whose clamped limit recent rows fill |
| `AuditLog.PruneInvisibleExactly` | backend/audit_log.py:341-351 | a prune leaves a query's possible answers alone exactly when it deletes no matching row or the kept rows fill the limit; otherwise every answer gets shorter |
| `AuditLog.RunsAnswerAlike` | backend/audit_log.py:212-351 | after any run of writes and prunes a query from the latest cutoff on, or one that rows since then fill, has the same answers as on a store that never deletes |
| `EnvText.MatchExactly` | backend/gitops_export.py:27-30 | the greedy case-insensitive pattern splits a line at the last = that has a keyword between it and the = before it, and does not match when there is none |
| `EnvText.KeywordExactly` | backend/gitops_export.py:27-30 | the keywords are PASSWORD, SECRET, TOKEN, KEY and CREDENTIAL, in capitals or not |
| `EnvText.ScrubEnv` | backend/gitops_export.py:33-41 | masks every line whose secret has a value that is not yet the placeholder |
| `EnvText.MaskedRematches` | backend/gitops_export.py:36-38 | a masked line matches again with the same key and the placeholder as value |
| `EnvText.LinesOfScrubbed` | backend/gitops_export.py:35-41 | the scrubbed text has the masked lines of the text, apart from a blank last line that had no newline of its own |
| `EnvText.ScrubbedHoldsNoSecret` | backend/gitops_export.py:33-41 | on a scrubbed line the masking pattern itself, which takes the value from the last secret-looking = on, finds nothing but a blank or the placeholder; lines it does not match are as they were |
| `EnvText.SecretHiddenExactly` | backend/gitops_export.py:27-41 | the value of a secret key, from the first = of its line on, is hidden in the scrubbed file exactly when no later = looks like that of a secret; whatever precedes such a later = ships as it is |
| `EnvText.PasswordShips` | backend/gitops_export.py:8-41 | DB_PASSWORD=hunter2key= ships unmasked and is not listed for rotation |
| `EnvText.PasswordShipsInPart` | backend/gitops_export.py:8-41 | DB_PASSWORD=mykey=abc ships its value up to mykey |
| `EnvText.ScrubIdempotent` | backend/gitops_export.py:33-41 | scrubbing is idempotent on all texts |
| `EnvText.ExtractEnvMetadata` | backend/gitops_import.py:133-155 | lake, project and environment by the last assignment, and the unresolved keys |
| `EnvText.FieldExactly` | backend/gitops_import.py:134-155 | a field is what the last line that sets it sets it to, and nothing if that is empty |
| `EnvText.FieldUnset` | backend/gitops_import.py:134-155 | and nothing if no line sets it |
| `EnvText.UnresolvedExactly` | backend/gitops_import.py:152-154 | on scrubbed text the unresolved list is exactly the non-comment secret keys whose value was non-empty, in order |
| `EnvText.MetadataSurvivesExactly` | backend/gitops_import.py:139-151 | a metadata field survives scrubbing exactly when the line that decides it is not masked |
| `EnvText.PlainMetadataSurvives` | backend/gitops_import.py:139-151 | a metadata field survives scrubbing when the values assigned to it contain no = |
| `EnvText.SecretLookingValueIsLost` | backend/gitops_export.py:27-38 | LAKE_NAME=my_token=abc loses its lake name |
| `MemberNames.PartsFindUp` | backend/gitops_import.py:110-113 | splitting at runs of either slash finds the .. segments exactly |
| `MemberNames.AcceptedStaysUnder` | backend/gitops_import.py:97-113 | an accepted name, joined to any target and normalised under either slash convention, stays under the target, and no component is .. |
| `MemberNames.NameRoundTrip` | backend/gitops_export.py:84-90 | a path written as a member name reads back as that path |
| `MemberNames.SafeNameExactly` | backend/gitops_import.py:97-113 | the name of a real path is accepted exactly when each segment has no colon and no .. between slashes of either kind, and the first does not start with a backslash |
| `GitOps.BuildExport` | backend/gitops_export.py:76-128 | the members of the bundle in order; no bundle when .env is a directory |
| `GitOps.SizeAdds` | backend/gitops_export.py:104-106 | the UTF-8 size of a text adds over concatenation |
| `GitOps.SizeExactly` | backend/gitops_export.py:104-106 | it is the length exactly for ASCII text |
| `GitOps.ReadTextExactly` | backend/gitops_export.py:103 | reading .env in text mode turns a carriage return, with the newline after it, into a newline, and nothing else |
| `GitOps.ValidateTarball` | backend/gitops_import.py:158-237 | the plan, or the first problem in the order of the checks |
| `GitOps.CheckRequired` | backend/gitops_import.py:182-197 | required members missing, or the first that is not a regular file |
| `GitOps.ImportTarget.ExtractAllMembers` | backend/gitops_import.py:290-309 | members unpacked in order; a failure leaves what the members before it made |
| `GitOps.ImportTarget.MaterializeImport` | backend/gitops_import.py:253-319 | the whole effect on the target and the report, every refusal included |
| `Bundles.ValidateExactly` | backend/gitops_import.py:158-237 | an upload validates exactly when all names and kinds are safe, the total size fits, the five required members are regular files and the manifest names a known stack; the plan is read off the members |
| `Bundles.RefusalTouchesNothing` | backend/gitops_import.py:253-319 | an import that fails before extracting leaves the disk as it was; only a clash between members during extraction leaves a partial tree, namely what the members before it unpacked to; an existing install directory is never overwritten, and placeholders pass only with the flag |
| `ImportReports.AcceptableExactly` | backend/gitops_import.py:58-237 | acceptance with the limits and the names written out: two gibibytes, and compose file, .env, manifest, lock and README as regular files |
| `ImportReports.PlanExactly` | backend/gitops_import.py:222-237 | the plan lists the names in order, says whether anything lies in scripts, adds up the sizes and has the .env fields |
| `ImportReports.ValidationMeans` | backend/gitops_import.py:158-220 | whatever a validation reports against an upload is true of it |
| `ImportReports.ImportMeans` | backend/gitops_import.py:253-300 | so are the refusals over placeholders and over the target |
| `Bundles.BundleUnpacks` | backend/gitops_export.py:93-128 | a complete install's bundle, unpacked into an empty directory, gives at every path the expected node: the exported files, .env scrubbed, and the directories the scripts need |
| `ImportReports.BundleFiles` | backend/gitops_export.py:93-128 | by name: the compose file as it was, .env masked, manifest, lock, README and the scripts |
| `Bundles.ExportValidatesExactly` | backend/gitops_import.py:158-237 | it validates exactly when its scripts have portable names, it fits the cap and its stack is known |
| `Bundles.ExportRoundTrip` | backend/gitops_import.py:253-319 | export then import succeeds exactly under these conditions with an empty or missing target and no unresolved secrets (or the flag), and then the target is the exported tree with .env scrubbed; otherwise the disk is unchanged |
| `Bundles.ExportKeepsMetadata` | backend/gitops_import.py:222-235 | the plan has the install's lake, project and environment names exactly when the lines deciding them are not masked |
| `Stacks.StackVocabulary` | backend/compat_check.py:93-118 | the lock's ids with those of every recommended set of the stack (the explainer has the same code at its lines 160-181) |
| `Stacks.AllStacks` | backend/compat_explainer.py:184-214 | every stack with vocabulary, status and last recommended set |
| `CompatVerdicts.CatalogExactly` | backend/compat_explainer.py:184-214 | each stack is listed with its id, the status and combinations of its lock, and the named ids of the lock and of every recommended set that names it |
| `Stacks.NormalizeCart` | backend/compat_check.py:76-90 | names stripped, empty ones and repetitions dropped, order kept |
| `Stacks.NormalizedExactly` | backend/compat_check.py:76-90 | a normalised cart lists exactly the names mentioned, each once |
| `Stacks.BestOfIsBest` | backend/compat_check.py:185-190 | the head of the list sorted by priority, size and id ranks before all others |
| `Stacks.BeforeExactly` | backend/compat_check.py:185-190 | ids are compared by code points: a proper beginning first, otherwise by the first difference |
| `Stacks.BestWhereOrderFree` | backend/compat_check.py:154-165 | the choice does not depend on the order stacks are listed in |
| `CompatCheck.SelectBestMatch` | backend/compat_check.py:151-190 | the chosen stack, or none |
| `CompatCheck.BestMatchExactly` | backend/compat_check.py:155-168 | the match is the lexicographic minimum of (negated status priority, vocabulary size, id) over the stacks that contain the cart and whose floor it reaches; none exactly when there is no such stack |
| `CompatVerdicts.MatchExactly` | backend/compat_check.py:155-190 | the same with the ranking written out |
| `CompatVerdicts.MarriesExactly` | backend/compat_check.py:155-183 | the floor: three components, and 60% of the vocabulary rounded down |
| `CompatCheck.BestMatchOrderFree` | backend/compat_check.py:151-190 | the match does not depend on the order stacks are listed in |
| `CompatCheck.ParseCombination` | backend/compat_check.py:260-277 | the ids of a combination of bare ids; free text or a tag defers it |
| `CompatCheck.CheckIncompatible` | backend/compat_check.py:245-291 | the hits in lock order |
| `CompatCheck.HitsExactly` | backend/compat_check.py:248-259 | a hit is reported exactly for the combinations of bare ids that are all in the cart |
| `CompatVerdicts.BareIdsExactly` | backend/compat_check.py:260-277 | a bare item is one without blanks and colons |
| `CompatCheck.CheckCart` | backend/compat_check.py:431-470 | overall verdict, matched stack and hits |
| `CompatCheck.VerdictDependsOnSet` | backend/compat_check.py:431-470 | the verdict is invariant under permuting and duplicating the cart |
| `CompatVerdicts.OverallExactly` | backend/compat_check.py:431-470 | incompatible exactly with hits or for a non-empty cart without a match; a warning exactly for an empty cart or a candidate match without hits |
| `CompatCheck.SuggestSwap` | backend/compat_check.py:473-545 | no swap for a single component or a matched cart; otherwise the first swap by priority, size, stack id and removed name |
| `CompatCheck.RunningChoice` | backend/compat_check.py:506-517 | the running choice for one removal |
| `CompatCheck.MissingFor` | backend/compat_check.py:520-530 | what the first recommended set of the stack still asks for |
| `CompatVerdicts.FirstRecommendedExactly` | backend/compat_check.py:519-530 | it asks for the components of the first recommended set that names the stack |
| `CompatCheck.SwapComplete` | backend/compat_check.py:473-490 | for an unmatched cart of two or more, no swap exactly when no single removal fits any vocabulary |
| `CompatCheck.SwapSound` | backend/compat_check.py:519-545 | the swapped cart is within the alternative's vocabulary and covers its first recommended set |
| `CompatCheck.SwapMatches` | backend/compat_check.py:500-545 | if the swapped cart reaches the alternative's floor, the check matches it to a stack of at least that status priority |
| `CompatSwaps.ChosenRanksFirst` | backend/compat_check.py:532-545 | the swap that is returned is the one for the removal whose running stack ranks first, and that removal is unique |
| `CompatSwaps.AddsBackExactly` | backend/compat_check.py:473-545 | a request gets a swap that adds back the very component it removes exactly when the cart is unmatched, has two or more components, and the removal that ranks first is of a component that the first recommended set of the stack running without it names |
| `CompatSwaps.AddedBackWasTooSmall` | backend/compat_check.py:473-545 | then the suggested stack covered the whole cart already, and the cart was only below its floor |
| `CompatSwaps.UncoveredStaysOut` | backend/compat_check.py:473-545 | for a cart that no vocabulary covers, nothing that is removed is added back |
| `CompatSwaps.OneStackAddsBack` | backend/compat_check.py:473-545 | with one stack, every cart of two or more below its floor that its first recommended set names gets a swap that adds back what it removes |
| `CompatSwaps.RecommendedPairComesBack` | backend/compat_check.py:473-545 | the cart of the two recommended components of a four-component stack is such a cart |
| `CompatCheck.RunningOrderFreeExactly` | backend/compat_check.py:506-517 | the choice per removal is the same in every listing order exactly when no stack covers the rest of the cart, or one that does has a strictly smaller vocabulary and no lower priority than every other |
| `CompatCheck.RunningChoiceNeedsOrder` | backend/compat_check.py:508-517 | two stacks for which the choice per removal depends on the listing order |
| `CompatExplainer.FindExactMatch` | backend/compat_explainer.py:217-244 | the chosen stack, or none |
| `CompatExplainer.ExactMatchExactly` | backend/compat_explainer.py:217-231 | the best stack that contains the cart, by trust, vocabulary size and id; none exactly when none contains it |
| `CompatExplainer.CompatibilityGraph` | backend/compat_explainer.py:292-315 | two components are linked exactly when either catalog row names the other |
| `CompatExplainer.ClassifyPair` | backend/compat_explainer.py:535-578 | the class of one pair |
| `CompatExplainer.PairReasons` | backend/compat_explainer.py:499-579 | the clashing and the documented pairs, in scan order |
| `CompatExplainer.ClashListExactly` | backend/compat_explainer.py:505-522 | the clashes reported are exactly the clashing pairs of the cart, each in just one order |
| `CompatExplainer.VocabularyHasNoClash` | backend/compat_explainer.py:483-496 | a cart inside one stack's vocabulary never has a catalog-level incompatible pair |
| `CompatExplainer.ClashExactly` | backend/compat_explainer.py:511-522 | the three bars of a catalog-level incompatibility: directly binding categories, neither row names the other, no stack hosts both |
| `CompatExplainer.DocumentedExactly` | backend/compat_explainer.py:535-560 | two components are documented as compatible exactly when both have catalog rows, one names the other, and they do not share a category |
| `CompatExplainer.ParseCombination` | backend/compat_explainer.py:405-418 | the ids of a combination; an empty item or a tag without a blank defers it |
| `CompatVerdicts.AdvisedIdsExactly` | backend/compat_explainer.py:405-418 | an item names a component as such exactly when it starts with the id and has no tag, or one with a blank in it |
| `CompatExplainer.ScanIncompatibilities` | backend/compat_explainer.py:370-443 | the reports in lock order |
| `CompatExplainer.ReportsExactly` | backend/compat_explainer.py:373-398 | the id sets reported are exactly those some lock's combination of two or more ids triggers |
| `CompatExplainer.ReportsDistinct` | backend/compat_explainer.py:399-428 | no id set is reported twice, across all locks |
| `CompatExplainer.MissingCategories` | backend/compat_explainer.py:679-734 | the required categories left empty, but for those the matched stack itself does without |
| `CompatExplainer.MissingExactly` | backend/compat_explainer.py:679-734 | a category is missing exactly when it is required, the cart does not fill it, and the matched stack, if any, would |
| `CompatVerdicts.MissingCategoryExactly` | backend/compat_explainer.py:679-734 | for a matched stack: exactly the required categories that one of its recommended components has and nothing in the cart has, directly or by a detail component |
| `CompatVerdicts.FullMatchExactly` | backend/compat_explainer.py:247-284 | a cart is a full match exactly when every recommended id is in it or has a detail id of the vocabulary in it |
| `CompatVerdicts.LastRecommendedExactly` | backend/compat_explainer.py:184-214 | the recommended ids are those of the last recommended set that names the stack |
| `CompatExplainer.ExplainCart` | backend/compat_explainer.py:940-1145 | verdict, fully matched stack, lock-level and catalog-level incompatibilities |
| `CompatVerdicts.WillWorkExactly` | backend/compat_explainer.py:1064-1075 | will_work exactly for a non-empty cart that triggers no combination and no clash, whose best covering stack has all it recommends from the cart and no category it offers missing |
| `CompatVerdicts.WontWorkExactly` | backend/compat_explainer.py:980-1030 | wont_work exactly when some lock's combination of two or more stands in the cart, or two of its components bind by category, are linked by neither row and are hosted together by no stack |
| `CompatVerdicts.ExplanationAgrees` | backend/compat_explainer.py:940-1145 | will_work comes with a matched stack and no incompatibilities, wont_work with at least one |
| `CompatVerdicts.ExplainedMatchExactly` | backend/compat_explainer.py:217-244 | the explainer's match with its ranking written out |
| `CompatExplainer.WontWorkIsUpwardClosed` | backend/compat_explainer.py:980-1030 | adding components never removes wont_work |
| `CompatExplainer.CoveredRefusedExactly` | backend/compat_explainer.py:483-496 | a cart inside some certified vocabulary is wont_work exactly when some lock lists a combination it triggers |
| `CompatExplainer.WontWorkStays` | backend/compat_explainer.py:945-1030 | a request that mentions at least the names of a wont_work request is wont_work, blanks, order and repetition aside |
| `CompatExplainer.ExplanationDependsOnSet` | backend/compat_explainer.py:940-1145 | verdict and matched stack are invariant under permuting and duplicating the cart |
| `CompatExplainer.ExactMatchOrderFree` | backend/compat_explainer.py:217-244 | the explainer's match does not depend on the order stacks are listed in |
| `CompatExplainer.HitForcesWontWork` | backend/compat_check.py:245-291 | a check hit of two or more ids forces the explainer to wont_work |
| `CompatExplainer.LoneIdIsNotTriggered` | backend/compat_explainer.py:383-387 | a single-id hit of the check is never triggered in the explainer |
| `CompatExplainer.PriorityRefinesTrust` | backend/compat_check.py:37-45 | a higher check priority never means less trust in the explainer, and more trust always means higher priority |
| `CompatExplainer.CheckMatchIsExactMatch` | backend/compat_explainer.py:217-244 | a match in the check implies a match in the explainer that is at least as trusted, no larger among equally trusted stacks, and more trusted only when the check's floor rules it out |
| `CompatExplainer.SwapsAgree` | backend/compat_check.py:473-490 | the check has a swap for an unmatched cart of two or more exactly when the explainer's first step lists an alternative |
| `CompatExplainer.AlternativeCarts` | backend/compat_explainer.py:760-812 | the removals that help, or else the substitutions, before sorting and the cut to three |
| `CompatExplainer.RemovalsExactly` | backend/compat_explainer.py:790-797 | a removal is listed exactly when the rest is non-empty and some vocabulary covers it, with the best such stack |
| `CompatVerdicts.SubstitutionsMean` | backend/compat_explainer.py:799-812 | a substitution gives up the one component outside a stack for everything the stack recommends and the cart lacks |
| `CompatVerdicts.SubstitutionsListed` | backend/compat_explainer.py:799-812 | every stack for which there is one is listed |
| `CompatExplainer.SubstitutionsNeedOneComponent` | backend/compat_explainer.py:799-812 | step 2 can contribute only for one-component carts |

## Left out

- Docker, SSH, `mc`, SMTP, HTTP, LLM and SQLite engine calls: only their outcomes appear, as parameters.
- Compose, YAML, Spark and README text generation, and the phases of provisioning jobs: templates and linear
  sequences around external calls.
- `sizer.py`, `providers.py`, `scorer.py`, `cart.py`, `catalog.py`, `compliance.py`, `error_explainer.py`: small sums,
  sorts and table lookups that would only add easy members.
- `destinations.py` and `data_quality.py` persistence: the same write-behind code as `data_sources.py`.
- Encryption, RBAC, the secret patterns of log redaction and the allowlists: policy tables or cryptography.
- JSON, YAML, gzip and tar decoding, and text encoding: files hold decoded text and a byte size; what a manifest
  parses to is a parameter. Read errors inside an archive are not modelled.
- Symbolic and hard links inside an install: the trees hold files and directories only. The importer's refusal of
  links in an upload is modelled.
- The zip-slip guard of a restore: backups made by this code hold no name that could trigger it.
- Wall-clock and floating-point detail: timestamps are reals, NaN does not occur, and the 60% floor is `3 * size / 5`.
- Headlines, explanations, log lines and the text of drop notices: only verdicts, ids, counts and numbers are kept.
- Interleavings.ReachableInv: follows one install; installs share nothing but the bus object, which
  `EventBus.EventBus.AppendHistory` and `EventBus.EventBus.Fanout` show.
- EventBus.ReplayExactly: assumes events arrive unnumbered and that since_seq was issued by this bus.
- CompatCheck.CheckCart: leaves out the constraint count and the readiness score, clamped sums over the same lock.
- CompatExplainer.ExplainCart: leaves out missing and extra component lists, auxiliary hints and proven constraints,
  which no verdict depends on.
- CompatExplainer.AlternativeCarts: leaves out the final sort by trust and the cut to three suggestions.
- Stacks.NormalizeCart: entries of a request that are not strings are dropped by the source and do not appear.
- CompatCheck.CheckIncompatible: non-string items of a combination do not appear.
- Headers.Dedup: starts from the stripped header row; the `col_N` default for empty cells is applied before.
- Redact.QuotedReads: is about the shell; the separate env_file parser of Docker Compose is not modelled.
- GitOps.ImportTarget.MaterializeImport: the second, identical safety pass over the same buffer is not repeated, and
  resolving the target path and races on creating it are not modelled.
- WriteBehind.DataSources.MarkTested: the connection test itself is not modelled.
- SchedulerRuns.ReachableInv: the clock never goes back, a tick reads it together with the file, and a write replaces
  the file at once: two writers sharing one temp file are not modelled. Cancelling the scheduler task is the
  abandoning of a tick.
- Interleavings.OffersConserved: takes each put into a queue and each increment of the drop counter as one step, as
  everything in `Interleavings.dfy` and `LogPages.dfy` does; on threads of their own two increments could merge.
- LogPages.PageCompleteExactly: follows one page and one server lifetime; the page's own cap on the lines it shows and
  its reconnect delays are not modelled.
- Backups.CreateBackup: exceptions while the tarball is written are absent.
- WriteBehind.DataSources.constructor: a file that does not parse is one without a row that validates.
