# Orca's stateful cores, verified

A Dafny model of the parts of Orca in which state, interleaving or text formats make mistakes easy, with proofs of
what those parts are for. One module stands for one component; `dafny verify dfyconfig.toml` checks everything.

- **Folder promotion** (`Disk`, `PromotionBudget`, `PromotionPreflight`, `Rollback`, `FolderPromotion`). A disk maps
  names to inodes, so that a hard link is two names with one inode. Every file system call but the metadata reads right
  after a creation and those of rollback may fail, the abort signal may fire, reads and writes may be short. A
  successful promotion copies the tree exactly; a failed one restores every path outside the downloaded tree if and only
  if the disk reported a usable identity for each published entry, and never loses one that was there before; the
  preflight, which walks in another order, is enough for the publication never to run out of capacity. Ghost counters
  of failed calls say when it has to succeed, and failed calls of `link` are no excuse.
- **The debounced preference writer** (`ActiveView`, `ActiveViewPreference`). A transition system in which `set`, the
  timer, every step of every asynchronous write, each step's failure and the synchronous flush interleave freely. The
  class `Preference` has one method for each stretch of code between two awaits; each method is one step, and `Valid`
  says that some run leads to the object's state.
- **The process-tree killer** (`ProcessTree`, `DescendantTermination`, `SnapshotReader`). The breadth-first walk of a
  process table that may be inconsistent, the reader that coalesces scans, and the gate before SIGKILL, judged in a
  world of processes whose start times are shown only to the second.
- **Sleep assertions** (`SleepAssertion`, `AgentAwake`, `AwakeObjects`). The machines around `systemd-inhibit` and
  `caffeinate`, which differ only in what a missing program means, composed with the service that drives them. The
  failure callback is the last thing a failing step does, so a step returns whether it owes the callback, and `refresh`
  recurses. The classes in `AwakeObjects` update their fields as the source does, are tied to the transition functions
  method by method, and keep their invariants.
- **The Windows command-line printer** (`CommandLine`), against a parser written from the Microsoft C runtime rules
  ("Parsing C command-line arguments").
- **Typo suggestions** (`EditDistance`, `CommandSuggestion`, `Utf16`): the two swapped rows refine the recursive
  distance, which is a metric and the least number of single-character edits; the suggestions are the nearest
  candidates.
- **Accessibility trees** (`AccessibilityTree`): rendering to records, and finding a node again by a record's path.
- **Hook scripts** (`HookScripts`): line iteration, line-ending normalisation, and the Windows runner under a small
  batch interpreter with an arbitrary shell.
- **Command-line arguments** (`CliArgs`): parsing, its round trip with writing, and repeated flags.
- **Integration fan-out** (`IntegrationFanout`): the pagination budget and the loop that spends it batch by batch.

Where the code mutates fields or arrays or loops, the model does too, and each such method is proved against a function
of the old state; the lemmas are about those functions. `Common` holds facts about sequences.

Claims about the code that turned out to need a condition are stated with it, both ways:

- A failed promotion restores the destination side exactly when no published entry has an identity that is zero in
  every part (`Rollback.RollbackCompleteIffIdentifiable`; `Rollback.UnidentifiableDirectoryStays` is an instance).
- Arguments survive the command line exactly when none contains NUL (`CommandLine.ArgumentsRoundTrip`).
- A refresh leaves something holding the machine awake, and no timer that would ever let go, exactly if in its last pass
  no status expires behind the first clock reading and one of two things happens (`AgentAwake.StuckIff`,
  `AgentAwake.RefreshStuckIff`). Either the second reading still finds a status eligible, no retry is pending after
  `start`, and a blocker or child is held; while the clock runs forward, that is on the very millisecond of the last
  expiry (`AgentAwake.ForwardStrandsIff`). Or a tracked blocker cannot be asked about, or runs and is not stopped.
  `AgentAwake.StrandedForGood` and `AgentAwake.StopThatThrowsStrands` are instances.
- A nested refresh owes another callback exactly when the gate reading is 30 seconds past the failure, blocking is
  still due, and the spawn fails again (`AgentAwake.NestedAgainIff`).
- Rows of two processes can read the same exactly while a millisecond of their start second is left at the capture
  stamp (`DescendantTermination.GateIsTight`); the SIGKILL gate refuses those, and one millisecond more
  (`DescendantTermination.GateIsAMillisecondLate`).
- A flag in front of a registered command swallows the command's first word exactly when some registered command
  starts at the second word (`CliArgs.FlagBeforeCommand`); `CliArgs.FlagTakesCommandWord` is an instance with two
  commands that the program registers.
- Repeated labels are read back exactly when none holds NUL (`CliArgs.RepeatedFlagRoundTrip`).

## Model

| member | source | states |
|---|---|---|
| FolderPromotion.Promotion.PromoteLocalDownloadedFolder | src/main/local-downloaded-folder-promotion.ts:255-283 | On success the destination tree has the names, kinds and bytes that the downloaded tree had at entry, and no name outside the two trees changed; on failure everything outside the downloaded tree is as before, if and only if every logged entry is identifiable; in every case no name and no content that was there before outside the downloaded tree is lost; a capacity error comes only from the preflight, with nothing touched and a tree that does not fit. It succeeds if no call but `link` fails, the signal does not fire, the destination is free under a directory, and the source is a directory of directories and files that fits; then no part of the downloaded tree is left. A signal that has fired at entry fails it before anything is touched |
| FolderPromotion.Promotion.PublishOrUndo | src/main/local-downloaded-folder-promotion.ts:263-281 | A tree that fits is published whole, or what was published is rolled back; it fails only after a failed call or a fired signal, or where source or destination forbid it |
| FolderPromotion.Promotion.Preflight | src/main/local-downloaded-folder-promotion.ts:260-262 | Passes only a directory that fits, without touching the disk, and fails without a fault only if there is none |
| FolderPromotion.Promotion.PublishDirectoryNoClobber | src/main/local-downloaded-folder-promotion.ts:213-253 | Claims a new destination directory and mirrors the whole subtree, in any order of entries; whether it ends well or not, the log is exactly what was added outside the source side; a capacity error implies that the subtree does not fit on top of what was recorded, and another failure a failed call, a fired signal, a source that is no plain tree or a destination that cannot be created |
| FolderPromotion.Promotion.PublishEntries | src/main/local-downloaded-folder-promotion.ts:227-252 | The loop over the entries: done entries are mirrored, the others untouched, and the budget has recorded exactly the subtrees done; it fails only for want of capacity, after a failed call or a fired signal, or on a source that is no plain tree |
| FolderPromotion.Promotion.PublishNextEntry | src/main/local-downloaded-folder-promotion.ts:227-251 | One turn of that loop takes the directory exactly one entry further |
| FolderPromotion.Promotion.PublishEntry | src/main/local-downloaded-folder-promotion.ts:228-251 | An entry between its two abort checks is published whole with its subtree, or the log says what is left behind; apart from capacity it fails only after a failed call or a fired signal, if the target cannot be created, or if there is something that is neither directory nor file |
| FolderPromotion.Promotion.PublishByKind | src/main/local-downloaded-folder-promotion.ts:231-250 | The same for the choice between directory, file and neither |
| FolderPromotion.Promotion.ClaimAndFill | src/main/local-downloaded-folder-promotion.ts:221-251 | The same for claiming a directory, listing its source and publishing the entries |
| FolderPromotion.Promotion.ClaimDirectory | src/main/local-downloaded-folder-promotion.ts:221-225 | The exclusive `mkdir` and its log entry: a new empty directory, logged, or nothing at all; it fails only if the call fails or the directory cannot be created |
| FolderPromotion.Promotion.PublishTrackedFileNoClobber | src/main/local-downloaded-folder-promotion.ts:128-156 | Hard link, or copy if linking fails for another reason than an existing target: on success the target is new and has the source's bytes, the source name is gone and no other name changed; on failure the log says exactly what is left behind. A failed `link` alone is no reason to fail, and without one the target is the very inode of the source; it fails only if another call fails, the signal has fired, the target exists or its parent is no directory |
| FolderPromotion.Promotion.CopyTrackedFileNoClobber | src/main/local-downloaded-folder-promotion.ts:74-126 | The same for the copy, with the recorded file state read again after success and after failure; it fails under the same conditions |
| FolderPromotion.Promotion.ConsumeSource | src/main/local-downloaded-folder-promotion.ts:125-125 | The closing `unlink` of the source turns a copied or linked file into a published one and keeps the log |
| FolderPromotion.Promotion.CopyContents | src/main/local-downloaded-folder-promotion.ts:94-113 | The chunked copy is exact for arbitrary short reads and short non-zero writes, and touches no other file; it fails only if a call fails or the signal has fired |
| FolderPromotion.Promotion.WriteAll | src/main/local-downloaded-folder-promotion.ts:101-111 | The inner loop appends the whole buffer, in as many calls as it takes |
| FolderPromotion.Promotion.PublishLocalDownloadedFileNoClobber | src/main/local-downloaded-folder-promotion.ts:177-189 | A single file is published whole, or its failure is rolled back under the same condition as a folder's; nothing that was there before is lost; it succeeds if no call but `link` fails, the signal does not fire and the target can be created |
| FolderPromotion.Promotion.RollbackPublishedEntries | src/main/local-downloaded-folder-promotion.ts:191-211 | The reverse loop computes `RolledBack` of the log, of which the `Rollback` rows speak |
| FolderPromotion.Promotion.ReadPromotionDirectoryEntries | src/main/local-downloaded-folder-promotion-traversal.ts:6-23 | Lists every entry of the directory once and records each in the budget; a capacity error implies that the subtree does not fit, any other a failed call or a source that is no directory |
| FolderPromotion.ProgressStep | src/main/local-downloaded-folder-promotion.ts:227-251 | Publishing one entry mirrors its subtree and keeps all others as they were, mirrored or untouched |
| FolderPromotion.DirectoryDone | src/main/local-downloaded-folder-promotion.ts:213-253 | A claimed directory whose listed entries are all mirrored is a copy of the source directory, with the whole subtree recorded |
| FolderPromotion.CopySurvivesCleanup | src/main/local-downloaded-folder-promotion.ts:282-282 | Removing the downloaded tree afterwards leaves the copy intact |
| Rollback.RollbackRestores | src/main/local-downloaded-folder-promotion.ts:191-211 | Undoing a complete log in reverse restores every path outside the source side: children go before their parents, so that every directory is empty when its turn comes |
| Rollback.RollbackCompleteIffIdentifiable | src/main/local-downloaded-folder-promotion.ts:26-33 | Rollback restores everything if and only if every logged identity has some non-zero part |
| Rollback.RollbackKeepsEarlierNames | src/main/local-downloaded-folder-promotion.ts:191-211 | Whatever it can identify, rollback keeps every name outside the source side that was there before, with its inode and content |
| Rollback.UnidentifiableDirectoryStays | src/main/local-downloaded-folder-promotion.ts:26-33 | A concrete disk on which a directory outlives its rollback |
| Rollback.RollbackRemovesOnlyOwned | src/main/local-downloaded-folder-promotion.ts:191-211 | Whatever others did to the disk meanwhile, a name is removed only if a log entry for it has the same device and inode number (or, where neither was reported, the same non-zero time of birth), the same kind and, for a file, the recorded size, time and mode; nothing is added or changed |
| Rollback.RollbackKeepsEditedFiles | src/main/local-downloaded-folder-promotion.ts:35-43 | A file whose size, time or mode differs from every entry logged for it, or that is another one, stays |
| Rollback.RollbackKeepsFilledDirectories | src/main/local-downloaded-folder-promotion.ts:203-206 | A published directory into which others put something stays, with what they put there |
| Rollback.UndoEntryExactly | src/main/local-downloaded-folder-promotion.ts:191-211 | Exactly when one entry is undone, in terms of the fields of entry and inode |
| Rollback.RecordedOf | src/main/local-downloaded-folder-promotion.ts:45-64 | What is logged: the identity, and for every file its size, time and mode |
| Rollback.PublishedThen | src/main/local-downloaded-folder-promotion.ts:213-253 | Logs compose: publishing in two stages is publishing with the concatenated log, parents before children |
| PromotionBudget.Budget.RecordEntry | src/main/local-downloaded-folder-promotion-budget.ts:28-48 | Accepts an entry if and only if the set of recorded entries still fits with it; otherwise the reason is the first limit exceeded, in the order depth, number of entries, path length, total of path bytes |
| PromotionBudget.Route.TotalCostInsert | src/main/local-downloaded-folder-promotion-budget.ts:43-47 | The retained path bytes are a sum over the set of entries, whatever the order of recording |
| PromotionBudget.Route.FitsSubset | src/main/local-downloaded-folder-promotion-budget.ts:28-48 | A part of a set of entries that fits, fits |
| PromotionBudget.PathBytesEncoded | src/main/local-downloaded-folder-promotion-budget.ts:36-37 | The byte count of a path is the length of its joined form in UTF-8 |
| PromotionPreflight.AssertPromotionTreeWithinCapacity | src/main/local-downloaded-folder-promotion-traversal.ts:25-51 | The explicit-stack walk passes only a tree that fits as a set of entries, and raises a capacity error only for one that does not; it fails otherwise only after a failed call, on an abort or if the source is no directory; it terminates on every tree |
| PromotionPreflight.WalkNext | src/main/local-downloaded-folder-promotion-traversal.ts:32-50 | One turn of the walk keeps its invariant and makes progress: more entries recorded, or as many and a shorter stack |
| PromotionPreflight.VisitDirectory | src/main/local-downloaded-folder-promotion-traversal.ts:34-49 | Records each entry of one directory and pushes each subdirectory once |
| PromotionPreflight.WalkStep | src/main/local-downloaded-folder-promotion-traversal.ts:32-50 | Everything below the source is recorded once or lies below exactly one pending directory, and popping one keeps that |
| ActiveView.RunKeeps | src/main/active-view-preference.ts:57-135 | The invariant holds after every interleaving of sets, timers, write steps, failures and flushes |
| ActiveView.RenamesIncreaseAndTempFilesDiffer | src/main/active-view-preference.ts:97-111 | In every reachable state renames happened in strictly increasing generation order, no two asynchronous writes share a temporary file, none has the one that a flush would take next, and the file holds what is recorded as persisted |
| ActiveView.FlushFileIsItsOwn | src/main/active-view-preference.ts:119-135 | The temporary file of a flush, which one that throws may leave behind, is that of no write begun before it, of no write begun after it and of no later flush |
| ActiveView.ReachableInv | src/main/active-view-preference.ts:45-135 | The invariant holds in every state that some run reaches, and `Valid` of the preference object says that it is one |
| ActiveView.FlushIsDurable | src/main/active-view-preference.ts:119-135 | After `flushOrThrow` returned, the file holds the current view, and keeps it through all later events but a `set` |
| ActiveView.EarlierWritesNeverLand | src/main/active-view-preference.ts:106-111 | Whether the flush returned or threw, and whatever follows, no write begun before it is renamed after it |
| ActiveView.QuiescentMeansSaved | src/main/active-view-preference.ts:57-117 | Once a `set` was accepted, a state without timer and pending write has disk, persisted view and current view equal, unless the newest generation itself met an I/O failure |
| ActiveView.AcceptedViewLands | src/main/active-view-preference.ts:73-117 | Without failures an accepted view reaches the disk: from every reachable state a bounded run of internal events ends there |
| ActiveView.InternalStepsAreFinite | src/main/active-view-preference.ts:73-117 | Every internal event uses up work, so no run of internal events goes on forever |
| ActiveView.StuckMeansSaved | src/main/active-view-preference.ts:73-117 | A state in which no internal event can happen, reached without failures, has saved the accepted view |
| ActiveView.StartShows | src/main/active-view-preference.ts:45-51 | The stored view is shown at start; without one the view that the legacy text names, else the terminal |
| ActiveView.RestartAfterFlush | src/main/active-view-preference.ts:119-135 | From every reachable state: a restart after a flush that returned shows the flushed view, whatever the legacy value |
| ActiveView.RestartAtRest | src/main/active-view-preference.ts:45-117 | So does a restart from every reachable quiescent state after an accepted `set` whose newest write met no failure |
| ActiveView.ViewsAreNames | src/shared/top-level-view.ts:5-20 | A value is a view exactly if it is the text of its name |
| ActiveView.SetSchedulesIff | src/main/active-view-preference.ts:57-78 | A `set` takes effect exactly if it names a view, and schedules a write unless that view is the persisted one and nothing is under way |
| ActiveView.FlushWritesIff | src/main/active-view-preference.ts:119-135 | A flush writes exactly if the view is not persisted or a write is pending |
| ActiveView.NoTempIsLeft | src/main/active-view-preference.ts:99-116 | In runs in which removals and flushes work, no temporary file outlives its write |
| ActiveViewPreference.Preference.constructor | src/main/active-view-preference.ts:45-51 | The initial state: stored view, else a valid legacy view, else the terminal |
| ActiveViewPreference.Preference.Set | src/main/active-view-preference.ts:57-71 | One `Set` step, and the result says whether the view changed |
| ActiveViewPreference.Preference.ScheduleSave | src/main/active-view-preference.ts:73-78 | A new generation and a set timer |
| ActiveViewPreference.Preference.TimerCallback | src/main/active-view-preference.ts:78-94 | One `TimerFires` step: the write takes generation and view at that moment and is chained to the pending one |
| ActiveViewPreference.Preference.BeginWrite | src/main/active-view-preference.ts:83-84 | One `Begins` step, once the previous write has finished |
| ActiveViewPreference.Preference.AfterMkdir | src/main/active-view-preference.ts:101-101 | One `DirectoryReady` or `DirectoryFails` step |
| ActiveViewPreference.Preference.WriteReachesDisk | src/main/active-view-preference.ts:102-102 | One `FileTouched` step: a partial temporary file appears |
| ActiveViewPreference.Preference.WriteFileEnds | src/main/active-view-preference.ts:102-102 | One `FileLands` or `FileFails` step, after a partial file or without one |
| ActiveViewPreference.Preference.AfterWriteFile | src/main/active-view-preference.ts:103-111 | One `Swaps` step: guard, rename and the new persisted view in one piece |
| ActiveViewPreference.Preference.AfterRm | src/main/active-view-preference.ts:112-116 | One `CleansUp` step, whether or not the removal works |
| ActiveViewPreference.Preference.Finally | src/main/active-view-preference.ts:88-92 | One `Settles` step: only the pending write clears itself |
| ActiveViewPreference.Preference.FlushOrThrow | src/main/active-view-preference.ts:119-135 | One `Flush` step, which throws exactly if a needed call failed; when it returns, the file holds the current view |
| ActiveViewPreference.Preference.SaveNow | src/main/active-view-preference.ts:130-134 | The three synchronous calls and what each leaves behind when it throws |
| ProcessTree.CollectDescendantRows | src/main/pty-descendant-termination.ts:146-189 | On every table, cyclic and duplicate rows included: the rows' pids are exactly those reachable from a present root by parent links, each once, after their parents and never the root; nothing for an absent root; the group of the last root row |
| ProcessTree.IndexByParent | src/main/pty-descendant-termination.ts:151-163 | The index gives each parent its rows in table order, and the root row is the last one |
| ProcessTree.VisitChildren | src/main/pty-descendant-termination.ts:176-186 | The inner loop queues each child that is new, once |
| ProcessTree.ClosedListIsDescendantList | src/main/pty-descendant-termination.ts:172-188 | A parent-first list closed under children is exactly the list of descendants |
| DescendantTermination.TerminateDescendantSnapshot | src/main/pty-descendant-termination.ts:277-288 | SIGTERM to each descendant, in order, up to one at which the sender throws; an escalation only if there is a descendant and nothing was thrown |
| DescendantTermination.EscalateSurvivors | src/main/pty-descendant-termination.ts:289-318 | The SIGKILLs are exactly those for descendants with an unambiguous start that a second scan shows in one row only, unchanged; a failed scan kills nothing |
| DescendantTermination.KilledIff | src/main/pty-descendant-termination.ts:261-315 | A pid gets SIGKILL if and only if it is that of a descendant whose displayed start parses to a second before the stamp's, and the second scan has one row with that pid, with the same start and group |
| DescendantTermination.SurvivorsAreKilled | src/main/pty-descendant-termination.ts:289-318 | For honest scans: a snapshotted process that started in a second before the stamp's, and that the second scan shows in the only row with its pid and in the same group, gets SIGKILL, whatever the group of the root |
| DescendantTermination.KillsInOrder | src/main/pty-descendant-termination.ts:306-315 | The SIGKILLs go out in the order of the descendants, at most one for each |
| DescendantTermination.KilledEscalates | src/main/pty-descendant-termination.ts:306-315 | A pid gets SIGKILL if and only if some descendant with that pid escalates |
| DescendantTermination.SameInstance | src/main/pty-descendant-termination.ts:261-269 | A row with an unambiguous start that reads the same in a later scan is the same process instance |
| DescendantTermination.KillsOnlySnapshottedProcesses | src/main/pty-descendant-termination.ts:261-318 | Every process that the second scan shows under a SIGKILLed pid is one that the first scan showed among the root's descendants |
| DescendantTermination.EveryKillHitsASnapshottedProcess | src/main/pty-descendant-termination.ts:261-318 | And for every SIGKILL there is such a process |
| DescendantTermination.GateIsTight | src/main/pty-descendant-termination.ts:266-268 | One pid can change hands between the scans with both rows reading the same if and only if the start second has a millisecond left at the stamp |
| DescendantTermination.GateIsAMillisecondLate | src/main/pty-descendant-termination.ts:261-269 | The gate passes exactly the rows that cannot be confused so, but for the very last millisecond of the second |
| DescendantTermination.KillWithDescendantSweep | src/main/pty-descendant-termination.ts:229-244 | The root is killed once and last in every case, also when asking for ownership or sending throws; before it come the SIGTERMs that were sent, if there is a snapshot and the root is still owned |
| SnapshotReader.CoalescingIsFresh | src/main/pty-descendant-termination.ts:85-115 | In every run the scan that answers a request starts after the request, requests made before the queued scan starts share it, and no scan runs unasked |
| SnapshotReader.StepKeeps | src/main/pty-descendant-termination.ts:85-115 | Every event keeps freshness, sharing, and that the only scan not started is the queued one |
| SnapshotReader.OlderScanNeverClears | src/main/pty-descendant-termination.ts:107-113 | Completion of an older scan never clears a newer queue entry, and that of the newest always empties the queue |
| SnapshotReader.RequestsCanBeAnswered | src/main/pty-descendant-termination.ts:99-105 | Every request can still be answered by a scan that starts after it |
| SnapshotReader.Reader.ReadTable | src/main/pty-descendant-termination.ts:90-114 | One `Asks` step: the caller gets an entry that has not started |
| SnapshotReader.Reader.StartScan | src/main/pty-descendant-termination.ts:99-105 | One `ScanStarts` step |
| SnapshotReader.Reader.SettleScan | src/main/pty-descendant-termination.ts:99-105 | One `ScanSettles` step |
| SnapshotReader.Reader.ClearQueued | src/main/pty-descendant-termination.ts:107-112 | One `Clears` step |
| SleepAssertion.StartKeeps | src/main/linux-lid-sleep-assertion.ts:57-114 | `start` keeps the invariant (children accounted for, tracked child excludes retry state, spawns spaced, missing program final), leaves each deadline with a timer, and owes a callback only right after a failure that closed the gate for 30 seconds |
| SleepAssertion.StopKeeps | src/main/linux-lid-sleep-assertion.ts:116-133 | `stop` keeps the invariant and leaves no child, deadline or timer |
| SleepAssertion.ChildFailsKeeps | src/main/linux-lid-sleep-assertion.ts:139-159 | An event reaches the code only for the tracked child, is then always reported, and calls back unless `systemd-inhibit` is missing |
| SleepAssertion.FailureKeeps | src/main/linux-lid-sleep-assertion.ts:170-186 | A failure sets a deadline 30 seconds ahead with a timer and calls back, unless `systemd-inhibit` is missing, which clears both |
| SleepAssertion.StartOutcome | src/main/macos-system-sleep-assertion.ts:56-94 | Exactly when `start` leaves a retry timer, and exactly when it leaves a child |
| SleepAssertion.StartTimerAhead | src/main/macos-system-sleep-assertion.ts:184-196 | A retry timer that `start` sets lies ahead of the readings that led to it |
| SleepAssertion.StartKeepsChild | src/main/macos-system-sleep-assertion.ts:56-94 | A running child is left alone; otherwise the child is the one just spawned |
| SleepAssertion.RetryIsDue | src/main/macos-system-sleep-assertion.ts:184-196 | The retry timer is due at the deadline, or at once if that has passed; one that was set stays |
| SleepAssertion.StartIsDue | src/main/macos-system-sleep-assertion.ts:56-94 | After a start that waits the timer is due at the deadline: the earlier one behind a closed gate, or 30 seconds after the failed spawn |
| AwakeObjects.PlatformAwakeAssertion.Start | src/main/linux-lid-sleep-assertion.ts:57-114 | The method is the transition `SleepAssertion.Start` on the object's fields |
| AwakeObjects.PlatformAwakeAssertion.Stop | src/main/linux-lid-sleep-assertion.ts:116-133 | The method is `SleepAssertion.Stop` |
| AwakeObjects.PlatformAwakeAssertion.HandleChildFailure | src/main/linux-lid-sleep-assertion.ts:139-159 | The method is `SleepAssertion.ChildFails` |
| AwakeObjects.PlatformAwakeAssertion.HandleFailure | src/main/linux-lid-sleep-assertion.ts:170-186 | The method is `SleepAssertion.HandleFailure` |
| AwakeObjects.PlatformAwakeAssertion.ResetRetrySuppression | src/main/linux-lid-sleep-assertion.ts:227-234 | The method is `SleepAssertion.ResetRetrySuppression` |
| AwakeObjects.PlatformAwakeAssertion.ScheduleRetry | src/main/linux-lid-sleep-assertion.ts:213-225 | The method is `SleepAssertion.ScheduleRetry` |
| AgentAwake.StepKeeps | src/main/agent-awake-service.ts:84-118 | Every top-level event, with everything it re-enters, ends with the invariant and with a timer for each retry deadline |
| AgentAwake.RunsStaySettled | src/main/agent-awake-service.ts:84-118 | So does every run of a new service: every child but the tracked one was killed or reported failed, no spawn within 30 seconds of a failure unless stopped in between, ENOENT is final, no blocker leaks |
| AgentAwake.NestedAgainIff | src/main/agent-awake-service.ts:105-118 | Exactly when a re-entered refresh owes another callback |
| AgentAwake.NestingEnds | src/main/linux-lid-sleep-assertion.ts:170-186 | When the clock advances by less than 30 seconds within one event, two passes suffice |
| AgentAwake.EarliestExpiryIs | src/main/agent-awake-service.ts:134-158 | The timer is set for the earliest expiry ahead of a status that counts, if there is one |
| AgentAwake.StuckIff | src/main/agent-awake-service.ts:105-158 | Exactly when a pass leaves a blocker or child held with no timer: all statuses expired at the first reading, and either one still eligible at the second with no retry pending, or a blocker that is not let go of; for all readings, spawns and blocker faults |
| AgentAwake.RefreshStuckIff | src/main/agent-awake-service.ts:105-158 | The same for a refresh with everything it re-enters: its last pass decides |
| AgentAwake.ReadingsDecide | src/main/agent-awake-service.ts:120-158 | The two readings of a pass: a stale timer exactly if some status expires behind the first, blocking exactly if enabled and some status is eligible at the second |
| AgentAwake.BlockerOutcome | src/main/agent-awake-service.ts:172-278 | Exactly when a blocker is tracked after `startBlocker` and after `stopBlocker`, whatever throws |
| AgentAwake.PassOutcome | src/main/agent-awake-service.ts:105-118 | For every state and all readings and faults: if the service is enabled and some working status has not expired, a blocker is tracked, a blocker runs, a child runs and a retry waits exactly when the start of each says so; otherwise nothing but a blocker that cannot be stopped remains |
| AgentAwake.BlockerRunsIff | src/main/agent-awake-service.ts:172-257 | Exactly when a blocker runs after `startBlocker` and after `stopBlocker`, whatever throws |
| AgentAwake.PassKeepsAwake | src/main/agent-awake-service.ts:105-118 | With a blocker that works: exactly one blocker runs and is tracked, and the assertion holds, waits or is not to be had, if and only if some status counts and the service is enabled |
| AgentAwake.RefreshKeepsAwake | src/main/agent-awake-service.ts:105-118 | The same for a refresh with everything it re-enters, and the stale timer is set for the earliest expiry |
| AgentAwake.EventsKeepAwake | src/main/agent-awake-service.ts:74-118 | The same for each event: a new setting, new statuses, a resume, either timer, a failed child; disposing releases everything |
| AgentAwake.CountsForTwoHours | src/main/agent-awake-service.ts:120-132 | A status counts while it is working, was seen by this process and carries a time, for two hours |
| AgentAwake.ForwardStrandsIff | src/main/agent-awake-service.ts:120-158 | While the clock does not step back between the two readings, a pass finds all expired and then one eligible exactly on the last expiry |
| AgentAwake.StrandedForGood | src/main/agent-awake-service.ts:120-158 | Such passes with a blocker that works, on the last expiry and with a clock that steps back |
| AgentAwake.StopThatThrowsStrands | src/main/agent-awake-service.ts:240-257 | Such a pass with a `stop` that throws |
| AgentAwake.StatusesLeaveCurrent | src/main/agent-awake-service.ts:92-95 | After statuses are reported the stale timer is set for the earliest expiry ahead of the last pass, if there is one |
| AgentAwake.FiringKeeps | src/main/agent-awake-service.ts:105-162 | A firing of either timer, not before its deadline and with readings that run forward, leaves the stale timer set in the same way; a retry timer that a retry sets lies ahead, and behind every expiry none is left |
| AgentAwake.FiringUsesWork | src/main/agent-awake-service.ts:105-162 | Every such firing uses up work: the time the last status has left, and the retry timer |
| AgentAwake.FiringUsesStatus | src/main/agent-awake-service.ts:134-162 | And each one of the stale timer an unexpired status |
| AgentAwake.TimerCanFire | src/main/agent-awake-service.ts:153-158 | A timer that is set can fire |
| AgentAwake.StaleStatusesRelease | src/main/agent-awake-service.ts:105-162 | Left alone, with a clock that runs forward and whatever the blocker and the spawns do: every run of firings, retries included, is bounded; it can go on as long as a timer is set; and one that cannot go on has released the blocker and the assertion if and only if its last pass did not leave the service stuck |
| AwakeObjects.AgentAwakeService.ScheduleStaleTimer | src/main/agent-awake-service.ts:134-162 | The loop finds `EarliestExpiry` |
| AwakeObjects.AgentAwakeService.GetEligibleRunningStatusCount | src/main/agent-awake-service.ts:120-132 | The loop counts the eligible statuses |
| AwakeObjects.AgentAwakeService.StartBlocker | src/main/agent-awake-service.ts:172-190 | The method is `AgentAwake.StartBlocker`, faults of the blocker included |
| AwakeObjects.AgentAwakeService.StopBlocker | src/main/agent-awake-service.ts:240-257 | The method is `AgentAwake.StopBlocker` |
| AwakeObjects.AgentAwakeService.ReconcileBlocker | src/main/agent-awake-service.ts:259-278 | The method is `AgentAwake.Reconcile` |
| AwakeObjects.AgentAwakeService.Refresh | src/main/agent-awake-service.ts:105-118 | With both assertions started in the order of the source, the method is `AgentAwake.Refresh` for the one of the platform, re-entered as long as a callback is owed |
| AwakeObjects.AgentAwakeService.SetEnabled | src/main/agent-awake-service.ts:84-90 | One `SetEnabled` step |
| AwakeObjects.AgentAwakeService.SetStatuses | src/main/agent-awake-service.ts:92-95 | One `SetStatuses` step |
| AwakeObjects.AgentAwakeService.OnResume | src/main/agent-awake-service.ts:74-81 | One `PowerResume` step |
| AwakeObjects.AgentAwakeService.StaleTimerCallback | src/main/agent-awake-service.ts:155-158 | One `StaleTimer` step |
| AwakeObjects.AgentAwakeService.OnRetryTimer | src/main/linux-lid-sleep-assertion.ts:218-221 | One `RetryTimer` step: the callback of either assertion refreshes the service |
| AwakeObjects.AgentAwakeService.OnChildEvent | src/main/linux-lid-sleep-assertion.ts:139-186 | One `ChildEvent` step: a reported failure refreshes the service |
| AwakeObjects.AgentAwakeService.Dispose | src/main/agent-awake-service.ts:97-103 | One `Dispose` step |
| CommandLine.ArgumentsRoundTrip | native/windows-cli-launcher/OrcaCliLauncher.cs:82-131 | Parsing the printed line by the C runtime's rules gives back path and arguments, empty strings, quotes and trailing backslashes included, if and only if none contains NUL |
| CommandLine.ScanOfQuoted | native/windows-cli-launcher/OrcaCliLauncher.cs:93-131 | A printed argument scans back to itself, and the scan stops right behind it |
| CommandLine.ScanQuoted | native/windows-cli-launcher/OrcaCliLauncher.cs:105-130 | The heart of it: what the loop appends with some backslashes held back scans to those backslashes and the rest |
| CommandLine.QuoteArgument | native/windows-cli-launcher/OrcaCliLauncher.cs:93-131 | The loop with its running backslash count prints `Quoted`, of which the lemmas speak |
| CommandLine.BuildArguments | native/windows-cli-launcher/OrcaCliLauncher.cs:82-91 | The loop prints `Built` |
| CommandLine.PrintedAsIsIff | native/windows-cli-launcher/OrcaCliLauncher.cs:93-104 | An argument is printed as it is exactly if it is not empty and holds no quote and no white space |
| CommandLine.BuiltIs | native/windows-cli-launcher/OrcaCliLauncher.cs:82-91 | The line is the printed path, and one space in front of each printed argument |
| EditDistance.Levenshtein | src/cli/command-suggestion.ts:50-72 | The two swapped rows compute the recursive edit distance |
| EditDistance.FillRow | src/cli/command-suggestion.ts:62-66 | From the row of distances to all prefixes for one character less, the next such row |
| EditDistance.ZeroIffEqual | src/cli/command-suggestion.ts:50-72 | The distance is zero if and only if the strings are equal |
| EditDistance.Symmetric | src/cli/command-suggestion.ts:50-72 | The distance is symmetric |
| EditDistance.Triangle | src/cli/command-suggestion.ts:50-72 | The triangle inequality |
| EditDistance.DistanceIsLeastEdits | src/cli/command-suggestion.ts:50-72 | The distance is the length of a shortest sequence of insertions, deletions and replacements |
| CommandSuggestion.SuggestCommands | src/cli/command-suggestion.ts:84-111 | At most three different suggestions in rank order, each a near match of the same depth, a destructive command only if the input's last word is within one edit of a destructive verb; a near match is left out only for three that rank no later |
| CommandSuggestion.ScoreCommand | src/cli/command-suggestion.ts:94-108 | Adds each candidate of a command once, with its distance |
| CommandSuggestion.BestAreNearest | src/cli/command-suggestion.ts:75-81 | The ranking is ordered, lists near candidates only, and drops one only for three that do not rank behind it |
| CommandSuggestion.SuggestibleIff | src/cli/command-suggestion.ts:84-111 | In terms of the registry alone: within three edits but not equal; for one word the first word of a path or alias, else a path or alias of as many words; of a destructive command only if the last word typed is within one edit of the last word of a destructive path |
| CommandSuggestion.JoinConcat | src/cli/command-suggestion.ts:85-103 | Joined words stand in order with one space between them |
| CommandSuggestion.DestructiveVerbs | src/cli/command-suggestion.ts:21-31 | Exactly the last words of paths and aliases of destructive commands |
| CommandSuggestion.IntendsDestruction | src/cli/command-suggestion.ts:36-43 | True if and only if some verb is within one edit |
| AccessibilityTree.RenderAccessibilityTree | native/computer-use-linux/runtime.py:349-441 | At most 1200 records no deeper than 64; record k has index k; no path occurs twice; every path resolves to the node it was recorded from; records are in document order; unless `truncated` is raised they are the whole rendering, and it is not raised for a rendering of fewer than 1200 records within 64 levels |
| AccessibilityTree.Renderer.Walk | native/computer-use-linux/runtime.py:402-438 | Appends exactly the first shown entries that still fit |
| AccessibilityTree.Renderer.WalkChildren | native/computer-use-linux/runtime.py:410-437 | The same for the children of a node, in order, by the index at which each was found |
| AccessibilityTree.FindByPath | native/computer-use-linux/runtime.py:727-733 | The loop computes `Resolve` |
| AccessibilityTree.ShownResolves | native/computer-use-linux/runtime.py:402-438 | Path lookup inverts rendering, also below elided wrappers and with any depth limit |
| AccessibilityTree.ShownInOrder | native/computer-use-linux/runtime.py:402-438 | A node comes before its descendants, and those before the next sibling |
| AccessibilityTree.ShownIff | native/computer-use-linux/runtime.py:396-438 | A node is recorded if and only if it is no nameless wrapper of at most one child, no node above it stands for its whole subtree, and it is within the depth limit; its depth counts the recorded nodes above it |
| AccessibilityTree.ElidesWrappers | native/computer-use-linux/runtime.py:271-285 | What is elided and what stands for its subtree, in terms of a node's fields |
| HookScripts.LinesJoinToNormalized | src/main/hooks.ts:410-474 | For every script, its lines joined by LF are the normalised script |
| HookScripts.IterateLfScriptLines | src/main/hooks.ts:410-425 | The loop yields `Lines` |
| HookScripts.NormalizeCrlfScriptLineEndings | src/main/hooks.ts:455-474 | The chunk loop computes the left-to-right replacement of CR LF by LF |
| HookScripts.BuildWindowsRunnerScript | src/main/hooks.ts:393-408 | The loop builds `Runner` |
| HookScripts.AppendRunnerLines | src/main/hooks.ts:396-405 | What one line adds: a blank line, or the call and its check |
| HookScripts.WindowsRunnerIsFailFast | src/main/hooks.ts:393-408 | Under every shell, and in a batch interpreter that reads the threshold from the line and does not come back from a command run without `call`, the runner executes exactly the non-blank trimmed lines, in order, and stops right after the first that leaves an error level of 1 or more |
| HookScripts.LinesOfTerminated | src/main/hooks.ts:393-425 | Lines written with CR LF are read back as they were |
| HookScripts.LinesOfRunner | src/main/hooks.ts:393-408 | The runner line by line: echoing off, command extensions on, and what each script line adds, in order |
| HookScripts.RunnerLineCount | src/main/hooks.ts:396-405 | One line of the runner for each line of the script, and one more for each command |
| HookScripts.CallThenCheck | src/main/hooks.ts:404-404 | A batch file that runs these two lines calls the command, comes back, and leaves exactly on an error level of 1 or more |
| HookScripts.TrimIs | src/main/hooks.ts:397-397 | Trimming takes all white space away at both ends, and nothing else |
| HookScripts.NormalizedIsFixed | src/main/hooks.ts:455-460 | A script without CR LF is left alone |
| CliArgs.ParseArgs | src/cli/args.ts:98-142 | The loop with its cursor and two collections computes `ParseFrom` |
| CliArgs.CommandPathStartsAt | src/cli/args.ts:82-96 | The cursor loop computes `PathStartsAt` |
| CliArgs.StartsCommandAt | src/cli/args.ts:125-126 | True if and only if some registered path starts there |
| CliArgs.ParseRoundTrip | src/cli/args.ts:98-142 | Any interleaving of words, `--name=value`, boolean flags, separate values and other flags without a value parses back to what it means, in front of the command too |
| CliArgs.ArgumentsParseBack | src/cli/args.ts:73-142 | What is written down is parsed back: the command is the words, in order; every flag but the repeatable one holds what was last said about it and no other is set; the repeatable one holds its labels since it was last given bare |
| CliArgs.EveryCommandLineIsWritten | src/cli/args.ts:98-142 | Every command line is written in such items, so the round trip speaks of all of them |
| CliArgs.WordsInOrder | src/cli/args.ts:102-107 | The command path is the words, in order |
| CliArgs.FlagsHoldLastSaid | src/cli/args.ts:73-80 | Every flag that does not accumulate holds what was last said about it, and no other flag is set |
| CliArgs.FlagBeforeCommand | src/cli/args.ts:124-140 | Exactly when a flag in front of a registered command takes the command's first word for its value, whatever follows the command; the rest is parsed from there |
| CliArgs.FlagTakesCommandWord | src/cli/args.ts:124-130 | With the commands `skills get` and `get`, a flag in front of the first turns it into the second |
| CliArgs.FlagTakesValue | src/cli/args.ts:118-140 | Behind the first command word, or where no registered command starts next, a flag that is not boolean takes the next token unless that is a flag |
| CliArgs.PathStartsIff | src/cli/args.ts:82-96 | A registered path starts exactly if its words are the first ones, whatever flags with their values stand before and between them |
| CliArgs.RepeatedFlagRoundTrip | src/cli/flags.ts:31-39 | Repeated labels are read back as the non-empty values, in order, if and only if none of them holds NUL |
| IntegrationFanout.RunBoundedIntegrationFanout | src/main/integration-fanout.ts:21-57 | The results are a prefix of the loads, truncated if and only if proper; at most one batch of attempts is discarded; the budget has paid for exactly the results and is within its limits; a cut happens only where the budget refuses a page, or at the end of a batch when no page can be requested, and every earlier batch ended with room for another page |
| IntegrationFanout.AfterAllSums | src/main/integration-pagination-budget.ts:36-51 | What is spent is one page for each page, and the sums of their items and bytes |
| IntegrationFanout.MoreFitsIff | src/main/integration-pagination-budget.ts:66-72 | Another page can be requested exactly if one item in two bytes would still fit |
| IntegrationFanout.AdmitBatch | src/main/integration-fanout.ts:46-51 | Admits the loads of one batch up to the first that the budget refuses |
| IntegrationFanout.Budget.AdmitPage | src/main/integration-pagination-budget.ts:36-51 | Admits a page if and only if pages, items and bytes still fit with it; a refusal costs nothing |
| IntegrationFanout.Budget.AssertCumulativePage | src/main/integration-pagination-budget.ts:53-64 | Throws if and only if the cumulative page does not fit; otherwise it replaces the items and bytes counted so far |

## Left out

Promotion
- FolderPromotion.Promotion.PromoteLocalDownloadedFolder: nothing is claimed for a destination below the downloaded folder itself, which callers do not ask for.
- FolderPromotion.Promotion.RollbackPublishedEntries: `lstat`, `unlink` and `rmdir` are taken to work during rollback, and so are the metadata reads right after a creation; others editing the disk between calls appear only in `Rollback.RollbackRemovesOnlyOwned`, not between a rollback's `lstat` and its removal.
- FolderPromotion.Promotion.RemoveTemporary: when it fails it may have removed any part of the downloaded tree, since a failed removal is ignored; after a failed promotion nothing is claimed about the downloaded tree, parts of which rollback deletes.
- The order in which entries are sorted (every order is covered), directory modes and times, zero-byte writes, closing of handles, the message given for an existing destination, and `copyLocalDownloadedFileNoClobber`, which is the copy with the same rollback.
- Path lengths count the UTF-8 bytes of components and separators; the platform's path normalisation is not modelled.

Preference writer
- Reading the stored file, JSON, the debounce delay and logging. Temporary file names are those of one process; another process with its own pid is not modelled, nor are edits of the file by others.

Process tree
- DescendantTermination.KillsOnlySnapshottedProcesses: time readings are taken to tell every second apart, so a wall-clock hour repeated by daylight saving is not covered; the moment between the second scan and the signal is not covered either.
- `ps` parsing, the deadline wrapper, reader timeouts, and failed signals, which the source ignores.

Sleep assertions
- AgentAwake.StaleStatusesRelease: supposes that the clock runs forward while only timers fire; a clock set back again and again keeps the service awake.
- Failure streaks only affect logging; `kill` counts as done when it was called; delays beyond the timer's range are not modelled; clock readings are integers.

Command line, suggestions, arguments
- CommandLine.ArgumentsRoundTrip: is about the arguments that follow the executable's own name, which the runtime reads by a rule of its own.
- CommandSuggestion.SuggestCommands: needs a collation that is a total preorder. The flag suggestions are the same ranking over another list.
- Insertion order of the flag map, positional normalisation, validation, help, and the other flag readers, which are straight-line code.

Accessibility tree
- AccessibilityTree.RenderAccessibilityTree: without compaction of browser tabs, which removes records in mid-walk; text snippets are an abstract optional text of a node, and the wording of a line is left out. `first_descendant` and the state queries built on rendering are left out.
- AccessibilityTree.Renderer.Walk: a rendering of exactly 1200 records may be marked as truncated or not, depending on what is visited behind the last record.

Hook scripts
- HookScripts.WindowsRunnerIsFailFast: a command is one line handed to an arbitrary shell; what `cmd.exe` does with continuation, labels or expansion inside a line is left to it. The POSIX runner only wraps the normalised script.

Fan-out
- IntegrationFanout.RunBoundedIntegrationFanout: loads that reject and budgets shared by concurrent fan-outs are left out; measuring JSON is a length. The settled variant wraps the same loop.
