# Traefik Manager: verified models

Dafny models of the parts of Traefik Manager that carry state from one step to
the next, with proofs of what they promise over whole runs.

| module | what it models |
|---|---|
| `HistoryState`, `HistoryRun`, `HistoryCounts`, `HistorySummary`, `TargetServices` | the encoded-path block history: overlapping reads of the access log, de-duplication by cursor and fingerprints, per-minute counters with capped keys, pruning, window summaries, attribution to services |
| `HostFiles`, `HostRuntime`, `Checkpoint`, `SafeRecreate` | the safe recreate of the Traefik container and its "last good" checkpoint |
| `PatchUpdate`, `UpdateHistory`, `Mailbox` | the host-side patch update, its history with the alert that follows a failed roll-back, and the request file between dashboard and runner |
| `AuditArchive`, `AuditRetention` | archive-then-delete retention of audit logs, the archive reader and restore |
| `ErrorWindow` | peak error counts, the recommended threshold and the monitor that uses it |
| `LoginAnomaly`, `LoginOverlap`, `LoginOverlapRuns`, `AlertRetry`, `HealthAlerts` | suspicious-address blocks, automatic delivery retries, health and threshold alerts |
| `DockerLogs`, `RecreateWindow` | the log frame decoder and the quarter-hour guard |
| `Counters` | counters keyed by name, their sums, text order |

Code that changes state in place is modelled by classes and loops whose
contracts tie the new state to a function of the old one; the properties are
then proved of that function over all runs. Where a crash matters (checkpoint,
retention) the class keeps a ghost trail of every state the disk went through.
An external command is a step that succeeds or fails at will, and `compose up`
may leave any container behind.

Conditions the source needs are stated, not assumed away. A *well-behaved log*
(`HistoryRun.GoodLog`, `GoodRun`) has stamped, non-decreasing, pairwise distinct
lines, at most 100 requests per instant, no line stamped after the check that
reads it, reads that `tail` does not cut off, and a clock that does not go back.
Balance and cursor monotonicity need none of this.

Times are integers (microseconds). JSON, regular expressions, time stamps and
gzip are taken as parsed; SHA-256 fingerprints of distinct lines are taken as
distinct, and digests of checkpoint files are an arbitrary function.

## What the code does that one might not expect

- The cursor stores at most 100 fingerprints: the 101st request on one instant
  is counted again by the next read (`RemergeCountsTheHundredAndFirst`); the
  exact condition is `RemergeChangesExactly`.
- A state file over 1 MiB is written but never read again, so that collection
  stops for good (`HistoryRun.BoundedRunIs`).
- A checkpoint manifest over 16 KiB can be saved but not loaded
  (`Checkpoint.OversizedManifestIsLost`).
- Restoring compose files goes through Python's text mode, which turns carriage
  returns into line feeds; the restored text is otherwise the same
  (`PatchUpdate.RollbackRestoresExactly`).
- A version label that is ahead of the image tag can pass a roll-back off as the
  old version (`PatchUpdate.NeverDowngradedExactlyWhen`).
- A request file over 4096 bytes, or one whose read fails, is deleted unread:
  `Mailbox.AcceptedRequestsAreHandledOnce` says exactly when, and
  `Mailbox.AcceptedRequestCanBeLost` gives a run.
- Appending to the history can write the line and then raise while trimming;
  a success record treated so is followed by a roll-back record
  (`UpdateHistory.FinalOnceExactlyWhen`).
- The dashboard drops a roll-back record if a failed update validation is
  followed by a roll-back that reached validation (11 or 13 checks), or if two
  error texts make its message longer than 500 characters
  (`UpdateHistory.ReaderKeepsRollbackExactlyWhen`).
- An archive with a line over 1 MiB is written but cannot be restored
  (`AuditRetention.OversizedLogIsNotRestorable`), nor can one that holds a single
  log with, say, an empty actor (`AuditArchive.OneBadLogSpoilsTheArchive`); and an
  archive silently replaces another one that was given the same name
  (`AuditRetention.OverwriteLosesLogs`).
- Audit records are stored in whole seconds, so a block can be forgotten up to a
  second before it ends. The shipped settings (no escalation, blocks of 30
  minutes, a window of 15) are in the overlapping case; with escalation switched
  on at the default numbers blocks never overlap (`LoginOverlapRuns.ShippedSettings`).
  Stored suspicious records are at least, not more than, a window apart.

## Model

| member | source | states |
|---|---|---|
| `HistoryRun.RetainedMinutesAreExact` | backend/app/infrastructure/traefik/encoded_path_block_history_state.py:16-87 | over every run of polls of a well-behaved log, a minute is retained if and only if it is inside the last 24 h and has a non-internal request, and its total and blocked counts equal a plain line-by-line count of everything read so far |
| `HistoryRun.IncrementalEqualsSinglePass` | backend/app/infrastructure/traefik/encoded_path_block_history.py:118-154 | the saved minutes (totals, capped break-downs, last block time) equal those of one pass over the log, cut to 24 h, however the reads overlapped or failed |
| `HistoryRun.RunInvariant` | backend/app/infrastructure/traefik/encoded_path_block_history.py:26-67 | every run keeps the cursor at the last stamp read, its fingerprints exactly those of the requests on that stamp, and the minutes equal to a single pass |
| `HistoryRun.PollKeepsAgreement` | backend/app/infrastructure/traefik/encoded_path_block_history.py:118-154 | one poll, from a known or an unreadable cursor, keeps that agreement |
| `HistoryRun.SliceIsOldPlusNew` | backend/app/infrastructure/traefik/encoded_path_block_history_state.py:35-48 | a re-read slice is old lines, none of which passes the cursor test, followed by exactly the new lines |
| `HistoryRun.CursorAfterPoll` | backend/app/infrastructure/traefik/encoded_path_block_history_state.py:50-65 | after a merge the cursor is the last stamp and its fingerprints are those of the requests on it, through both the replacing and the uniting branch |
| `HistoryRun.EntryAfterPoll` | backend/app/infrastructure/traefik/encoded_path_block_history_state.py:16-48 | in a minute that is retained, merging the fresh lines gives the record of a single pass |
| `HistoryRun.CountersAfterPoll` | backend/app/infrastructure/traefik/encoded_path_block_history_state.py:77-87 | after merging and pruning, all retained minutes are those of a single pass |
| `HistoryRun.RollUpByMinute` | backend/app/infrastructure/traefik/encoded_path_block_history_state.py:289-304 | a minute record is a function of that minute's requests alone, in log order |
| `HistoryRun.SinglePassCounts` | backend/app/infrastructure/traefik/encoded_path_block_history_state.py:272-309 | one pass gives each minute the number of its non-internal and of its blocked requests, and no other minutes |
| `HistoryRun.HistoryFile.Collect` | backend/app/infrastructure/traefik/encoded_path_block_history.py:26-67 | one collection leaves the state file merged and pruned, pruned only if the log request failed, or untouched if saving failed or the file is over 1 MiB |
| `HistoryRun.BoundedRunIs` | backend/app/infrastructure/traefik/encoded_path_block_history.py:157-165 | the state file is that of the polls up to the first state over 1 MiB; from then on no poll changes anything |
| `HistoryRun.CollectsAllExactlyWhen` | backend/app/infrastructure/traefik/encoded_path_block_history.py:157-165 | a run takes in every poll if and only if no state saved before its last poll is over 1 MiB |
| `HistoryRun.BoundedMinutesAreExact` | backend/app/infrastructure/traefik/encoded_path_block_history.py:118-165 | with that limit, every retained minute is still the plain count of the log, for the polls taken in |
| `HistoryRun.RemergeIsNeutral` | backend/app/infrastructure/traefik/encoded_path_block_history_state.py:27-65 | any text merged at any earlier point of a run of merges, lines in any order, can be merged again at any check time without changing a counter, if at most 100 fingerprints lie on each boundary |
| `HistoryRun.RemergeChangesExactly` | backend/app/infrastructure/traefik/encoded_path_block_history_state.py:41-65 | merging a text again changes a counter if and only if one of its countable lines on the cursor instant was cut off the stored fingerprints |
| `HistoryRun.RemergeCountsTheHundredAndFirst` | backend/app/infrastructure/traefik/encoded_path_block_history_state.py:10-10 | 101 requests on one instant: a second merge counts one of them twice |
| `HistoryRun.CursorNeverMovesBack` | backend/app/infrastructure/traefik/encoded_path_block_history_state.py:50-65 | no sequence of merges moves the cursor back |
| `HistoryRun.RunKeepsBalance` | backend/app/infrastructure/traefik/encoded_path_block_history_state.py:16-87 | over every run, with no condition on log, clock or truncation, every minute is balanced: methods, patterns and targets each sum to the blocked count, blocked is at most total, key sets hold five keys plus the overflow key |
| `HistoryState.History.MergeLogEvents` | backend/app/infrastructure/traefik/encoded_path_block_history_state.py:16-74 | the in-place merge has exactly the effect of adding the lines that pass window and cursor test, in order, and then advancing the cursor |
| `HistoryState.History.AdvanceCursor` | backend/app/infrastructure/traefik/encoded_path_block_history_state.py:50-74 | new cursor, boundary fingerprints and start of observation |
| `HistoryState.History.AddRequestToMinute` | backend/app/infrastructure/traefik/encoded_path_block_history_state.py:272-348 | the minute and the start of counting change as one booked request requires; internal routers change nothing |
| `HistoryState.History.PruneMinutes` | backend/app/infrastructure/traefik/encoded_path_block_history_state.py:77-87 | keeps exactly the minutes that start at or after the cut-off |
| `HistoryState.BookOnMinute` | backend/app/infrastructure/traefik/encoded_path_block_history_state.py:305-348 | the step-by-step update equals the specification of one booking |
| `HistoryCounts.RetainedBreakdownsAreExact` | backend/app/infrastructure/traefik/encoded_path_block_history_state.py:272-348 | over every well-behaved run each retained minute tells of its own log lines: per method and per encoded character the number of blocked lines that have it, per pattern and target the number of lines with it if it is among the first five different ones, the others under OTHER and unknown, and the largest stamp of a blocked line |
| `HistoryCounts.SinglePassTells` | backend/app/infrastructure/traefik/encoded_path_block_history_state.py:305-348 | the same of one pass over any log |
| `HistoryCounts.MethodsOf` | backend/app/infrastructure/traefik/encoded_path_block_history_state.py:320-323 | a method counter is the number of blocked lines of the minute with that method |
| `HistoryCounts.CharactersOf` | backend/app/infrastructure/traefik/encoded_path_block_history_state.py:315-319 | a character counter is the number of blocked lines of the minute that contain it |
| `HistoryCounts.CappedCounts` | backend/app/infrastructure/traefik/encoded_path_block_history_state.py:325-346 | a capped counter holds every occurrence of one of the first five different keys, and the overflow counter all other occurrences |
| `HistoryCounts.KeptAreFirst` | backend/app/infrastructure/traefik/encoded_path_block_history_state.py:327-346 | the keys that keep their names are the first five different ones |
| `HistoryCounts.PatternIs` | backend/app/infrastructure/traefik/encoded_path_block_history_state.py:326-326 | a pattern is the characters in upper case joined by plus signs |
| `HistoryCounts.UpperIs` | backend/app/infrastructure/traefik/encoded_path_block_history_state.py:326-326 | upper case changes the letters a to z and nothing else |
| `HistoryCounts.OneBlockedRequest` | backend/app/infrastructure/traefik/encoded_path_block_history_state.py:293-348 | one blocked GET with two encoded characters on an empty minute: what each counter holds then |
| `HistoryCounts.TargetKeyIs` | backend/app/infrastructure/traefik/encoded_path_block_history_state.py:335-340 | a target is the hashed host, else the router, else unknown |
| `HistoryCounts.LastBlockIs` | backend/app/infrastructure/traefik/encoded_path_block_history_state.py:347-348 | the last block time is that of a blocked line of the minute, and no such line is later |
| `HistoryCounts.CountedSinceIs` | backend/app/infrastructure/traefik/encoded_path_block_history_state.py:281-287 | the start of counting is the earliest stamp of any request ever counted |
| `HistoryCounts.ObservedSinceIs` | backend/app/infrastructure/traefik/encoded_path_block_history_state.py:67-74 | the start of observation is the earliest stamp ever read, or the first check if there was none |
| `HistoryState.BookKeepsBalance` | backend/app/infrastructure/traefik/encoded_path_block_history_state.py:309-346 | one booked request keeps a minute balanced, overflow keys included |
| `HistoryState.CapStep` | backend/app/infrastructure/traefik/encoded_path_block_history_state.py:323-345 | a capped key set never outgrows its cap by more than the overflow key |
| `HistoryState.MergeKeepsBalance` | backend/app/infrastructure/traefik/encoded_path_block_history_state.py:16-87 | any merge and prune keeps every minute balanced |
| `HistoryState.SortedUnion` | backend/app/infrastructure/traefik/encoded_path_block_history_state.py:60-65 | the united fingerprints: strictly sorted, exactly the members of both |
| `HistorySummary.AlertCountMatchesLog` | backend/app/infrastructure/traefik/encoded_path_block_history_state.py:105-141 | end to end: in every well-behaved run the window count an alert compares with its threshold is the number of blocked requests the log shows for those minutes |
| `HistorySummary.SummarizeRecentBlocks` | backend/app/infrastructure/traefik/encoded_path_block_history_state.py:105-172 | exact window sums; targets and methods ranked, each name once, with their exact sums and adding up to the blocked count; the five largest patterns; completeness flag if and only if counting began by the cut-off |
| `HistorySummary.SummaryMatchesLog` | backend/app/infrastructure/traefik/encoded_path_block_history_state.py:105-172 | over every well-behaved run, for a window of less than a day, the blocked count of the summary is the number of blocked lines stamped from the whole minute on in which the window begins, and each method count the number of those with the method |
| `HistorySummary.SummaryOfFields` | backend/app/infrastructure/traefik/encoded_path_block_history_state.py:118-172 | each figure is the sum over the minutes of the window of the record it is named after; every target and method is listed, and a pattern that is not has no larger a sum than the five that are |
| `HistorySummary.AccumulateWindow` | backend/app/infrastructure/traefik/encoded_path_block_history_state.py:120-141 | the accumulated totals and every per-key sum of the window's minutes, in any order of the minutes |
| `HistorySummary.RankCounts` | backend/app/infrastructure/traefik/encoded_path_block_history_state.py:366-374 | all counters, each once, by falling count and then name; the sum is kept |
| `HistorySummary.HourBuckets` | backend/app/infrastructure/traefik/encoded_path_block_history_state.py:183-206 | each of 24 buckets holds the blocked requests of its hour, and all buckets together those of the window |
| `HistorySummary.BucketIndex` | backend/app/infrastructure/traefik/encoded_path_block_history_state.py:197-201 | the bucket of a minute is the hour it starts in, the last one also taking the check instant itself |
| `TargetServices.ResolveTargetServices` | backend/app/infrastructure/traefik/encoded_path_block_monitor.py:157-229 | nothing is lost or counted twice: the five named services and the rest add up to all targets; each named entry carries the sum of the targets charged to its key, and name and domain of the service that serves the first of them: for a hashed host the last listed with the hash, else the longest and first listed domain the router name starts with; a key that is not named has no larger a sum |
| `TargetServices.ByHostHash` | backend/app/infrastructure/traefik/encoded_path_block_monitor.py:163-167 | a service is found if and only if one is listed with the hash, and it is the last such |
| `TargetServices.MatchServes` | backend/app/infrastructure/traefik/encoded_path_block_monitor.py:185-199 | a target is matched if and only if a listed service serves its name, and then to that service, told on texts and positions in the list |
| `TargetServices.ChargedIsBooked` | backend/app/infrastructure/traefik/encoded_path_block_monitor.py:200-218 | a target is booked under a key if and only if it is the domain of the service that serves it, or its own name when none does; an unserved host and unknown are booked under none |
| `TargetServices.CollectTotals` | backend/app/infrastructure/traefik/encoded_path_block_monitor.py:178-222 | every target is booked under exactly one key or counted as other |
| `TargetServices.BookTarget` | backend/app/infrastructure/traefik/encoded_path_block_monitor.py:205-222 | one more target: exact sums per key, and the name and domain of the first target booked under it |
| `TargetServices.BestMatch` | backend/app/infrastructure/traefik/encoded_path_block_monitor.py:190-198 | the match is a service whose safe domain the router name extends, and no matching service has a longer one |
| `TargetServices.BestMatchIsFirst` | backend/app/infrastructure/traefik/encoded_path_block_monitor.py:169-176 | of equally long matches the first listed one wins |
| `TargetServices.BuildAlert` | backend/app/infrastructure/traefik/encoded_path_block_monitor.py:97-133 | over every run the services named in an alert and its rest, and its methods, each add up to its blocked count; each entry tells what the window holds for the targets charged to it; complete exactly when counting began no later than the window |
| `Counters.MergeCounts` | backend/app/infrastructure/traefik/encoded_path_block_history_state.py:358-363 | key by key addition of counters, in any order of the keys |
| `Counters.SumMerge` | backend/app/infrastructure/traefik/encoded_path_block_history_state.py:358-363 | merging counters adds their sums |
| `SafeRecreate.Host.PerformRecreate` | scripts/traefik_safe_recreate.py:24-65 | each outcome comes about exactly when its steps went as it says; success and roll-back leave container, compose files and checkpoint in agreement, a roll-back at the configuration and a version that ran before; an intact checkpoint stays intact at every point |
| `SafeRecreate.OutcomeOf` | scripts/traefik_safe_recreate.py:24-136 | success, failed bookkeeping, roll-back, failed roll-back and refusal, each as a condition on the steps |
| `SafeRecreate.Host.Recover` | scripts/traefik_safe_recreate.py:75-136 | recovery ends in the checkpoint's configuration, running and on disk, or reports failure with each compose file as it was or as in the checkpoint; the checkpoint is not touched |
| `SafeRecreate.Host.RecoverContainer` | scripts/traefik_safe_recreate.py:84-103 | the container is recreated unless it is still the original one and valid; success means version and configuration match |
| `SafeRecreate.Host.RuntimeIsValid` | scripts/traefik_safe_recreate.py:139-145 | valid only if the version is reported and the running hash is the compose hash |
| `SafeRecreate.Host.RuntimeMatchesCompose` | scripts/traefik_safe_recreate.py:148-150 | passes only if the running hash is the compose hash |
| `SafeRecreate.Host.KeepNew` | scripts/traefik_safe_recreate.py:48-65 | success only with a new checkpoint of the running configuration; otherwise a metadata failure, never a damaged checkpoint |
| `SafeRecreate.Host.EnsureCheckpoint` | scripts/traefik_recreate_checkpoint.py:20-36 | the checkpoint returned loads, has the running hash and the expected version; every crash point keeps an intact checkpoint intact |
| `SafeRecreate.Host.SaveCheckpoint` | scripts/traefik_recreate_checkpoint.py:39-85 | at every crash point the manifest names the untouched old checkpoint or the complete new one; on success the new one holds byte copies of the compose files and the hash both running and composed |
| `SafeRecreate.Host.WriteCheckpoint` | scripts/traefik_recreate_checkpoint.py:53-85 | copy, manifest and prune with a clean-up on failure, at every crash point old or new |
| `SafeRecreate.Host.CopyFiles` | scripts/traefik_recreate_checkpoint.py:54-68 | each copy may be partial until it is complete; the current checkpoint is never touched |
| `SafeRecreate.Host.Publish` | scripts/traefik_recreate_checkpoint.py:77-85 | from the one-step replacement on, the manifest names the new checkpoint and its directory is untouched at every point |
| `SafeRecreate.Host.PruneOthers` | scripts/traefik_recreate_checkpoint.py:218-221 | removing the other directories, file by file and perhaps only in part, never touches the current one |
| `SafeRecreate.Host.RestoreCheckpoint` | scripts/traefik_recreate_checkpoint.py:135-141 | on success every compose file holds the text and mode of its copy and the compose hash is the checkpoint's; the checkpoint stays as it is at every point |
| `HostRuntime.ValidateRuntime` | scripts/traefik_update_runtime.py:34-98 | passes at the first of at most twenty rounds in which running state, health, version, network and route all pass, and fails only after twenty rounds of which none did |
| `HostRuntime.SafeCurrentVersion` | scripts/traefik_update_runtime.py:132-143 | a version read is that of the label or of the image tag |
| `SafeRecreate.StaysIntact` | scripts/traefik_recreate_checkpoint.py:39-85 | a disk between the old and the new checkpoint is intact if the old one was |
| `SafeRecreate.CopiesAreComplete` | scripts/traefik_recreate_checkpoint.py:54-83 | complete copies and the manifest made for them form a checkpoint the reader accepts |
| `Checkpoint.LoadCheckpoint` | scripts/traefik_recreate_checkpoint.py:88-132 | the check-by-check reader gives a checkpoint back if and only if the manifest is at most 16 KiB and its directory holds every configured file with recorded digest and mode |
| `Checkpoint.LoadsExactly` | scripts/traefik_recreate_checkpoint.py:88-132 | a checkpoint is loaded if and only if its manifest is at most 16 KiB, its image has the version as tag, and it lists the configured files in order, each kept in its directory with the digest and mode noted and at most 1 MiB long |
| `Checkpoint.CrashLoadsOldOrNew` | scripts/traefik_recreate_checkpoint.py:39-132 | a crash during a save leaves the old or the new checkpoint to be loaded if and only if the manifest is not yet replaced, or is at most 16 KiB, or nothing was loadable before |
| `Checkpoint.OversizedManifestIsLost` | scripts/traefik_recreate_checkpoint.py:68-98 | any list of compose files whose manifest just fits: the next version is one character longer, and saving it replaces a good checkpoint by one that cannot be loaded |
| `Checkpoint.FullHostExists` | scripts/traefik_recreate_checkpoint.py:68-81 | such a list: 106 compose files with names of at most 105 letters fill a manifest to the last byte |
| `Checkpoint.SameCheckpointLoadsSame` | scripts/traefik_recreate_checkpoint.py:88-132 | loading depends on the manifest and its own directory only |
| `HostFiles.ReadTextIdentity` | scripts/traefik_update_storage.py:205-217 | reading a text file and writing it back leaves it alone if and only if it has no carriage return |
| `HostFiles.ReadTextByLine` | scripts/traefik_update_executor.py:287-299 | whatever ended a line, a line feed ends it after a read in text mode |
| `HostFiles.TagOfComposedImage` | scripts/traefik_update_models.py:141-147 | the version of a composed image name is the tag put there |
| `PatchUpdate.UpdateHost.ProcessRequest` | scripts/traefik_update_executor.py:38-126 | each outcome fixes files and container and comes about exactly when the steps went as it says; every change follows on an admission |
| `PatchUpdate.UpdateHost.Apply` | scripts/traefik_update_executor.py:77-118 | swap, pull, up, validate, record: success means one swapped occurrence and a container reporting the target |
| `PatchUpdate.UpdateHost.Rollback` | scripts/traefik_update_executor.py:161-236 | "rolled_back" means every backup text is back and the old version is reported |
| `PatchUpdate.UpdateHost.RestoreComposeFiles` | scripts/traefik_update_executor.py:287-299 | on success every compose file has the backup's text and mode; no other file changes |
| `PatchUpdate.UpdateHost.RunPreflight` | scripts/traefik_update_preflight.py:17-73 | a request is admitted if and only if the files are in place, the network is connected, the official image has a pinned tag that is the target or has the same major and minor and a lower patch, and the image is named once |
| `PatchUpdate.UpdatableIs` | scripts/traefik_update_models.py:141-157 | the checks on image and target accept exactly an official image whose tag is the target or a lower patch of the same major and minor |
| `HostFiles.ParseRelease` | scripts/traefik_update_models.py:150-156 | a release written out in decimal reads as its three numbers |
| `PatchUpdate.UpdateHost.FindImageFile` | scripts/traefik_update_preflight.py:104-120 | a file is found if and only if the image line occurs once in all compose files together; that file has it and no other does |
| `PatchUpdate.UpdateHost.CreateBackup` | scripts/traefik_update_preflight.py:76-93 | a finished backup holds every compose file |
| `PatchUpdate.UpdateHost.ReplaceComposeImage` | scripts/traefik_update_preflight.py:123-138 | exchanges the one occurrence of the image line and nothing else, or nothing at all |
| `PatchUpdate.ReplacesTheOccurrence` | scripts/traefik_update_preflight.py:123-138 | with exactly one counted occurrence, the replacement exchanges it at the only place it occurs (overlaps with it aside) |
| `PatchUpdate.OccurrenceIsCounted` | scripts/traefik_update_preflight.py:111-113 | an occurrence anywhere makes the count positive |
| `PatchUpdate.CountsAllPlaces` | scripts/traefik_update_preflight.py:111-113 | where occurrences do not overlap, the count is the number of places |
| `PatchUpdate.NeverDowngraded` | scripts/traefik_update_models.py:150-157 | over any run of accepted, refused and rolled-back updates the parsed versions of the tags keep major and minor and the patch never falls, if no image has a label ahead of its tag |
| `PatchUpdate.NeverDowngradedExactlyWhen` | scripts/traefik_update_runtime.py:132-143 | no admitted update lowers the running tag if and only if no image carries a version label ahead of its tag |
| `PatchUpdate.LabelAheadDowngrades` | scripts/traefik_update_runtime.py:132-143 | with such an image, on a host whose compose files name the running image once, an update to any later patch: its roll-back is validated by the label and leaves a lower tag running |
| `PatchUpdate.OrdinaryHostAdmits` | scripts/traefik_update_preflight.py:17-73 | a host whose first compose file alone names an official pinned image admits an update to any later patch |
| `PatchUpdate.StepNeverDowngrades` | scripts/traefik_update_executor.py:38-126 | one clean update keeps major and minor of the tag and does not lower its patch |
| `PatchUpdate.RollbackRestoresExactly` | scripts/traefik_update_executor.py:287-299 | a roll-back restores a compose file byte for byte if and only if it had no carriage return |
| `PatchUpdate.SwappedImageCarriesTarget` | scripts/traefik_update_preflight.py:66-73 | the image swapped in carries the target version |
| `UpdateHistory.FinalOnce` | scripts/traefik_update_storage.py:100-193 | in a request's history kept in order: a final status never changes, running never returns, nothing follows a requested alert, a pending alert never returns |
| `UpdateHistory.FinalOnceExactlyWhen` | scripts/traefik_update_executor.py:38-236 | the records of one request are final once if and only if no success record is written and then raised |
| `UpdateHistory.RecordsTellTheOutcome` | scripts/traefik_update_executor.py:38-236 | when no append fails the last record has the status, alert and backup of what became of the request, and a started one is first recorded as running |
| `UpdateHistory.TailIsNeverStale` | scripts/traefik_update_storage.py:100-113 | what a trimmed history finds as the latest entry is what the whole history would find |
| `UpdateHistory.LatestIs` | scripts/traefik_update_storage.py:185-193 | the look-up returns the last entry of the request |
| `UpdateHistory.AppendKeepsLifecycle` | scripts/traefik_update_storage.py:100-113 | an entry that may follow the latest one of its request keeps that request's history in order |
| `UpdateHistory.AppendChain` | scripts/traefik_update_executor.py:38-236 | a new request's history is in order if and only if its chain of records is |
| `UpdateHistory.OthersUntouched` | scripts/traefik_update_storage.py:100-113 | records of one request leave every other request's history as it was |
| `UpdateHistory.HistoryFile.AppendHistory` | scripts/traefik_update_storage.py:100-113 | appends, then keeps the last 200 lines |
| `UpdateHistory.HistoryFile.LatestEntry` | scripts/traefik_update_storage.py:185-193 | the backward search finds the latest entry |
| `UpdateHistory.HistoryFile.Process` | scripts/traefik_update_executor.py:38-236 | the records of one update with their texts and checks, for every course and every failing append |
| `UpdateHistory.HistoryFile.RunUpdate` | scripts/traefik-update-runner.py:92-113 | after a whole update, alert included, the request's history is in order if and only if no success record was written and then raised; every other request's is as before |
| `UpdateHistory.HistoryFile.AppendAlertResult` | scripts/traefik_update_storage.py:116-172 | repeats the latest failed roll-back with requested or request_failed, or appends nothing |
| `UpdateHistory.HistoryFile.RetryAlert` | scripts/traefik-update-runner.py:143-200 | only request_failed is ever retried, and every history stays in the order it was in |
| `UpdateHistory.HistoryFile.RunAll` | scripts/traefik-update-runner.py:43-200 | any sequence of updates with fresh ids and alert retries from an empty file: a request's history is in order if and only if its update did not take a success back |
| `UpdateHistory.ReaderKeepsRollbackExactlyWhen` | backend/app/infrastructure/traefik_update_history_codec.py:45-59 | the dashboard keeps a roll-back record if and only if not both a failed update validation and a roll-back validation are in it, the two error texts leave room in 500 characters, no check text exceeds 300 and the backup path does not exceed 500 |
| `UpdateHistory.ReaderKeepsOthersExactlyWhen` | backend/app/infrastructure/traefik_update_history_codec.py:144-163 | every other record is kept unless a check text or the backup path is too long |
| `UpdateHistory.LostSuccessIsReadable` | scripts/traefik_update_executor.py:117-126 | a success record that cannot be appended takes its checks with it, so the record of the validated roll-back is kept |
| `UpdateHistory.LongErrorsAreDropped` | scripts/traefik_update_executor.py:197-226 | two long errors: a roll-back record without one runtime check is dropped |
| `Mailbox.AcceptedRequestsAreHandledOnce` | backend/app/infrastructure/traefik_update_requests.py:80-120 | in every interleaving an accepted request is in the slot, handled exactly once, or dropped; once out of the slot it was dropped if and only if a read of it failed or it was over 4096 bytes, and handled otherwise |
| `Mailbox.AcceptedRequestCanBeLost` | scripts/traefik-update-runner.py:62-71 | a run in which one failed read, or one byte too many, loses an accepted request |
| `Mailbox.SlotCanBeServed` | scripts/traefik-update-runner.py:34-101 | from any run that leaves the lock free and a request in the slot, a runner can empty the slot: it handles a request of up to 4096 bytes and drops a larger one |
| `Mailbox.PublisherIsAnswered` | backend/app/infrastructure/traefik_update_requests.py:80-120 | from any run a new request is accepted if the slot is empty when it is linked and refused otherwise |
| `Mailbox.StepKeepsJudged` | scripts/traefik-update-runner.py:62-101 | every step keeps: what is handled could be read, what could not be read is dropped or about to be |
| `Mailbox.NothingDroppedUnread` | scripts/traefik-update-runner.py:55-101 | without read faults and oversized requests nothing is dropped, so with an empty slot every accepted request was handled |
| `Mailbox.RunnerDeletesWhatItRead` | scripts/traefik-update-runner.py:62-101 | a runner reads whole requests only, and what it unlinks is what it read |
| `Mailbox.InvAlways` | scripts/traefik-update-runner.py:34-40 | lock, slot, files and ledger agree in every reachable state |
| `Mailbox.StepKeepsInv` | backend/app/infrastructure/traefik_update_requests.py:80-120 | every step of any publisher or runner keeps them in agreement |
| `Mailbox.LinkKeepsInv` | backend/app/infrastructure/traefik_update_requests.py:108-120 | the exclusive link fills an empty slot or refuses |
| `Mailbox.BeginKeepsInv` | scripts/traefik-update-runner.py:84-91 | a request is taken in hand for the first time |
| `Mailbox.EndKeepsInv` | scripts/traefik-update-runner.py:100-101 | unlinking after handling empties the slot of that very request |
| `Mailbox.DiscardKeepsInv` | scripts/traefik-update-runner.py:62-71 | an unreadable request is dropped with a reason |
| `AuditRetention.Retention.RunOnce` | backend/app/infrastructure/persistence/audit_retention.py:56-106 | with archiving on, every log is a row or in a finished archive afterwards if and only if each archive it wrote had a new name or replaced one whose logs were all held elsewhere, and then also at every crash point; on completion exactly the expired rows are gone, each in exactly one new archive, and archived and deleted counts equal their number; it terminates |
| `AuditRetention.Retention.RemoveAll` | backend/app/infrastructure/persistence/audit_retention.py:72-99 | the loop ends with nothing expired left and every batch accounted for |
| `AuditRetention.Retention.Turn` | backend/app/infrastructure/persistence/audit_retention.py:72-99 | one turn keeps the account, or raises with nothing lost |
| `AuditRetention.Retention.RemoveBatch` | backend/app/infrastructure/persistence/audit_retention.py:83-98 | archive first, delete second: nothing is lost in between |
| `AuditRetention.Retention.WriteArchive` | backend/app/infrastructure/persistence/audit_retention.py:126-148 | the archive appears whole, or not at all, and replaces one of the same name |
| `AuditRetention.SelectBatch` | backend/app/infrastructure/persistence/audit_retention.py:73-81 | the 500 oldest rows before the cut-off, by time and then id, or all of them |
| `AuditRetention.CrashThenRestoreRebuilds` | backend/app/infrastructure/persistence/audit_archives.py:62-91 | from any conserved state, restoring all archives in any order, repeats included, gives back exactly the original logs |
| `AuditRetention.CrashThenRestoreFromFiles` | backend/app/infrastructure/persistence/audit_archives.py:62-135 | through the bounded reader, for logs with whatever texts: restoring all archive files in any order, repeats included, gives back exactly the original logs if and only if every log that is no longer a row is in an archive all of whose logs are well formed and that is within the reader's limits |
| `AuditRetention.OversizedLogIsNotRestorable` | backend/app/infrastructure/persistence/audit_archives.py:103-110 | a log whose line is over 1 MiB is selected, archived and deleted, and no restore brings it back |
| `AuditRetention.ArchiveTracks` | backend/app/infrastructure/persistence/audit_retention.py:126-148 | writing an archive conserves the logs if and only if its name is new or every log in the archive it replaces is still held elsewhere |
| `AuditRetention.OverwriteLosesLogs` | backend/app/infrastructure/persistence/audit_retention.py:132-144 | the same name drawn twice: the logs of the first archive are gone |
| `AuditRetention.DeleteTracks` | backend/app/infrastructure/persistence/audit_retention.py:93-98 | deleting archived rows loses nothing |
| `AuditRetention.BatchAccounted` | backend/app/infrastructure/persistence/audit_retention.py:72-99 | one more batch keeps "each removed log is in exactly one archive", names being new |
| `AuditRetention.NothingLeft` | backend/app/infrastructure/persistence/audit_retention.py:72-106 | an empty query means exactly the expired rows are gone |
| `AuditArchive.ReadArchiveRecords` | backend/app/infrastructure/persistence/audit_archives.py:94-135 | the reader accepts an archive if and only if it is within every limit, each line is a valid record and no id repeats; it returns those records in order |
| `AuditArchive.ReadLine` | backend/app/infrastructure/persistence/audit_archives.py:103-129 | the checks on one line, exactly |
| `AuditArchive.RoundTrip` | backend/app/infrastructure/persistence/audit_archives.py:138-209 | a log survives serialisation and validation if and only if its id is a canonical UUID and its texts are within the limits |
| `AuditArchive.ValidateExactly` | backend/app/infrastructure/persistence/audit_archives.py:138-209 | a record is accepted if and only if its id is a UUID, its detail null or an object, its texts have 1 to 100, 20, 50, 255 and 255 characters and its time can be read; the log then says field by field what the record does |
| `AuditArchive.WrittenArchiveReadsBack` | backend/app/infrastructure/persistence/audit_retention.py:126-164 | the archive of a batch is read back if and only if all its logs are well formed and line, total and compressed sizes are within the limits |
| `AuditArchive.OneBadLogSpoilsTheArchive` | backend/app/infrastructure/persistence/audit_archives.py:103-135 | one log with a text the reader refuses, and none of its archive is restored |
| `AuditArchive.AuditTable.Restore` | backend/app/infrastructure/persistence/audit_archives.py:62-91 | adds exactly the missing records; restored plus skipped is the total, restored is the growth of the table |
| `AuditArchive.AuditTable.RestoreArchive` | backend/app/infrastructure/persistence/audit_archives.py:62-135 | restores exactly the archives the reader accepts, with the counts of their records; any other archive changes nothing |
| `AuditArchive.FilesRestored` | backend/app/infrastructure/persistence/audit_archives.py:62-135 | restoring written archives in any order brings back what the readable ones hold, and nothing else |
| `AuditArchive.AuditTable.ExistingIds` | backend/app/infrastructure/persistence/audit_archives.py:70-80 | the batched look-up finds exactly the existing ids |
| `AuditArchive.RestoreAdds` | backend/app/infrastructure/persistence/audit_archives.py:62-91 | existing rows stay, missing ones come from the archive, nothing else appears |
| `AuditArchive.RestoreTwice` | backend/app/infrastructure/persistence/audit_archives.py:62-91 | a second restore adds nothing |
| `AuditArchive.RestoreRebuilds` | backend/app/infrastructure/persistence/audit_archives.py:62-91 | if every log is a row or archived, restoring in any order and number rebuilds exactly the original set |
| `ErrorWindow.MaxWindowCount` | backend/app/infrastructure/docker/manager_http_error_preview.py:103-112 | the two-pointer result is the largest number of times in any closed interval of the window length, and is attained |
| `ErrorWindow.PeakOfSorted` | backend/app/infrastructure/docker/manager_http_error_preview.py:105-112 | it bounds every run that fits into the window and is the length of one |
| `ErrorWindow.BuildPreview` | backend/app/infrastructure/docker/manager_http_error_preview.py:21-100 | peaks and thresholds of both kinds for the day, for any list of excluded paths; a look-up fails if and only if an error matches an excluded path that is not itself listed |
| `ErrorWindow.PeakOfLines` | backend/app/infrastructure/docker/manager_http_error_preview.py:21-100 | a peak is the largest number of such lines of the day in any one window, and is reached |
| `ErrorWindow.RecommendationIsLeast` | backend/app/infrastructure/docker/manager_http_error_preview.py:115-117 | below 10,000 the recommendation is the least number that reaches the default and exceeds the peak by one and by a fifth |
| `ErrorWindow.NormalizeExcludedPaths` | backend/app/application/manager_http_error_monitoring.py:100-120 | refuses a list if and only if an entry is no /api/ path or more than 50 remain; otherwise the entries stripped, without trailing slashes, each once, in order |
| `ErrorWindow.NormalizedAre` | backend/app/application/manager_http_error_monitoring.py:100-120 | a path is kept if and only if an entry gives it, once, and in the order of first appearance |
| `ErrorWindow.StripIs` | backend/app/application/manager_http_error_monitoring.py:103-103 | stripping takes away all white space at both ends and nothing else |
| `ErrorWindow.PreviewRoute` | backend/app/interfaces/api/v1/schemas/manager_http_error_schemas.py:99-113 | on the lists the settings accept the preview never fails, and gives the peaks and thresholds of the day |
| `ErrorWindow.CollectTimes` | backend/app/infrastructure/docker/manager_http_error_preview.py:47-73 | the day's error times of either kind, exclusions applied |
| `ErrorWindow.RecommendationIsQuiet` | backend/app/infrastructure/docker/manager_http_error_preview.py:115-117 | the recommendation exceeds the peak if and only if the peak is below 10,000 |
| `ErrorWindow.RecommendedThresholdStaysQuiet` | backend/app/infrastructure/docker/manager_http_errors.py:117-163 | at every check whose window lies in the previewed day the monitor's count stays below the recommended threshold, for peaks below 10,000 |
| `ErrorWindow.CountErrors` | backend/app/infrastructure/docker/manager_http_errors.py:117-163 | the counts are the numbers of lines in the window with status 404, and 500 to 599, whose path no listed path covers |
| `ErrorWindow.WindowOfDay` | backend/app/infrastructure/docker/manager_http_errors.py:135-151 | the monitor's window count is a window count over the preview's times |
| `ErrorWindow.MatchExcluded` | backend/app/infrastructure/docker/manager_http_errors.py:166-173 | the longest excluded prefix at a path boundary, if any |
| `ErrorWindow.CoversIs` | backend/app/infrastructure/docker/manager_http_errors.py:166-173 | a listed path covers exactly itself without trailing slashes and what goes on with a slash after it |
| `ErrorWindow.TrimmedPathsNeverTrip` | backend/app/infrastructure/docker/manager_http_error_preview.py:37-65 | excluded paths without a trailing slash never make the preview fail |
| `LoginAnomaly.EveryRunOk` | backend/app/application/auth/login_anomaly_service.py:33-65 | in every run between any two blocks a suspicious record was stored strictly after the first and not after the second; suspicious records lie a window apart up to rounding; each block is as long as the escalation rule says for the blocks its look-back showed, has a suspicious record in its look-back, and begins after everything before it was stored |
| `LoginAnomaly.NewBlockIsEarned` | backend/app/application/auth/login_anomaly_policy.py:55-78 | a new block needs a suspicious record in the look-back newer than every block, and no block shown there still running |
| `LoginAnomaly.SuspicionsAWindowApart` | backend/app/application/auth/login_anomaly_service.py:83-106 | suspicious records of an address are stored at least the window apart |
| `LoginOverlapRuns.OverlapExactlyWhen` | backend/app/application/auth/login_anomaly_policy.py:45-104 | without escalation, in whole minutes: some run has overlapping blocks if and only if the window is shorter than two blocks |
| `LoginOverlapRuns.OverlapWithinExactlyWhen` | backend/app/application/auth/login_anomaly_policy.py:45-104 | with or without escalation, in whole minutes, a window no longer than the first block, records stored within a minute: some run has overlapping blocks if and only if some number of blocks in a row fits into the look-back and the next is as long as it |
| `LoginOverlap.NeverOverlaps` | backend/app/application/auth/login_anomaly_policy.py:45-104 | with or without escalation: no run overlaps if no block as long as the look-back can be reached with two suspicious records a window apart |
| `LoginOverlap.NeverOverlapsWithin` | backend/app/application/auth/login_anomaly_policy.py:45-104 | the same for runs whose records are stored within a given delay, counting the first block of a row as well |
| `LoginOverlapRuns.EscalatedBlockOverlaps` | backend/app/application/auth/login_anomaly_policy.py:80-91 | with escalation: a run overlaps if k blocks in a row fit into the look-back and the next is as long as it |
| `LoginOverlapRuns.EscalationNeverOverlaps` | backend/app/application/auth/login_anomaly_policy.py:80-91 | with escalation: no run overlaps if the blocks leading up to such a length take longer than the look-back |
| `LoginOverlap.ChainTakesTime` | backend/app/application/auth/login_anomaly_policy.py:80-91 | the escalated blocks a look-back shows take at least the sum of their lengths after the first |
| `LoginOverlap.ChainTakesAll` | backend/app/application/auth/login_anomaly_policy.py:80-91 | with prompt records the first one counts too |
| `LoginOverlapRuns.ShippedSettings` | backend/app/core/config.py:102-109 | with the shipped defaults blocks can overlap; with escalation switched on at the default numbers they cannot |
| `LoginOverlap.BlocksNeverOverlap` | backend/app/application/auth/login_anomaly_policy.py:45-104 | blocks that fit into the look-back overlap by at most a second, and not at all with a second to spare |
| `LoginOverlap.BlocksStayApart` | backend/app/application/auth/login_anomaly_policy.py:45-104 | the invariant behind it, for any room up to a second |
| `LoginOverlapRuns.SuspicionsExactlyAWindowApart` | backend/app/application/audit/audit_service.py:31-31 | for every window of whole seconds: a run whose suspicious records are stored exactly, not more than, a window apart |
| `LoginAnomaly.EscalationIsMonotoneAndCapped` | backend/app/application/auth/login_anomaly_policy.py:80-89 | more earlier blocks never shorten a block, lengthen it if uncapped with a multiplier of two or more, and the cap is kept |
| `LoginAnomaly.BuildSuspicious` | backend/app/application/auth/login_anomaly_policy.py:17-42 | suspicious if and only if no suspicious record is in the window and failures and distinct names reach their minimum |
| `LoginAnomaly.DecisionExactlyWhen` | backend/app/application/auth/login_anomaly_policy.py:45-104 | told on the records shown: still blocked if and only if one is suspicious and the last block runs; a new block if and only if one is suspicious and there is no block, or the last is over and older than a suspicious record; it lasts as long as the rule says for the number of blocks shown |
| `LoginAnomaly.BlockMinutesAre` | backend/app/application/auth/login_anomaly_policy.py:80-89 | whole minutes, at least one; with escalation every block shown multiplies them, up to the cap |
| `LoginAnomaly.AuditTrail.EnforceBlock` | backend/app/application/auth/login_anomaly_service.py:15-65 | whatever order the database returns the records in, searching and sorting them comes to the decision of the ordered log; the caller is let in if and only if no suspicious record is shown or the last block, expired, came after it |
| `LoginAnomaly.OrderDoesNotMatter` | backend/app/application/auth/login_anomaly_policy.py:55-78 | the decision is the same for every order of the records, block times being distinct |
| `LoginAnomaly.BlockTimesIncrease` | backend/app/application/auth/login_anomaly_policy.py:63-71 | stored block times strictly increase in every run, so the sort has one result |
| `LoginAnomaly.AuditTrail.RecordSuspiciousActivity` | backend/app/application/auth/login_anomaly_service.py:68-106 | whatever order the records come in, the log grows by a suspicious record exactly when one is due and can be stored |
| `AlertRetry.RetriedAutomaticallyAtMostOnce` | backend/app/infrastructure/notifications/security_alert_retry_monitor.py:19-64 | in every run a failure is retried automatically at most once, and never after another retry of it |
| `AlertRetry.LookBackShowsRetries` | backend/app/infrastructure/notifications/security_alert_retry_monitor.py:40-56 | the newest 200 of the last day suffice: a record shown without a retry has none anywhere |
| `AlertRetry.ChainsAreShort` | backend/app/infrastructure/notifications/security_alert_retry_monitor.py:19-37 | no chain has more than three automatic retries |
| `AlertRetry.ChainLengthIsAttempt` | backend/app/infrastructure/notifications/security_alert_notifier.py:79-92 | the stored attempt number is the length of the automatic chain |
| `AlertRetry.ChainKeepsItsSource` | backend/app/infrastructure/notifications/security_alert_notifier.py:62-102 | provider, category, source fields and root id are constant along an automatic chain |
| `AlertRetry.InvAlways` | backend/app/infrastructure/notifications/security_alert_retry_monitor.py:40-64 | every reachable table has unique ids, links each retry to an earlier failure and has automatic retries first |
| `AlertRetry.StepKeepsInv` | backend/app/infrastructure/notifications/security_alert_notifier.py:62-102 | outside records, manual and automatic retries keep this |
| `AlertRetry.SelectAutoRetryCandidates` | backend/app/infrastructure/notifications/security_alert_retry_monitor.py:19-37 | selected are records that failed, are complete, are not retried by a shown record and have an attempt below 3, at most five, in the order of the look-back; every other such record comes after five selected ones |
| `AlertRetry.DueIsRetried` | backend/app/infrastructure/notifications/security_alert_retry_monitor.py:19-64 | in a run in which no delivery raises, every due record that fewer than five due ones precede gets an automatic retry, with the next attempt number |
| `AlertRetry.AlertTable.RetryOnce` | backend/app/infrastructure/notifications/security_alert_retry_monitor.py:40-64 | one run appends one linked record per delivery made |
| `HealthAlerts.AlertsAlternate` | backend/app/infrastructure/docker/manager_health_monitor.py:91-134 | over any run each component alternates unhealthy and recovered, unhealthy events keep the cooldown, and the flag is up exactly while the last event is unhealthy |
| `HealthAlerts.EventsExactlyWhen` | backend/app/infrastructure/docker/manager_health_monitor.py:86-134 | over every run a component read unhealthy is alerted if and only if its last event is not an alert and its last alert, if any, is at least the cooldown ago; one read healthy has recovered if and only if its last event is an alert |
| `HealthAlerts.EveryRunOk` | backend/app/infrastructure/docker/manager_health_monitor.py:91-134 | the invariant behind it, with the stored time of the last alert |
| `HealthAlerts.CheckByComponent` | backend/app/infrastructure/docker/manager_health_monitor.py:91-134 | in one check every component moves by its own reading only |
| `HealthAlerts.ReadingKeepsOk` | backend/app/infrastructure/docker/manager_health_monitor.py:50-52 | one reading keeps alternation, cooldown and flag |
| `HealthAlerts.Monitor.CheckOnce` | backend/app/infrastructure/docker/manager_health_monitor.py:91-134 | the loop moves state and events as the check of all components against the state before it |
| `HealthAlerts.ThresholdAlertsOk` | backend/app/infrastructure/traefik/encoded_path_block_monitor.py:73-93 | over any run of the threshold monitors an all-clear answers an alert, repeated alerts keep the cooldown and the flag is up exactly while the last signal is an alert |
| `HealthAlerts.SignalsExactlyWhen` | backend/app/infrastructure/traefik/encoded_path_block_monitor.py:73-93 | over every run a breach sends an alert if and only if the last signal is no alert or one at least the cooldown ago, and the end of a breach an all-clear if and only if the last signal is an alert |
| `DockerLogs.DecodeInvertsEncode` | backend/app/infrastructure/docker/logs.py:51-68 | decoding any non-empty list of frames gives exactly their payloads |
| `DockerLogs.TruncationDecodesToPrefix` | backend/app/infrastructure/docker/logs.py:51-68 | a stream cut to at least eight bytes decodes to exactly the payload bytes that are left, a prefix of the payloads |
| `DockerLogs.TrailingBytes` | backend/app/infrastructure/docker/logs.py:55-68 | bytes that are no frame are passed on as they are, at the start or after the frames; a rest shorter than a header is dropped |
| `DockerLogs.DecodeDockerLogStream` | backend/app/infrastructure/docker/logs.py:51-68 | the cursor loop terminates on arbitrary bytes and computes the frame-by-frame decoding |
| `DockerLogs.TakeFrame` | backend/app/infrastructure/docker/logs.py:58-65 | one frame off the cursor, cut off at the end if need be |
| `DockerLogs.DecodeOneFrame` | backend/app/infrastructure/docker/logs.py:58-65 | one encoded frame decodes to its payload, or to what is left of it |
| `DockerLogs.BigEndianInverse` | backend/app/infrastructure/docker/logs.py:62-62 | sizes below 2^32 survive the four header bytes |
| `RecreateWindow.WaitIsLeast` | scripts/traefik_recreate_window.py:27-43 | the wait is zero exactly in the safe zone, otherwise the least whole number of seconds that reaches it, and at most twice the guard |
| `RecreateWindow.SafeIs` | scripts/traefik_recreate_window.py:27-43 | safe means that every quarter hour is the guard past, or more than the guard ahead |
| `RecreateWindow.NapMakesProgress` | scripts/traefik_update_executor.py:239-248 | a nap of at most thirty seconds shortens the wait |
| `RecreateWindow.WaitForWindow` | scripts/traefik_update_executor.py:239-248 | the nap loop terminates in the safe zone, at once if it starts there |

## Left out

- The dashboard, HTTP routes, Docker, Authentik, Cloudflare, SMTP and GitHub clients, the Traefik YAML builders, login lockout, sessions and settings clamps: glue or library code.
- Messages, percentages, sample coverage and the per-character counters of the 24-hour view: they only add members like those present. Of `build_summary` the hourly buckets are modelled.
- State files that are not what the program wrote (wrong JSON types): the source resets or skips such parts; here a state is well typed.
- The HTTP error summary with its buckets and top paths, and the preview's counters of excluded errors: the counting they share with the monitor is modelled.
- What makes a container healthy or reachable: each round of the runtime validation gets its answers from the host; only the version is read from the container.
- Version numbers in digits other than 0 to 9, which Python's `\d` also matches.
- The final UTF-8 decoding of a log stream.
- A checkpoint directory whose random name exists: `mkdir` refuses it, so it counts as a failed save.
- A runner that dies in the middle of a request; the container recreation audit; the heartbeat, except as a step that may fail.
- `Mailbox` assumes that unlinking the request after handling it succeeds, and that the heartbeat before an unreadable request is dropped does not raise.
- Publishers and runners as programs: `Mailbox` models them as the steps of one state machine, since its claims are about interleavings.
- A health monitor that is switched off and on again; component names that repeat within one check.
- Alert retries assume that a retry record is stored later than the record it retries and that ids are not reused; manual retries start a new automatic chain, so only automatic chains are bounded.
- HealthAlerts.ThresholdAlertsOk: states the shared machine of the block and HTTP error monitors once, not the reading of their settings.
- RecreateWindow.WaitForWindow: a nap may end late by anything short of sleeping through the whole safe zone.
- LoginOverlapRuns.EscalationNeverOverlaps: for records that may be stored any time after their call, the first block of a row does not count; `LoginOverlapRuns.OverlapWithinExactlyWhen` is exact for a bounded delay. With escalation and a window longer than the first block the exact condition is not given; without escalation it is, for every window.
- Calls for one address that interleave: each call reads the log and stores its record before the next begins.
- How large a state of the block history gets: its serialised size is an arbitrary function.
- UpdateHistory.ReaderKeepsRollbackExactlyWhen: ids, versions, times and the alert fields, which the writer validates as the reader does, are taken as accepted; texts appear by their lengths.
