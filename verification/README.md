# context-router: the storage protocols, proved

This project models how context-router keeps what it stores: crash-and-resume
recovery of a damaged session database, the lease that keeps writers away from
it, the content-addressed store with its purges and the pass that reclaims blob
files, the usage ledger while its schema grows, the session event log with its
sweep and its export, the text coordinates by which stored bytes are handed
back, the purge audit log, and the loops that merge the full-text index.

| file | what it models |
|---|---|
| Recovery.dfy | `session recover`: a directory changed by single renames, writes and removes, a kill after any of them |
| RescueTable.dfy | copying one table out of a damaged database |
| RescuedRows.dfy | the copied rows are the events of the recovered database |
| Lease.dfy | shared and exclusive lock, recovery marker, purge of sessions, crashes |
| Reclaim.dfy | quarantine, stat, query and removal of blobs against concurrent registrations |
| ContentStore.dfy | artifacts, sources, chunks, full-text mirror and id watermark |
| Ledger.dfy | three column additions, the migration mark, old and stale writers, the statistics |
| EventLog.dfy | append gate, session creation, the two batched loops of the sweep |
| ExportPaging.dfy | cursor, limit and byte budget of the event export |
| Utf8.dfy, Lines.dfy, Fetch.dfy, Chunking.dfy, Snippet.dfy | characters, lines, pages, chunks and snippets of stored text |
| PurgeLog.dfy | the audit log's writer and reader |
| MergeLoop.dfy | the scheduler of the index merge |
| Rows.dfy, Common.dfy | shared pieces: ordered selection, row ids, options, bytes |

`dafny verify dfyconfig.toml` checks all of it.

## How it is modelled

* What the source changes step by step in memory or in tables is a class or a
  method with loops, proved against functions on values, and the functions have
  their own lemmas. What several processes do at once is a state machine over
  their steps, and the results hold for every sequence of steps.
* In Recovery.dfy every step of the class `Disk` needs a proof that the
  directory it leaves satisfies the invariant, and `trail` records each
  directory there has been. `fuel` is the number of steps until the kill.
* A transaction is one step. A file rename is one step. A health probe is
  exact. Hashes are injective, so a hash stands for its content, and fresh
  identifiers are fresh. Timestamps of backups grow from run to run.
* In Recovery.dfy a database is a main file and a log of newer pages; closing
  the last connection folds the log into the main file and then removes log and
  index, one step each. The probes leave the directory as it is.

## Where the code does not do what one would expect

Each of these is a lemma with the run that shows it and the exact condition;
the code is modelled as it is.

* `rescueTable` starts its cursor at zero, so a row with a rowid of zero or less
  is never copied (`RescueTable.CompleteCopyIsTable`,
  `RescueTable.RowZeroIsLeftBehind`). The program itself never issues such a
  rowid.
* Two killed runs can back up log and main file under different timestamps
  (`Recovery.TwoKillsSplitTheBackup`). Should the finished copy then disappear,
  which no run of the program causes, `restoreLatestBackup` brings back the main
  file with the log of its own family, here none, and the log's rows are missing
  (`Recovery.RestoreBringsBack`, `Recovery.SplitBackupNeedsTheCopy`).
* `sweepOrphanBackups` is not made up for: a run killed between publishing and
  sweep leaves the next one nothing but the marker to remove, and the sidecars of
  earlier killed backups stay (`Recovery.OrphansOutliveAKill`). A run that
  publishes itself leaves none (`Recovery.Disk.Recover`).
* An error return of `rescueAll` closes the copy. Before the schema transaction
  has committed that does no harm, since a copy of version 0 does not pass
  `tmpIsHealthy` (`Recovery.ClosingBeforeSchemaIsHarmless`). After it the copy
  passes, and the guarantees hold exactly if no row of either table was left to
  copy; otherwise the next run publishes the copy without the rows that were
  left (`Recovery.ClosingEarlyLooksFinished`, `Recovery.ClosedEarlyIsPublished`,
  `Recovery.UnfinishedCopyIsPublished`). The recovery guarantees are therefore
  stated for kills.
* `purge --sessions` takes the exclusive lock and deletes session.db, its log and
  its index without looking for the marker (`Lease.PurgeIgnoresTheMarker`,
  `Lease.PurgeUnderMarkerIff`). After a killed recovery a complete copy is then
  left exactly if the rescue copy was finished or a backup is the original
  (`Recovery.PurgeUnderTheMarker`).
* The reclaim pass can remove a blob that a registration commits within the age
  gate of its own write, if a registration has renamed an older temporary file
  over the newer blob (`Reclaim.OlderFileOverNewerLosesBlob`) or if a rollback
  has put an older blob over it before a second pass
  (`Reclaim.SecondPassLosesBlob`). What decides is the age of the file in place
  (`Reclaim.GateIsExact`).
* The comment on `nextArtifactID` says that a store from before the watermark
  needs no migration; a purge before its first registration still lets ids be
  issued again. The same holds of a store whose watermark table is missing: ids
  keep their meaning exactly if no id in use is above the watermark, a missing
  one counting as zero (`ContentStore.WatermarkMustCover`).
* A process that dies between the last column addition and the stamp leaves a
  ledger that is never stamped (`Ledger.DyingBeforeStamp`); an unstamped ledger
  can still be stamped exactly if a column is missing and the mark fits 32 bits
  (`Ledger.CanStillBeMarked`).
* Event ids have no AUTOINCREMENT, so an id is issued twice exactly if the newest
  event is deleted. A sweep batch deletes it exactly if it is due: expired with at
  most a batch of expired events, or the start of an old empty session with less
  than a batch of such sessions before it (`EventLog.NewestGoesIff`,
  `EventLog.StepKeepsNewest`). A process's own start event is due at its start-up
  sweep only if it has stalled for longer than its retention or a week
  (`EventLog.StartupSweepKeepsNewest`, `EventLog.StalledStartReusesTheId`). But an
  append takes its time before it waits for the write lock, so an event of another
  process with a short retention can be newest and expired without any stall
  (`EventLog.OvertakingAppendGoes`, `EventLog.OvertakenOpenLosesTheId`). Outside
  the sweep, `session recover` drops the newest event exactly if its row is
  unreadable or withheld (`Recovery.NewestEventSurvivesIff`), and
  `purge --sessions` deletes all of them, so that ids start at one again
  (`EventLog.ReplacementKeepsNewest`).
* An export cursor misses the event that takes an id again
  (`ExportPaging.ReusedIdIsMissed`). While the newest event is never due, paging is
  lossless across sweeps (`ExportPaging.PagingAcrossSweeps`).
* Two merge loops that wake together both merge and both stamp
  (`MergeLoop.LoopsThatWakeTogetherBothMerge`), and a stamp that becomes due
  between the two clock readings of a round costs a whole interval
  (`MergeLoop.DeadlineBetweenReadings`).
* A byte budget of three can stall paging before a four-byte character
  (`Fetch.ThreeBytesCanStall`).

## Model

| member | source | states |
|---|---|---|
| Recovery.NothingIsLost | internal/session/recover.go:588-622 | In every state of every sequence of killed recoveries a complete copy stands in one of three places: the original with its own log, the finished copy, or the published database; only if the finished copy has disappeared may it be the original in a backup |
| Recovery.RestoringNeedsALoss | internal/session/recover.go:541-569 | The phase that restores a backup is reached only if the finished copy has disappeared |
| Recovery.PublishedStandsAlone | internal/session/recover.go:612-622 | Once published, and whenever session.db is not the damaged original, no log and no index stand beside it, and it reads as the full rescue of main and log |
| Recovery.RecoveredIsFullRescue | internal/session/recover.go:56-148 | A finished recovery has no marker and no copy; its session.db is sound, of version 1, and holds exactly the readable cells of the original, the log's where it has one and else the main file's, but for the rows damage withholds from the copying queries; the original and all older backups are kept |
| Recovery.NewestEventSurvivesIff | internal/session/recover.go:318-364 | After recovery the newest event id is still the newest exactly if its row was readable and not withheld; no id is newer |
| Recovery.StartSatisfiesInv | internal/session/recover.go:68-78 | A damaged directory without marker and copy is a state the guarantees start from |
| Recovery.SidecarMayMove | internal/session/recover.go:594-606 | Once the copy is complete, moving a sidecar of the original into the backup keeps every guarantee |
| Recovery.MainMayMove | internal/session/recover.go:594-606 | With its sidecars gone first, moving the original main file keeps every guarantee |
| Recovery.CopyMayBePublished | internal/session/recover.go:615-617 | Renaming the copy to session.db keeps every guarantee |
| Recovery.OrphanMayGo | internal/session/recover.go:629-664 | Removing a backup sidecar that has no main file keeps every guarantee |
| Recovery.SidecarMayReturn | internal/session/recover.go:549-566 | Restoring the log and index before the main file keeps every guarantee |
| Recovery.MainMayReturn | internal/session/recover.go:549-566 | Restoring the main file last brings back the whole original |
| Recovery.UnmarkedPhases | internal/session/recover.go:72-78 | Without the marker, the probe finds damage exactly if the original is whole and unrecovered, and otherwise the recovery is finished |
| Recovery.MarkedPhases | internal/session/recover.go:113-137 | Under the marker and without a finished copy: session.db is healthy exactly if publishing is over, and missing exactly if the newest backup is the original |
| Recovery.HealthyPhases | internal/session/recover.go:92-112 | A copy that looks healthy under the marker is the complete rescue, whether or not the original is still in place |
| Recovery.LostCopyIsRestorable | internal/session/recover.go:541-569 | The guarantees survive the loss of the finished copy exactly if restoring the newest backup brings back the original |
| Recovery.RestoreBringsBack | internal/session/recover.go:541-569 | The restore brings back the main file with the log of its own family, and so the whole original exactly if that is its log |
| Recovery.AnyBackupCanBeRestored | internal/session/recover.go:541-569 | Whatever log the newest backup family holds, the guarantees hold for the recovery of that main file with that log |
| Recovery.SplitBackupNeedsTheCopy | internal/session/recover.go:672-693 | With log and main file under different timestamps the copy has the log's row, and what a restore would bring back has not |
| Recovery.TwoKillsSplitTheBackup | internal/session/recover.go:588-608 | Two runs of recover, each killed inside its backup, leave log and main under different timestamps |
| Recovery.KilledAtIs | internal/session/recover.go:588-608 | A run killed after so many steps of its backup has moved the index if there was one, then the log, then the main file, and nothing else |
| Recovery.OrphansOutliveAKill | internal/session/recover.go:105-121 | Killed between publishing and sweep: the next run only removes the marker, and a log without its main file stays |
| Recovery.ClosingEarlyLooksFinished | internal/session/recover.go:278-291 | Closing an unfinished copy, as an error return does, makes it look finished; the guarantees then hold exactly if no row of either table was left to copy |
| Recovery.ClosedEarlyIsPublished | internal/session/recover.go:672-693 | The next run publishes such a copy as it is, without exactly the rows that were left |
| Recovery.UnfinishedCopyIsPublished | internal/session/recover.go:278-291 | An error before the first row of the last table: a readable row is missing from what is published |
| Recovery.ClosingBeforeSchemaIsHarmless | internal/session/recover.go:279-281 | Closing a copy before its schema has committed keeps the guarantees: it does not look finished |
| Recovery.PurgeUnderTheMarker | internal/cli/cli.go:1352-1389 | When a purge of sessions meets a killed rescue, a complete copy is left exactly if the rescue copy was finished or a backup is the original |
| Recovery.Disk.LatestBackup | internal/session/recover.go:511-530 | Finds the newest timestamp with a backup main file, or that there is none |
| Recovery.Disk.PublishAlreadyComplete | internal/session/recover.go:194-211 | True exactly if session.db is sound and some backup main file exists |
| Recovery.Disk.RemoveTmpFamily | internal/session/recover.go:249-256 | Clears the copy, main file first, and touches nothing else |
| Recovery.Disk.RescueAll | internal/session/recover.go:261-294 | Leaves a finished copy with every readable row of main and log, reports their number, changes nothing but the copy; a kill at any step leaves a copy that does not look finished |
| Recovery.Disk.CopyRows | internal/session/recover.go:283-294 | Sessions, then events: the copy as read through its log holds exactly the full rescue, whenever pages are checkpointed in between |
| Recovery.Disk.CopyTable | internal/session/recover.go:318-364 | One table's loop leaves exactly the rows of the later table to copy, and counts its own |
| Recovery.Disk.VerifyRescued | internal/session/recover.go:424-454 | Reopening and folding the copy keeps it complete and leaves no sidecar |
| Recovery.Disk.BackupOriginal | internal/session/recover.go:588-608 | Moves index, log and main, in that order, to one fresh timestamp, each with its content; a kill in between leaves the copy complete and the original main in place |
| Recovery.Disk.FinishPublish | internal/session/recover.go:612-622 | The copy becomes session.db, and every backup file that is left has the main file of its family |
| Recovery.Disk.SweepOrphanBackups | internal/session/recover.go:629-664 | A file goes exactly if it is in a backup family without a main file; every other file stays as it is |
| Recovery.Disk.RestoreLatestBackup | internal/session/recover.go:541-569 | Whenever the marker stands without a finished copy and without session.db: brings back every file of the newest backup family, main last, and touches nothing else; a kill in between leaves a state that is restored again |
| Recovery.Disk.ResumePublishFromTmp | internal/session/recover.go:672-693 | A finished copy is published without copying again, and reports all its rows |
| Recovery.Disk.Recover | internal/session/recover.go:56-148 | From any reachable state, a run that is not killed ends in the finished recovery, reports the full number of rows, does nothing exactly if recovery was finished, and is never stuck: enough steps always complete it. One that publishes leaves no backup file without its main file; when it started without marker, every file of the original is under its timestamp, and of the other backups exactly those with a main file are left |
| Recovery.Disk.RecoverRepeatedly | internal/session/recover.go:56-148 | Any number of runs, each killed anywhere: every directory ever reached keeps the guarantees, the first run that is not killed finishes, later ones change nothing, and a kill inside a backup leaves the stated directory for the next run |
| RescueTable.CopyTable | internal/session/recover.go:318-364 | Terminates on every pattern of damage; rows come out at most once in rowid order; a row passed over was hidden from some query; it gives up only after nine queries in a row that read nothing, and after at most nine queries per row and nine more |
| RescueTable.EndFinishes | internal/session/recover.go:350-352 | Normal end: every row with a positive rowid is copied or was hidden from a query, and without damage all of them are |
| RescueTable.StallGoesOnOrFinishes | internal/session/recover.go:353-359 | Each stall counts once, and the ninth in a row ends the copying |
| RescueTable.BatchGoesOn | internal/session/recover.go:330-361 | Progress, also before a fault, resets the stall count and keeps the copied rows faithful |
| RescueTable.EndingsAre | internal/session/recover.go:330-361 | A query stalls, fails or ends the copying exactly if it read nothing and its error is damage, another one, or none |
| RescueTable.BatchIsFull | internal/session/recover.go:330-361 | A query delivers at most 200 rows, and fewer only if it was stopped there or nothing more is to be seen |
| RescueTable.CompleteCopyIsTable | internal/session/recover.go:318-321 | The cursor starts at zero: the copy is the whole table exactly if no rowid is zero or negative |
| RescueTable.RowZeroIsLeftBehind | internal/session/recover.go:320-320 | A table with one row at zero is copied as empty |
| RescuedRows.RecoveredEventsAreTheCopied | internal/session/recover.go:318-364 | If the rows passed over are those counted as lost, the events of the recovered database are exactly the rows the loop copied, whatever the damage did to its queries, and after a normal end every lost one was hidden from some query |
| RescuedRows.EveryLossArises | internal/session/recover.go:318-364 | Any set of rows may be lost: under damage that hides it from every query the loop ends by itself and copies exactly the other rows |
| Lease.RunKeepsInv | internal/session/session.go:205-221 | Over all interleavings and crashes: the lock excludes, a recovery works under the marker, and while the marker stands no writer has the database open |
| Lease.MarkerFreezesDb | internal/session/session.go:333-354 | As long as the marker stands, whoever opens, appends, closes or crashes, no event is appended: only a publish of a recovery and a purge of sessions change the database |
| Lease.PurgeUnderMarkerIff | internal/cli/cli.go:1352-1389 | Under the marker a step empties the database exactly if it is a purge that holds the lock or the publishing of an empty rescue |
| Lease.PurgeIgnoresTheMarker | internal/cli/cli.go:1352-1389 | A reachable state in which a purge holds the lock under the marker of a dead recovery and empties the database |
| Lease.OpenOutcome | internal/session/session.go:793-807 | An open ends with the database writable exactly if there is no marker and no recovery, and otherwise releases its lease |
| Lease.CrashGivesBack | internal/session/session.go:205-221 | A crash gives back the lock and changes nothing else |
| Lease.WriterComesAndGoes | internal/session/session.go:793-807 | A writer's visit appends its event exactly if there is no marker and no recovery, and leaves no lock behind |
| Lease.ExclusiveIff | internal/session/recover.go:56-61 | The exclusive lock is granted exactly if nobody else holds a lock |
| Lease.RecoveryComesAndGoes | internal/session/recover.go:56-148 | A recovery that is granted the lock publishes if it finds marker or damage and else changes nothing, and leaves neither marker nor lock behind |
| Lease.PlacesChangeOnlySo | internal/session/session.go:793-807 | The edges between the places a process can be in, and that nobody else moves it |
| Lease.RecoveryStartsAlone | internal/session/recover.go:56-61 | A recovery that holds the lock is alone |
| Lease.LookingFirstIsUnsafe | internal/session/session.go:347-354 | With the marker looked for before the lease, an event can be appended under the marker: the order of the two steps is needed |
| Lease.OrdersAgreeAlone | internal/session/session.go:347-354 | With nobody in between the two orders have the same outcome |
| Reclaim.ReclaimIsSafe | internal/store/store.go:1972-2013 | Passes over distinct hashes, interleaved step by step with registrations and row deletions: between any two hashes, and so at the end of each pass, every committed hash is in place, if each commit is within the age gate of the file it counts on and no pass starts while a registration in flight counts on a newer file than is in place |
| Reclaim.OnePassIsClean | internal/store/store.go:1972-2013 | For a single pass the condition on starts is void |
| Reclaim.ForwardReclaimIsSafe | internal/store/store.go:455-477 | The same with the gate measured from the registration's own writes, if no older temporary file is renamed over a newer blob |
| Reclaim.SequentialPassesAreSafe | internal/store/store.go:1972-2013 | Any number of passes with registrations in flight across them are safe if neither a registration nor a rollback puts an older file over a newer blob |
| Reclaim.ForwardPassesAreClean | internal/store/store.go:1997-2003 | Without such a rollback every pass starts clean |
| Reclaim.LonePassesRollForward | internal/store/store.go:1997-2003 | Passes that no registration puts a file beside meet the conditions |
| Reclaim.SecondPassLosesBlob | internal/store/store.go:2002-2002 | The rollback condition is needed: an older file renamed back over a newer one is removed by the second pass, and a blob committed within the gate of its own write is gone |
| Reclaim.GateIsExact | internal/store/store.go:1998-2010 | A commit right after an undisturbed pass finds its blob exactly if the file in place was younger than the gate, whatever the registration itself wrote |
| Reclaim.OlderFileOverNewerLosesBlob | internal/store/store.go:470-475 | A run in which every commit is within the gate of its own write and yet a committed blob is gone, because a slower writer renamed an older file over it |
| Reclaim.PassStepKeepsInv | internal/store/store.go:1987-2011 | Rename aside, stat, query, remove and rename back each keep every committed or awaited blob |
| Reclaim.OutsideStepKeepsInv | internal/store/store.go:533-551 | Temporary write, rename into place, commit, giving up and dereferencing each keep it too |
| Reclaim.UndisturbedPass | internal/store/store.go:1997-2011 | A pass puts a fresh blob back and removes an old unreferenced one |
| Reclaim.FailurePutsBack | internal/store/store.go:1998-2010 | Whatever fails on a quarantined file, the file is put back as it was and nothing else changes |
| Reclaim.MissingOrBusyIsSkipped | internal/store/store.go:1992-1999 | A file that is missing or cannot be renamed aside is left alone |
| Reclaim.RegistrationAlone | internal/store/store.go:533-604 | A registration alone: a commit before content and raw blob are in place is refused, one after that refers to both, and nothing else changes |
| Reclaim.GivingUpLeavesFiles | internal/store/store.go:533-551 | A registration that gives up refers to nothing and leaves its files |
| ContentStore.PassesEqualOnePass | internal/store/store.go:1899-1959 | The hook purge with cutoff and limit, repeated until it reports zero, leaves exactly what one unlimited pass leaves, and nothing to purge |
| ContentStore.ExplicitIsUntouched | internal/store/store.go:1672-1681 | Every source that is not a hook keeps its row, its artifact, its chunks and its raw blob hash |
| ContentStore.PurgedContentIsGone | internal/store/store.go:1826-1841 | A purged hash leaves no artifact, source or chunk; with a cutoff nothing seen since then is purged |
| ContentStore.CandidatesAfterPurge | internal/store/store.go:1672-1681 | Purging some candidates makes no other hash a candidate and saves none |
| ContentStore.Store.PurgeHookRows | internal/store/store.go:1899-1959 | The three statements act on one set of hashes although two of them select it again: only contents that hooks alone refer to and, with a cutoff, nobody has seen since; all of them, or with a positive limit the least ones up to it. Exactly the rows of these contents go, the report names them, and the full-text mirror stays equal to the chunks |
| ContentStore.SelectedIsOnePass | internal/store/store.go:1819-1841 | With a limit a pass takes no more than it, fewer only if no purgeable content is left, and always the least; without one it takes all |
| ContentStore.CandidatesArePurgeable | internal/store/store.go:1672-1681 | A content is a candidate exactly if, read off the rows, a hook's source leads to it, no other source does or keeps it raw, and with a cutoff none has been seen since |
| ContentStore.Store.PurgeOlderThan | internal/store/store.go:874-899 | The whole new state and both counts; no reference dangles and the mirror stays equal |
| ContentStore.OlderPurgeOutcome | internal/store/store.go:874-892 | A source goes exactly if it is older than the cutoff, an artifact with its chunks exactly if no source is left for it |
| ContentStore.Store.Register | internal/store/store.go:533-604 | The whole new state, or the old state on a conflict; sound and mirrored either way |
| ContentStore.RegisterOutcome | internal/store/store.go:549-604 | A conflict exactly if the expected source hash is not there; otherwise the uri's row has the kind, hash, raw blob and time it was given and leads to the content, no other uri's row changes, known content keeps id and chunks, and new content gets an id above every id in use and the watermark, and all its chunk texts in order |
| ContentStore.RegisteredTextsAreRead | internal/store/store.go:682-699 | Every text of newly registered content is read back by some chunk id and nothing else is; what other artifacts read as stays, and an artifact with another's chunk is refused as a wrong pair |
| ContentStore.Store.InsertChunks | internal/store/store.go:573-578 | Chunks inserted one by one get the ids after the largest one, in ordinal order, with the mirror in step |
| ContentStore.WithArtifactIsSound | internal/store/store.go:549-571 | Inserting an artifact keeps references, content and ordinals unique |
| ContentStore.StaleReferencesAreSafe | internal/store/store.go:346-354 | Over any history of registrations and purges an id held from before means the same content or is not found, and a stale artifact and chunk pair reads as the same text or not at all, although chunk ids are used again |
| ContentStore.PurgedIdsStayUnknown | internal/store/store.go:346-354 | An id that was purged is never found again |
| ContentStore.WatermarkMustCover | internal/store/store.go:346-354 | Of any store: ids keep their meaning in every history exactly if the watermark, a missing one counting as zero, is at least every id in use; so without the watermark table exactly if there is no artifact, and a store from before the watermark must first register |
| ContentStore.MarkedIdsStay | internal/store/store.go:346-354 | Over any history, failed creations of the table included, an id up to the watermark is never issued for other content |
| ContentStore.FailedMarkUncovers | internal/store/store.go:561-571 | A registration whose watermark write fails leaves the store protected exactly if it added no artifact |
| ContentStore.Store.EnsureWatermark | internal/store/store.go:329-333 | Creates the watermark table if it is missing, or leaves everything as it is |
| Rows.FirstOfIsSmallest | internal/store/store.go:1837-1840 | ORDER BY with LIMIT picks the smallest keys |
| Rows.FirstOfSize | internal/store/store.go:1837-1840 | and as many as there are up to the limit |
| Rows.FirstOfRank | internal/store/store.go:1837-1840 | A key is picked exactly if fewer keys than the limit are below it |
| Ledger.NeverMisread | internal/store/store.go:1199-1240 | Whatever column additions fail and whatever old or stale writers do, a resolved fetch is never read as missed nor the reverse; id and age are exactly those of resolved rows, and ownership is recorded, as it was, exactly of fetches that returned an artifact and were written with all three columns known |
| Ledger.CallsAddUp | internal/store/store.go:1561-1577 | calls = legacy + resolved + missed |
| Ledger.RunKeepsInv | internal/store/store.go:1497-1514 | Columns and rows only grow along every run, and a stamped mark never moves |
| Ledger.StepWritesIff | internal/store/store.go:1199-1240 | Every write adds one row and nothing else does |
| Ledger.HandlesChangeOnlySo | internal/store/store.go:1431-1460 | A writer knows the columns its open saw or added, none if it could not read them, and keeps that until it closes |
| Ledger.FailedOpenKeepsMark | internal/store/store.go:1431-1514 | An open that finds another under way waits, a failed column addition is passed over, and a failed read or stamp ends an open without a mark |
| Ledger.LegacyAfterMigrateIsExact | internal/store/store.go:1588-1594 | In every run from an old ledger that ends with a mark, the mark is one past the rows at one particular read of max(id), fits 32 bits, and legacy-after-migrate counts exactly the legacy fetches written since that read |
| Ledger.UndisturbedOpen | internal/store/store.go:1431-1514 | An undisturbed open of a ledger that lacks some or all columns adds the rest and stamps one past its rows unless it is stamped; if none was missing it changes nothing |
| Ledger.UnmarkedForGood | internal/store/store.go:1431-1460 | A ledger that has all columns but no mark and no migration adding one is never marked |
| Ledger.DyingBeforeStamp | internal/store/store.go:1440-1460 | From any old ledger, an open that adds the columns and dies before the stamp leaves such a ledger |
| Ledger.CanStillBeMarked | internal/store/store.go:1431-1514 | An unmarked ledger nobody is migrating can still be marked exactly if a column is missing and the mark fits 32 bits |
| Ledger.PendingComesFromRead | internal/store/store.go:1506-1510 | Every mark, and every value about to become one, comes from a read of max(id) |
| EventLog.SessionLog.Sweep | internal/session/retention.go:39-113 | The batched sweep terminates, leaves exactly the one-shot description, and reports the exact counts |
| EventLog.SweepOutcome | internal/session/retention.go:39-113 | An event goes exactly if its own session's retention has expired it or it starts a removed session; a session exactly if it is old and has no real event left; a session without retention loses no real event |
| EventLog.SessionLog.SweepExpired | internal/session/retention.go:44-65 | The retention loop deletes exactly the expired events in batches of 64 |
| EventLog.SessionLog.SweepEmpty | internal/session/retention.go:75-110 | The second loop deletes exactly the old empty sessions with their start events |
| EventLog.SessionLog.DeleteEmptyBatch | internal/session/retention.go:77-103 | Both statements of a batch hit the same sessions although the second selects after the first has deleted |
| EventLog.RunAddsNoOrphan | internal/session/session.go:687-713 | Over any interleaving of appends, session creation and sweep batches the set of events without a session never grows |
| EventLog.EveryEventHasItsSession | internal/session/session.go:869-899 | From an empty log every event always has its session row |
| EventLog.RealEventsProtectSessions | internal/session/retention.go:92-98 | A session with a real event at the moment of the batch is not removed |
| EventLog.StepKeepsNewest | internal/session/session.go:62-64 | A transaction keeps the newest id, and the meaning of every id up to it, exactly unless it is a batch for which the newest event is due |
| EventLog.NeverDueIff | internal/session/session.go:62-64 | Over a run the newest event is never due exactly if every single transaction keeps the newest id |
| EventLog.NewestGoesIff | internal/session/retention.go:47-103 | A batch deletes the newest event exactly if the event is past its own session's retention and at most 64 events are expired, or it starts an old session without real events and fewer than 64 such sessions come before it |
| EventLog.SweptKeepsNewestIff | internal/session/retention.go:39-113 | A whole sweep of any log keeps the newest id exactly if the newest event is neither expired nor the start of a session that the sweep removes |
| EventLog.StartupSweepKeepsNewest | cmd/context-router/main.go:226-234 | If nothing has come between Open and the sweep right after it, the newest id is kept exactly if the process has not stalled for longer than its retention or a week |
| EventLog.StalledStartReusesTheId | cmd/context-router/main.go:668-671 | A stalled start: the start event is swept and the next event takes its id |
| EventLog.OvertakingAppendGoes | internal/session/session.go:661-713 | An append of another session that has waited longer than its own retention goes, and the newest id with it, in the first sweep batch of the process that opened in the meantime, if that batch takes all expired events |
| EventLog.OvertakenOpenLosesTheId | cmd/context-router/main.go:226-234 | A run from the empty log without any stall in which the start-up sweep takes the newest event, another session's |
| EventLog.ReplacementKeepsNewest | internal/cli/cli.go:1337-1389 | What recovery or a purge of sessions leaves keeps the newest id exactly if the newest event stays; after a purge exactly if there was no event |
| EventLog.SessionLog.Append | internal/session/session.go:661-713 | Stores the event under an id above all others, or refuses exactly for a missing corrected event or else a missing session, changing nothing |
| EventLog.SessionLog.EnsureSession | internal/session/session.go:869-899 | A new session's row and its start event appear together, as they were given; an existing one stays as it is |
| ExportPaging.PagingIsLossless | internal/session/export.go:124-156 | Over any limits, budgets and growth of the log between calls, what was delivered and what the last cursor still wants are exactly what the first cursor wanted, in order, nothing twice, nothing skipped |
| ExportPaging.SweptPagingIsLossless | internal/session/export.go:124-156 | While the log grows and loses older events, everything is delivered in order and at most once, and each event still there at the end is either delivered or still wanted, never both |
| ExportPaging.PagingAcrossSweeps | internal/session/export.go:124-156 | The same for any appends, new sessions and sweep batches between the pages, as long as the newest event is never due when a batch runs |
| ExportPaging.LateEventIsMissedIff | internal/session/export.go:124-131 | The next event is missed exactly if the cursor is already at its id or past it |
| ExportPaging.ProgressIff | internal/mcp/mcp_session.go:389-407 | A call delivers something exactly if the next wanted event fits the budget |
| ExportPaging.MisfitHoldsTheCursor | internal/mcp/mcp_session.go:389-407 | An event that does not fit is not passed over |
| ExportPaging.EnoughCallsDeliverAll | internal/mcp/mcp_session.go:409-424 | If every event fits, enough calls deliver every event |
| ExportPaging.ShortPageIsLast | internal/mcp/mcp_session.go:371-379 | A page below its limit that is not marked truncated is the last one |
| ExportPaging.ReusedIdIsMissed | internal/session/session.go:62-64 | After a stalled start a reader who has seen the id never sees the event that took it |
| ExportPaging.ExportPage | internal/mcp/mcp_session.go:409-424 | The page is the longest run of wanted events that limit and budget allow, the cursor its last id |
| ExportPaging.Export | internal/session/export.go:124-156 | Exactly the session's events after the cursor, the earliest up to the limit and in order, and the id of the last one, or the cursor itself |
| ExportPaging.Clamp | internal/mcp/mcp_session.go:370-380 | 50 events if none are asked for, and never more than 200 |
| ExportPaging.Budget | internal/mcp/mcp_session.go:389-393 | The default of 8192 bytes exactly if none is asked for |
| ExportPaging.ApplyExportBudget | internal/mcp/mcp_session.go:389-407 | The longest leading run within the budget, truncated exactly if something is left out |
| Utf8.SnapUtf8 | internal/store/store.go:610-634 | For any bytes and any bounds: in bounds, and valid UTF-8 by section 4 of RFC 3629 |
| Utf8.SnappedIsMaximal | internal/store/store.go:625-633 | The snapped end stops only where no character fits before the requested end |
| Utf8.SnappedIsValid | internal/store/store.go:625-633 | What lies between the snapped ends is valid UTF-8 |
| Utf8.SnapEndIsLastBoundary | internal/store/store.go:625-633 | From a boundary of a valid text the snapped end is the last boundary not after the requested end |
| Utf8.SnapKeepsBoundary | internal/store/store.go:622-624 | A start on a boundary stays |
| Utf8.StartsAreBoundaries | internal/store/store.go:622-624 | In a valid text the bytes that may start a character are exactly the boundaries |
| Utf8.DecodeIsGrammar | internal/store/store.go:627-630 | Decoding fails exactly where the grammar of section 4 of RFC 3629 has no character, and otherwise takes its length |
| Utf8.DecodeInvertsEncode | internal/store/store.go:627-630 | A decoded rune is the scalar value whose encoding stands there |
| Utf8.CutIsLastBoundary | internal/mcp/mcp.go:512-519 | Cutting a valid text at a budget keeps everything up to the last boundary within it |
| Fetch.SessionIsLossless | internal/store/store.go:849-861 | Reading page by page from each returned byte_end, under any budgets, the pages together are exactly the blob up to the cursor, and with budgets of four bytes or more every page advances |
| Fetch.RestAfterRestIsBlob | internal/store/store.go:849-861 | A reader with any budget of four bytes or more who always asks for the rest gets the whole blob |
| Fetch.PageAdvances | internal/mcp/mcp.go:512-529 | A page moves the cursor exactly if the next character fits both the request and the budget |
| Fetch.FourBytesAlwaysAdvance | internal/mcp/mcp.go:512-529 | Four bytes of budget always suffice |
| Fetch.ThreeBytesCanStall | internal/mcp/mcp.go:512-529 | Three bytes can stall |
| Fetch.PageIsToLastBoundary | internal/store/store.go:849-861 | A page is the blob from the cursor to the last boundary within request and budget |
| Fetch.FetchPage | internal/mcp/mcp.go:538-565 | One byte-range call returns that page, with the default budget when none is asked for |
| Fetch.Budget | internal/mcp/mcp.go:554-559 | 16384 bytes if none are asked for, and never more than 65536 |
| Fetch.ReadLineRange | internal/store/store.go:836-848 | Accepts exactly ranges of existing lines, with coordinates that locate them in the blob |
| Lines.LinesPartition | internal/store/store.go:636-680 | Lines 1..countLines are nonempty, adjacent and cover the text, and each byte is on its own line |
| Lines.ReaderAgreesWithSplitter | internal/store/store.go:657-680 | The reader's byte range of existing lines is where the splitter put them |
| Lines.ApplyFetchBudget | internal/mcp/mcp.go:512-529 | The cut text is a slice within the budget, and the recomputed line_end is the line of the last byte returned |
| Lines.SplitLines | internal/ingest/ingest.go:262-282 | The lines and offsets of the text, in order, ends included |
| Lines.CountLines | internal/store/store.go:636-651 | The number of lines, without the empty one after a final newline |
| Lines.LineByteRange | internal/store/store.go:653-680 | The reader's range for any arguments, clamped as the code clamps |
| Chunking.ChunkText | internal/ingest/ingest.go:297-363 | Terminates on every text and yields chunks cut as the text alone says: whole lines, each chunk up to the first line that is a heading or takes it over 4096 bytes, overlap exactly before a line that is no heading and after a chunk of more than one line, each title that of the last heading up to the chunk's first line |
| Chunking.ChunksAreCut | internal/ingest/ingest.go:297-363 | What the plan of spans yields is cut so |
| Chunking.HeadingTextIff | internal/ingest/ingest.go:250-260 | A heading is exactly a line of one to six hashes, spaces or tabs, a text that begins with no white space, and line ends; its title is that text without the white space around it |
| Chunking.PlanCovers | internal/ingest/ingest.go:297-363 | Chunks cover the lines in order with at most one shared line between neighbours and strictly growing end |
| Chunking.SpanSize | internal/ingest/ingest.go:329-337 | A chunk is within 4096 bytes or has at most two lines, one if it does not begin with an overlap line |
| Chunking.HeadingsLead | internal/ingest/ingest.go:316-328 | A heading stands only first, or second behind an overlap line |
| Chunking.PlanIsGreedy | internal/ingest/ingest.go:312-361 | Each chunk ends at the first line where it may end, and that decides where the next begins and whether it overlaps |
| Chunking.ChunksRebuildText | internal/ingest/ingest.go:297-363 | Without the overlap lines the chunks are the text |
| Chunking.ChunkCoordinates | internal/ingest/ingest.go:345-348 | The reader's byte range of a chunk's lines is the chunk's byte range, and its lines are the lines of its first and last byte |
| Snippet.FoldIndex | internal/search/search.go:282-306 | The least rune-aligned offset where the folded token matches, or none |
| Snippet.MatchEndIff | internal/search/search.go:282-306 | An occurrence runs from one offset to another exactly if the runes between them, folded, are the token |
| Snippet.AlignedIff | internal/search/search.go:282-306 | In a valid text the offsets the search tries are the character boundaries |
| Snippet.SnippetWindow | internal/search/search.go:324-344 | A valid UTF-8 slice of a valid text: half a window of 250 bytes to each side, inward past the words it cuts, snapped to characters, and so at most 253 bytes before the match; it holds the whole first match exactly if that takes at most 250 bytes and the window is not cut at a break inside it, which for a field means exactly if it takes at most 250 bytes |
| Snippet.WindowHoldsMatch | internal/search/search.go:334-344 | The exact condition under which the snapped window holds the match |
| Snippet.CapBytes | internal/search/search.go:310-318 | A prefix within the budget, cut where a character can start, valid if the text is |
| Snippet.MatchHasNoBreak | internal/search/search.go:336-341 | A match of a field contains no space and no newline |
| PurgeLog.WrittenIsRead | internal/cli/purgelog.go:79-127 | Any sequence of records with known labels is read back whole: no line unparsed, the same values, policies sanitised |
| PurgeLog.AppendedIsRead | internal/store/purgelog.go:141-156 | On any file of ended lines, good or bad, an appended record is the next entry and nothing else changes |
| PurgeLog.LineParses | internal/cli/purgelog.go:93-117 | A written line parses to its record, cutoff zero included, which is written as a dash |
| PurgeLog.ParseLineIff | internal/cli/purgelog.go:90-117 | A line counts exactly if it has nine fields or more, time and count are numbers, both labels are known and the other four fields are numbers or dashes; its entry has the fields as they stand |
| PurgeLog.DashIsNotZero | internal/store/purgelog.go:112-127 | An unmeasured count reads as a dash and never as a number; a measured one reads as itself and never as a dash |
| PurgeLog.SanitizedIsStable | internal/store/purgelog.go:102-110 | Sanitising is idempotent, leaves no separator, keeps 1 to 64 bytes, and leaves clean fields alone |
| PurgeLog.ParseInvertsFormat | internal/store/purgelog.go:114-119 | Every 64-bit number is read back from its decimal form |
| PurgeLog.ParseIntIff | internal/cli/purgelog.go:28-35 | A field reads as a number exactly if it is a sign or none, zeros or none, and the digits of a 64-bit number |
| PurgeLog.FormatIsShortest | internal/store/purgelog.go:114-119 | The decimal form is the one shortest string that reads as the number |
| PurgeLog.SplitInvertsJoin | internal/cli/purgelog.go:90-90 | Splitting at tabs undoes joining |
| PurgeLog.ScanIs | internal/cli/purgelog.go:86-122 | The scan of any file is its lines, an unended last one included, without carriage returns at their ends, up to the first line of 1 MiB or more, which aborts it |
| PurgeLog.JoinInvertsSplit | internal/cli/purgelog.go:90-90 | and every line is the join of its fields |
| PurgeLog.NewestFirst | internal/cli/purgelog.go:123-126 | The tail shows the last n entries, newest first |
| PurgeLog.Tail | internal/cli/purgelog.go:79-127 | Entries, total, unparsed and aborted for any content |
| PurgeLog.LogFile.Append | internal/store/purgelog.go:141-156 | The file grows by the record's line, or stays as it is if it cannot be opened |
| PurgeLog.StatusIsKnown | internal/store/purgelog.go:74-89 | The label is one the reader knows: partial exactly if an error left rows deleted, else cancelled, budget or failed in that order for an error, else capped or ok |
| MergeLoop.MergesAreSpaced | cmd/context-router/main.go:525-566 | For loops whose merges succeed within the interval: all merges are at least the interval apart exactly if none starts while another is under way |
| MergeLoop.LoopsThatWakeTogetherBothMerge | cmd/context-router/main.go:525-566 | Two loops that start together and find a merge due both merge and both stamp, no time apart |
| MergeLoop.MergesAreFrequent | cmd/context-router/main.go:555-565 | While some loop is past its start delay, timers are prompt and merges succeed in time, the last merge started at most the interval ago |
| MergeLoop.ALoneLoopIsPrompt | cmd/context-router/main.go:525-566 | A lone loop that merges at once meets the conditions of both results |
| MergeLoop.StepInTurn | internal/store/store.go:970-995 | A step that overlaps no merge keeps the spacing |
| MergeLoop.DeadlineBetweenReadings | internal/store/store.go:1003-1013 | If the stamp becomes due between the two clock readings of one round, the loop sleeps a whole interval more |
| MergeLoop.PhasesChangeOnlySo | cmd/context-router/main.go:525-566 | The edges between the phases of a loop, and that each loop moves by its own steps only |
| MergeLoop.MergeStartsIff | internal/store/store.go:970-973 | A merge starts exactly if a loop whose timer is up finds no stamp, one from the future or one as old as the interval |
| MergeLoop.DelayHolds | cmd/context-router/main.go:515-517 | A session shorter than the start delay never merges |
| MergeLoop.FirstCheckMergesIff | internal/store/store.go:1003-1013 | A lone loop merges at its first check exactly if there is no stamp or it is as old as the interval by then |
| MergeLoop.StampMovesIff | internal/store/store.go:970-995 | Only a merge that succeeds moves the stamp, to the time at which its loop woke |
| MergeLoop.FailedMergeWaits | cmd/context-router/main.go:525-566 | A failed merge leaves the stamp, and its loop checks again when the stamp is due or after a whole interval |

## Left out

- Recovery.Disk.Recover: the error returns of recover (failed renames, failed
  reads) are not steps; after one the finished copy may be incomplete, as
  `Recovery.ClosingEarlyLooksFinished` shows. fsync and power loss are left out
  too.
- Recovery.Disk.RescueAll: which rows damage withholds from the copying queries is
  a parameter, the same for every run on the same original. RescuedRows.dfy ties
  it to the copying loop for events; the implicit rowids of session rows, by
  which their loop goes, are left out.
- Recovery.Disk.RecoverRepeatedly: no purge of sessions comes between the runs;
  after one that leaves neither copy nor backup, recover can only stop.
- Recovery.Disk.RestoreLatestBackup: stated for directories that satisfy the
  invariant; by `Recovery.AnyBackupCanBeRestored` that is every directory whose
  newest backup is damaged as it reads with its own log.
- Reclaim.ReclaimIsSafe: covers passes one after the other over distinct hashes,
  in which renaming a quarantined file back succeeds; overlapping passes, a crash
  inside a pass and the counts of its report are not modelled.
- ContentStore.Store.Register: one chunk's byte and line coordinates, titles,
  timestamps of creation and lengths are not columns of the model; ordinals are
  those the chunker gives.
- Ledger.LegacyAfterMigrateIsExact: the lock that serialises opens is taken as
  exact; age percentiles and distinct artifact counts are left out.
- EventLog.SessionLog.Append: payloads, references, redaction and size limits of
  events are left out.
- PurgeLog.WrittenIsRead: every append writes its whole line; torn writes are left
  out, as is assembling the policy text.
- Chunking.ChunkText: TrimSpace trims ASCII space only, and the guard against an
  empty chunk, which the loop cannot reach, is left out.
- Snippet.FoldIndex: case folding of single runes is a parameter.
- MergeLoop.MergesAreFrequent: a stamp that cannot be read or written, a clock
  that goes back, and failing merges are left out of the bound.
- SQLite itself: busy retries, pragmas, tokenizers, ranking, VACUUM, checkpoints
  and the strict health check are taken as given.
- `GCOrphanBlobs`: has a gap between stat and remove and no concurrent guarantee.
- Locks and processes of the operating system, sandboxing, network fetching,
  redaction patterns, command line and protocol plumbing.
- Ranking, usage sums, header scanning and event classification: simple folds or
  floating point.
