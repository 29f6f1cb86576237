# Verified model of the deployment tool and its neighbours

This Dafny project models the parts of the repository in which several things must change together,
or in which one function has to undo another, and proves what they keep.

**Crash-safe deployment (`mgsctl`).** Four commands change several files, directories or records that
share no transaction, and must survive being killed, or having any operation fail, between any two
changes.

- `NativeReleaseFiles`, `NativeReleaseProtocol`, `NativeRelease`: the publisher of native releases, which
  swaps `bin`, `web` and `api` through backup renames under a journal, with a checksum marker as commit
  point.
- `ReconfigureProtocol`, `Reconfigure`: the change of the public URL over database binding, `runtime.env`,
  commit proof and `deployment.json`, with a journal, a stop intent and services that stop and start.
- `ManagedNginx`: the refresh of the gateway asset and of the manifest that records its hash.
- `FreshInstall`, `PendingOverwrite`: ordered publication with `runtime.env` as the commit point, recovery
  of what was left, and a multi-file replacement that puts back what it replaced.

Each protocol has a store of values, a relation of permitted steps and an invariant; lemmas about all
sequences of steps give safety over whole runs. The commands are methods over a `CrashDisk.Disk`, which
holds such a store and a script of faults: each attempt works, fails without effect, fails although it
took effect, or finds the process killed before it. A dead process changes nothing more, so a method that
returns under an arbitrary script has stopped at an arbitrary point. A method can attempt only permitted
steps, and its trace records every store. Contracts that depend on how often something failed speak of
`Failures` and `Landings`, the failing entries of the script and those of them that take effect. The
methods named `...AfterAnyRuns` compose runs with arbitrary scripts and a last one that nothing interrupts.

**Data.**

- `Quoting`, `RuntimeValue`, `RuntimeParse`, `RuntimeRender`, `RuntimeRoundTrip`: printer and parser of
  `runtime.env`, on bytes, with the quoting of `strconv`.
- `JsonPointer`, `ReadPage`, `SnapshotClient`, `Utf8`, `Sorting`: pages of stored results, and what a client
  obtains by following them.
- `SnapshotCache`, `SnapshotOwner`: the cache with quotas and the key that says whom a snapshot belongs to.
- `RoundRobin`: the turn-taking of the cleanup role.
- `Routes`: the decision whether the published API has a method and path.
- `Bytes`, `Strings`, `Decimal`, `Json`, `Wrappers`: what they share.

## Where the code does not do what one would expect

Each of these is stated with its exact condition, and where it helps with an input.

- A native archive with a regular file named exactly `bin`, `web` or `api` passes every check that precedes
  the journal, and no run installs it (`NativeRelease.Install`, `NativeRelease.BareTopOnEmptyMachine`).
- The reconfigure command refuses its own journal, and so cannot recover by being rerun, unless the old
  `runtime.env` listed every schema key at the current schema version and wrote its revision canonically
  (`Reconfigure.OwnJournalAccepted`, `Reconfigure.IncompleteRuntimeStrandsJournal`). The forward path accepts
  a revision such as `01` all the same (`Reconfigure.LeadingZeroStrandsJournal`).
- That validation compares settings by what a missing key reads as, the empty string. A journal it accepts
  changes URL and revision alone if no old setting is empty; an empty one may be exchanged for another
  setting unnoticed (`Reconfigure.AcceptedJournalIsSound`, `Reconfigure.EmptySettingDeceives`).
- The in-process rollback of a fresh installation goes on past a removal that fails. If an asset stays and
  the manifest goes, recovery finds nothing to do and the asset is never removed. Kills cannot cause this,
  nor can a single failure that has no effect (`FreshInstall.ExecuteInstall`,
  `FreshInstall.RollbackRecoverable`, `FreshInstall.FailedRemovalStrandsAsset`).
- Overwriting a pending installation does not put back the file whose write failed, so it is all or
  nothing only if that write left its file alone (`PendingOverwrite.ReplacePendingInstallArtifacts`).
- The parser's scanner refuses lines of a mebibyte, the printer writes them
  (`RuntimeRoundTrip.PrintThenParse`, `RuntimeRoundTrip.MebibyteIsLost`).
- `equalStringMaps` reads a missing key as the empty string, which is harmless only because digests are
  never empty (`NativeReleaseFiles.DecidesUnlessEmpty`).
- Pages do not say whether their entries belong to an array or to an object, and up to ten members the
  entries do not either; only a reference to the value does (`SnapshotClient.PagesHideTheKind`).

## Assumptions

- Replacing a file, renaming or removing a directory tree is atomic; nothing outside the tool changes its
  files or starts its services while it runs.
- Hashes are equal only for equal contents: a digest is a datatype over what was hashed, or, for a native
  release, all that is known of a file.
- Reading can fail but never returns anything but the content.
- `loadInstallation` succeeds on the intermediate stores, the tool keeps its version between runs, and
  refreshing assets on a retry rewrites nothing.
- For reconfigure, the old `runtime.env` is complete in the sense of `Reconfigure.Complete`; otherwise the
  lemma named above says what happens.
- A snapshot token that is drawn is not in the cache already, and the clock of the cache does not go back.
- Schema texts have no line breaks. Which characters beyond ASCII count as printable, and whether an encoded
  answer is within the response budget, are parameters that may be anything.

## Model

| member | source | states |
|---|---|---|
| `NativeRelease.InstallAfterAnyRuns` | internal/mgsctl/native_release.go:144-330 | after any number of runs of one archive, each killed or failing at any step (recovery included), one uninterrupted run ends with the marker, the manifest and all three directories naming the new release and no journal, backup or stage left; no release was lost in any store on the way |
| `NativeRelease.Install` | internal/mgsctl/native_release.go:181-330 | from every store the protocol can reach; success means the complete new release and, unless the marker named it already, an archive with every required file; with the marker the installed tree has them. An uninterrupted run over its own leftovers succeeds, without the marker, if and only if the archive has what is required and no file named exactly `bin`, `web` or `api`; with such a file no run, however it goes, succeeds or touches the marker |
| `NativeRelease.InstallMarked` | internal/mgsctl/native_release.go:196-222 | with the marker of this archive an uninterrupted run succeeds if and only if what is left over is its own and the tree has the required files; only backups and journal change |
| `NativeRelease.InstallUpdate` | internal/mgsctl/native_release.go:223-330 | without it: success means the complete release with the required files after a run in which nothing failed |
| `NativeRelease.BareTopIsAccepted` | internal/mgsctl/native_release.go:292-297 | an archive with the program every plan requires and a regular file `web` is valid, holds what is required, and is one of those no run can install |
| `NativeRelease.BareTopIsNeverInstalled` | internal/mgsctl/native_release.go:292-297 | any number of runs of such an archive, killed, failing or not: none succeeds and the marker stays |
| `NativeRelease.BareTopOnEmptyMachine` | internal/mgsctl/native_release.go:292-297 | that archive on an empty machine: no series of runs installs it |
| `NativeRelease.FinishInstalled` | internal/mgsctl/native_release.go:196-222 | with a marker that names this archive, an uninterrupted run succeeds exactly if required files, manifest, tree, journal and backups all verify; if one does not, the store stays as it was, and otherwise only backups and journal go |
| `NativeRelease.MarkedIsVerified` | internal/mgsctl/native_release.go:196-222 | in every reachable store with the marker of this archive, its own leftovers do verify |
| `NativeRelease.EstablishPrevious` | internal/mgsctl/native_release.go:223-263 | on every store without the marker of this archive: a previous release is established exactly if the journal names this archive and all three directories are recognised, or the marked tree matches its manifest, or the place is empty; the store otherwise stays as it was |
| `NativeRelease.ReachableIsUpdatable` | internal/mgsctl/native_release.go:223-263 | in every reachable store whose leftovers are those of this archive it is established |
| `NativeRelease.CheckInstalled` | internal/mgsctl/native_release.go:245-252 | accepts exactly a marked tree that matches its manifest, and changes nothing |
| `NativeRelease.StageAndRecord` | internal/mgsctl/native_release.go:264-291 | the journal on disk afterwards names the archive, its staged hashes and the previous release, or is the one that was there; success means that the required files are among those extracted |
| `NativeRelease.Update` | internal/mgsctl/native_release.go:264-330 | from a restored store to the complete release, whatever the previous one was; success means that the required files are in the archive and nothing failed, and an uninterrupted run ends well exactly if they are and the archive is publishable |
| `NativeRelease.BackUpDirectory` | internal/mgsctl/native_release.go:299-309 | the previous directory is moved, not lost: afterwards it is the backup, and no other directory has changed |
| `NativeRelease.PublishDirectory` | internal/mgsctl/native_release.go:310-314 | the staged directory takes its place; backups and other directories are untouched |
| `NativeRelease.ExchangeDirectory` | internal/mgsctl/native_release.go:292-315 | one directory is wholly exchanged, and without interruption this fails exactly if the staged entry is a regular file |
| `NativeRelease.ExchangeDirectories` | internal/mgsctl/native_release.go:292-315 | all three are exchanged, or the store is left where recovery recognises it |
| `NativeRelease.Commit` | internal/mgsctl/native_release.go:316-329 | manifest, then marker, then backups and journal; success leaves the complete release, failure only a prefix of these changes |
| `NativeRelease.RemoveBackups` | internal/mgsctl/native_release.go:601-622 | without interruption all backups go exactly if every one of them is a directory of the previous release; if one is not, none is touched |
| `NativeRelease.VerifyBackups` | internal/mgsctl/native_release.go:602-615 | the first loop accepts exactly the backups that match and changes nothing |
| `NativeRelease.RecoverPendingNativeRelease` | internal/mgsctl/native_release.go:477-571 | on any store at all: the previous release comes back if and only if each directory is in a recognised state; otherwise the store stays exactly as found |
| `NativeRelease.RecoverUpdate` | internal/mgsctl/native_release.go:506-570 | the recovery of an update: the same equivalence, and once all three are classified the final validation of the tree cannot fail |
| `NativeRelease.RecoverFirstInstall` | internal/mgsctl/native_release.go:478-504 | the recovery of a first installation: everything verified is removed, or nothing is touched |
| `NativeRelease.ClassifyAll` | internal/mgsctl/native_release.go:515-553 | classification precedes change: it accepts exactly the stores in which all three are recognised, and changes nothing |
| `NativeRelease.Classify` | internal/mgsctl/native_release.go:516-552 | the tests of the loop body accept exactly: waiting, backed up, or swapped |
| `NativeRelease.RestoreDirectory` | internal/mgsctl/native_release.go:554-566 | one directory goes back to the previous release and the others stay |
| `NativeRelease.ValidateTree` | internal/mgsctl/native_release.go:448-464 | accepts exactly the directories of the release: present with equal files where it has files, absent where it has none |
| `NativeRelease.DirectoryMatches` | internal/mgsctl/native_release.go:433-446 | whether the directory exists, and whether its files are the expected ones; an empty expectation never matches |
| `NativeRelease.TreeHoldsRequired` | internal/mgsctl/native_release.go:196-199 | an installed tree holds every file that the plan requires of it |
| `NativeReleaseFiles.EqualStringMapsDecides` | internal/mgsctl/native_release.go:683-693 | the comparison of lengths and left entries decides equality of maps as long as no digest is empty |
| `NativeReleaseFiles.DecidesUnlessEmpty` | internal/mgsctl/native_release.go:683-693 | the comparison decides equality with every map if and only if the left map has no empty value |
| `NativeReleaseFiles.EmptyDigestDeceives` | internal/mgsctl/native_release.go:683-693 | with an empty digest it calls different maps equal |
| `NativeReleaseFiles.WholeIsThreeParts` | internal/mgsctl/native_release.go:422-464 | comparing whole releases is comparing their three directories, both ways, if no file is itself named like a directory |
| `NativeReleaseFiles.BareTopIsInvisible` | internal/mgsctl/native_release.go:422-431 | such a file shows in none of the three parts |
| `NativeReleaseFiles.PathHasTop` | internal/mgsctl/native_release.go:422-431 | every other admitted path lies below one of the three |
| `NativeReleaseProtocol.StepKeepsInv` | internal/mgsctl/native_release.go:292-329 | each rename, removal or file write keeps the invariant: before the marker every directory waits, is backed up or is swapped; after it the new tree is whole |
| `NativeReleaseProtocol.RunKeepsInv` | internal/mgsctl/native_release.go:144-330 | so does every run of such steps |
| `NativeReleaseProtocol.InvLosesNothing` | internal/mgsctl/native_release.go:292-322 | the invariant means that some release is wholly on disk |
| `NativeReleaseProtocol.EveryReachableStoreLosesNothing` | internal/mgsctl/native_release.go:292-322 | in every reachable store before the marker each previous directory lies intact in its place or its backup; after it the marked release is in place |
| `Reconfigure.RecoverAfterAnyRuns` | internal/mgsctl/reconfigure.go:59-409 | after any number of invocations with any URLs, each killed or failing anywhere, one uninterrupted invocation leaves agreeing records, running services, no journal and no stop intent; every store on the way was safe, and the final revision is the first one plus the number of committed journals |
| `Reconfigure.Reconfigure` | internal/mgsctl/reconfigure.go:178-408 | an uninterrupted run always settles: over a journal it ends all new if everything was published and all old otherwise; without one it reports the same revision for the same URL, the next one for another, and fails at the largest revision. Without a journal success means that nothing failed, and after one failure anywhere the old deployment runs again, up to refreshed assets, or the new revision runs |
| `Reconfigure.ReconfigureWithoutJournal` | internal/mgsctl/reconfigure.go:231-408 | the same for a run that finds no journal; a requested refresh has taken place on success |
| `Reconfigure.RestartOrChange` | internal/mgsctl/reconfigure.go:264-408 | the URL decides between restart and change; a reported restart did stop the services |
| `Reconfigure.RecoverIfStopped` | internal/mgsctl/reconfigure.go:247-263 | afterwards the store is settled; a settled one stays exactly as it was |
| `Reconfigure.CheckCompleted` | internal/mgsctl/reconfigure.go:231-246 | agreeing records pass the checks of a completed installation |
| `Reconfigure.CompletedAgrees` | internal/mgsctl/reconfigure.go:240-243 | with a canonical revision and the manifest of this installation and URL, the checks pass exactly for agreeing records; no other canonical revision passes |
| `Reconfigure.Retry` | internal/mgsctl/reconfigure.go:178-230 | a journal found on disk is completed if all four records are new and taken back otherwise; so does every run in which nothing fails |
| `Reconfigure.FinishCommitted` | internal/mgsctl/reconfigure.go:200-215 | a committed journal changes no record any more; stop intent and journal go |
| `Reconfigure.ResumePublished` | internal/mgsctl/reconfigure.go:190-199 | a wholly published change is rolled out and marked committed, records untouched |
| `Reconfigure.TakeBack` | internal/mgsctl/reconfigure.go:216-227 | any other change is stopped and undone to exactly the old records |
| `Reconfigure.Rollback` | internal/mgsctl/reconfigure.go:118-174 | whatever had been published or restored before, success leaves the old records, running services, no stop intent and no journal |
| `Reconfigure.RestoreBinding` | internal/mgsctl/reconfigure.go:131-144 | the binding alone is swapped back, whether or not it had been swapped forth; the other records stay in any case |
| `Reconfigure.RestoreProof` | internal/mgsctl/reconfigure.go:145-155 | the proof alone is swapped back, after the binding |
| `Reconfigure.RestoreFiles` | internal/mgsctl/reconfigure.go:156-161 | both files get their old content, whatever they held; then all four records are old |
| `Reconfigure.RestoreRecords` | internal/mgsctl/reconfigure.go:131-161 | binding, proof and files: success makes all four records old, failure leaves a store that a later rollback accepts |
| `Reconfigure.CompareSwapCompletedCommit` | internal/setup/reconfigure.go:11-37 | for an admissible transition the swap succeeds exactly if the stored proof is the expected one; it changes no other record, and a failed write leaves the old proof or the new one |
| `Reconfigure.CompareSwapConfiguration` | internal/setup/reconfigure.go:39-49 | the same for the database binding, by one revision up or down; operation and administrator stay |
| `Reconfigure.RecoverStop` | internal/mgsctl/reconfigure.go:247-263 | a stop intent left behind restarts the deployment first and changes nothing but asset hashes, which are the refreshed ones on success |
| `Reconfigure.RestartCanonical` | internal/mgsctl/reconfigure.go:264-288 | for an unchanged URL the records stay up to asset hashes; success means that the services were stopped, run again, and that a requested refresh took place |
| `Reconfigure.StopAndRefresh` | internal/mgsctl/reconfigure.go:271-275 | records stay up to asset hashes, which are the refreshed ones on success, and the stop intent stays until the services run again |
| `Reconfigure.StopForChange` | internal/mgsctl/reconfigure.go:292-316 | success: services stopped under a stop intent, assets refreshed; a single failure: the old deployment runs again, and unless that failure took effect nothing is left over |
| `Reconfigure.RecordChange` | internal/mgsctl/reconfigure.go:317-371 | the journal holds the records as they are and announces the next revision and the URL; no record changes, a runtime that changed meanwhile is refused, and after a refusal or a single failure the old deployment runs again |
| `Reconfigure.Publish` | internal/mgsctl/reconfigure.go:378-389 | the four records in order; failure leaves a store that rollback accepts |
| `Reconfigure.PublishChange` | internal/mgsctl/reconfigure.go:378-408 | it reports success exactly if nothing fails, and then with all four records new, nothing left over and the services running; after one failure the change is entirely taken back or entirely in place with the services running |
| `Reconfigure.Fail` | internal/mgsctl/reconfigure.go:372-383 | a failed change is rolled back at once: it says restored exactly if nothing fails on the way, and then records, services, stop intent and journal are as before the change |
| `Reconfigure.CommitChange` | internal/mgsctl/reconfigure.go:397-408 | after the commit marker the new records stay, whatever of the cleaning up fails |
| `Reconfigure.ChangeUrl` | internal/mgsctl/reconfigure.go:289-408 | success exactly if nothing fails, with the next revision and the URL, or a refusal at the largest revision that touches nothing; after one failure the old deployment or the new one runs |
| `Reconfigure.OwnJournalAccepted` | internal/mgsctl/reconfigure.go:411-454 | the tool accepts its own journal if and only if the old runtime lists every schema key at the current version and writes its revision canonically |
| `Reconfigure.IncompleteRuntimeStrandsJournal` | internal/mgsctl/reconfigure.go:435-437 | a runtime that lacks one schema key: the journal written for it is refused |
| `Reconfigure.LeadingZeroStrandsJournal` | internal/mgsctl/reconfigure.go:424-430 | a revision written with a leading zero passes the checks of the forward path, and the journal written for it is refused |
| `Reconfigure.AcceptedJournalIsSound` | internal/mgsctl/reconfigure.go:411-454 | whatever journal is accepted changes URL and revision alone if and only if its settings are the same, and they are if no old setting is empty |
| `Reconfigure.EmptySettingDeceives` | internal/mgsctl/reconfigure.go:435-453 | the exception is real: beside an accepted journal that keeps an empty setting there is an accepted one that puts another setting in its place |
| `ReconfigureProtocol.StepKeepsInv` | internal/mgsctl/reconfigure.go:118-408 | every single step keeps the invariant of records, journal, stop intent and services |
| `ReconfigureProtocol.RunKeepsInv` | internal/mgsctl/reconfigure.go:118-408 | so does every run |
| `ReconfigureProtocol.EveryReachableStoreIsSafe` | internal/mgsctl/reconfigure.go:156-173 | in every reachable store records disagree only under a journal, services run only while all four agree, and stopped services have a stop intent or a journal |
| `ReconfigureProtocol.OutcomeNeverReverses` | internal/mgsctl/reconfigure.go:183-215 | under one journal: once committed always committed with the new records; once a rollback has restored the binding the revision is never published again |
| `ReconfigureProtocol.RestoredBindingStaysOld` | internal/mgsctl/reconfigure.go:131-155 | on the run itself: under one journal, once the binding has gone from new back to old, it stays old and the journal is never committed |
| `ReconfigureProtocol.OldAgainIsWithdrawn` | internal/mgsctl/reconfigure.go:138-144 | the history variable means what it says: a binding that is old after having been new has been withdrawn |
| `ReconfigureProtocol.StepSettles` | internal/mgsctl/reconfigure.go:131-155 | a step changes the settled revision only by committing a journal, and then by one |
| `ReconfigureProtocol.RevisionCountsCommits` | internal/mgsctl/reconfigure.go:397-408 | over whole runs the settled revision is the first one plus the number of commits |
| `ReconfigureProtocol.JournalEndsOldOrNext` | internal/mgsctl/reconfigure.go:397-408 | a store that a journal leaves has its old records or, if committed, its new ones: the same revision or the next, with the services running |
| `ReconfigureProtocol.StepKeepsSettings` | internal/mgsctl/reconfigure.go:343-356 | no step touches a setting other than URL and revision |
| `ReconfigureProtocol.RunKeepsSettings` | internal/mgsctl/reconfigure.go:343-356 | so no run does |
| `ManagedNginx.RefreshAfterAnyRuns` | internal/mgsctl/managed_nginx.go:134-257 | after any runs killed or failing anywhere, two uninterrupted ones leave the candidate, owned by the manifest and, unless the candidate is itself one of the older official assets, with its own hash recorded; in every store without a journal asset and manifest were a pair, and in every other each was the old or the new one of the pending change |
| `ManagedNginx.OwnHashIsOwned` | internal/mgsctl/managed_nginx.go:34-48 | an asset that is not official is owned exactly if the manifest records its hash, an official one exactly if it records that of any official one |
| `ManagedNginx.RefreshManagedNginxLocked` | internal/mgsctl/managed_nginx.go:171-257 | one uninterrupted run ends with both old (from the rollback phase) or both new (from any other), and no journal; without one it changes nothing if the asset is the candidate already and records the hash of the candidate otherwise. Any outcome but failure means that no operation failed; a refresh that published has validated the asset, and the gateway runs it if it is to be applied |
| `ManagedNginx.ExecuteNginxJournal` | internal/mgsctl/managed_nginx.go:279-361 | success forward means both new, validated and, if requested, running; restored means both old and running if requested; which of them is decided by the phase alone, and neither is reported if anything failed |
| `ManagedNginx.PublishCandidate` | internal/mgsctl/managed_nginx.go:329-340 | success writes and validates the asset and nothing else, with no failure; a single failure leaves everything as it was or both files old without a journal |
| `ManagedNginx.PublishManifest` | internal/mgsctl/managed_nginx.go:341-360 | success: both new, journal gone, gateway running the candidate if requested, no failure; after a single failure the store is as it was, or both are old without a journal, or both are new |
| `ManagedNginx.Restore` | internal/mgsctl/managed_nginx.go:288-306 | both files are old before the journal goes, and the gateway runs the old one if it was to be applied |
| `ManagedNginx.Rollback` | internal/mgsctl/managed_nginx.go:309-316 | without a further failure a living process ends with both files old and no journal |
| `ManagedNginx.StepKeepsInv` | internal/mgsctl/managed_nginx.go:279-361 | every step keeps the pair: without journal they match, with one each file is the old or the new one |
| `ManagedNginx.RunKeepsInv` | internal/mgsctl/managed_nginx.go:279-361 | so does every run |
| `ManagedNginx.PhaseIsFinal` | internal/mgsctl/managed_nginx.go:280-287 | under one journal the phase leaves prepared at most once |
| `ManagedNginx.RollbackNeverWritesCandidate` | internal/mgsctl/managed_nginx.go:307-312 | from the rollback phase on no run writes the candidate: an old file stays old |
| `ManagedNginx.JournalEndsWithPair` | internal/mgsctl/managed_nginx.go:305-360 | when the journal goes both files are old after a rollback and new after a completion, never from the prepared phase; completed means that just this asset was validated |
| `FreshInstall.InstallAfterAnyRuns` | internal/mgsctl/install.go:209-225 | after any runs killed at any point and failing at most once each without effect, one uninterrupted run ends with a whole installation; in general it does exactly if no run reports a rollback that strands a file, and the run has been through the stores so reported |
| `FreshInstall.ExecuteInstall` | internal/mgsctl/install.go:130-225 | wherever the process is killed, and also if one operation fails without effect and is taken back: with `runtime.env` everything is whole, without it the next recovery leaves nothing; and if the process lives on after that failure, nothing is left at once. Success means that nothing failed. In general this holds if and only if the removals that took effect in the reported rollback, which the final store matches, do not strand a file; that takes two failures or one that took effect |
| `FreshInstall.RecoverIncompleteInstall` | internal/mgsctl/install_files.go:119-205 | without interruption it leaves nothing behind if and only if what it finds is recoverable; it touches nothing beside a `runtime.env`, and a crash inside it keeps what is left recoverable |
| `FreshInstall.FindPublished` | internal/mgsctl/install_files.go:170-198 | the assets to remove are those present, and one with another hash stops the recovery |
| `FreshInstall.WriteNoReplace` | internal/mgsctl/install_files.go:57-117 | a file that exists is never replaced; success means that it is there, failure that it is there exactly if `leftover` says so, which in a process that goes on takes two failures or one that took effect |
| `FreshInstall.RollbackInstallArtifacts` | internal/mgsctl/install.go:321-329 | exactly the removals that took effect are missing afterwards; at most as many did not as there were failures, it reports a failure exactly if one happened in a living process, and without one a crash keeps a prefix of the removals |
| `FreshInstall.RollbackRecoverable` | internal/mgsctl/install.go:212-221 | what a rollback leaves is recoverable if and only if every asset removal worked or the manifest removal did not |
| `FreshInstall.StrayAssetRecoverable` | internal/mgsctl/install.go:216-221 | with a failed asset write that left its file behind: if and only if the manifest removal did not work |
| `FreshInstall.StrayRuntimeFull` | internal/mgsctl/install.go:223-225 | with a failed write that left `runtime.env` behind: whole if and only if no removal worked |
| `FreshInstall.StrandedDecides` | internal/mgsctl/install.go:209-225 | the outcomes of the removals decide, in all three cases, whether the store they leave is still whole or recoverable |
| `FreshInstall.FailedRemovalStrandsAsset` | internal/mgsctl/install.go:321-329 | one failing removal followed by two that work leaves an asset that recovery never removes |
| `FreshInstall.Undo` | internal/mgsctl/install.go:218-225 | the store is what the reported removals leave of the failed publication; in a living process without a further failure all of them took effect and nothing is left; something is stranded only in a living process, and only after a write that stayed or a removal that failed |
| `FreshInstall.AllRemoved` | internal/mgsctl/install.go:321-329 | all removals together leave nothing of a publication that failed at any point |
| `FreshInstall.PublishAsset` | internal/mgsctl/install.go:216-222 | asset number i is added to those before it; or the store is what the reported rollback leaves: nothing after a single failure without effect, stranded exactly if its outcomes say so and never by a kill or a single failure |
| `FreshInstall.PublishAssets` | internal/mgsctl/install.go:216-222 | all assets of the plan in order, or the reported rollback of those before the first failure |
| `FreshInstall.PublishRuntime` | internal/mgsctl/install.go:223-225 | the commit point: afterwards state, manifest and every asset are there with the recorded hashes; or everything is taken back as reported, without remainder after a single failure without effect |
| `FreshInstall.PublishPlan` | internal/mgsctl/install.go:215-225 | assets and commit point together: installed, exactly if nothing fails, or nothing left after a single failure without effect, or whole or recoverable exactly if the reported rollback strands nothing |
| `FreshInstall.KilledIsGentle` | internal/mgsctl/install.go:209-225 | a process that is merely killed falls under the guarantee |
| `FreshInstall.PublishRecords` | internal/mgsctl/install.go:209-214 | state and manifest; whatever fails here, the rest is recoverable, and after a single failure without effect there is none |
| `PendingOverwrite.ReplacePendingInstallArtifacts` | internal/mgsctl/install.go:276-293 | if no failed write takes effect and restoring works, every path has its prior content or absence. In general that is so if and only if the failed write left its own file as it was or wrote a path replaced before, where the store right after that write is given; no other path differs in any case, and restoring fails only if the process dies or a second operation fails |
| `PendingOverwrite.TakeBack` | internal/mgsctl/install.go:286-289 | restoring after a failed write: the same equivalence, from the store right after it; if restoring fails as well, all paths but that of the write and as many as there were failures are as before |
| `PendingOverwrite.AllButLost` | internal/mgsctl/install.go:295-311 | the paths that were not lost cancel the replacement |
| `PendingOverwrite.RestorePendingInstallArtifacts` | internal/mgsctl/install.go:295-311 | success means that every published path has its backup again, paths written twice included; it goes on past a failed restore, so that at most as many paths are lost as restores failed; no other path changes |
| `PendingOverwrite.BackUp` | internal/mgsctl/install.go:276-283 | the backup of a path is its content or its absence |
| `PendingOverwrite.RestoredIsOld` | internal/mgsctl/install.go:284-311 | restoring the replaced prefix cancels it, up to the file of the failed write |
| `PendingOverwrite.ReplacedElsewhere` | internal/mgsctl/install.go:284-291 | paths that are not replaced keep their content |
| `RuntimeRoundTrip.PrintThenParse` | internal/config/runtime_env.go:33-138 | printing succeeds exactly on renderable input; parsing what was printed succeeds exactly if every line is shorter than a mebibyte, and returns the intended document |
| `RuntimeRoundTrip.ParseOfRender` | internal/config/runtime_env.go:33-138 | the same for the specifications of both: the entries come back in order with their values |
| `RuntimeRoundTrip.IntendedValues` | internal/config/runtime_env.go:102-109 | the intended document has exactly the keys of schema, values and extensions; a schema field has the printed schema version, the supplied value, or else its default, which its rule admits unless empty; other keys have the supplied value or that of an extension |
| `RuntimeRoundTrip.IntendedExtensions` | internal/config/runtime_env.go:122-135 | its extensions are the collected ones in the same order |
| `RuntimeRoundTrip.RenderIsFixpoint` | internal/config/runtime_env.go:77-138 | printing the parsed document gives the same bytes again |
| `RuntimeRoundTrip.RewriteKeepsExtensions` | internal/config/runtime_env.go:77-138 | any file that parses can be printed again unless a schema field is refused, with its extensions, their values and their order |
| `RuntimeRoundTrip.RewriteKeepsValues` | internal/config/runtime_env.go:77-138 | nothing the file said is lost by that except an older schema version |
| `RuntimeRoundTrip.LongValueIsLost` | internal/config/runtime_env.go:37 | an extension of a mebibyte or more is printed and can never be parsed |
| `RuntimeRoundTrip.MebibyteIsLost` | internal/config/runtime_env.go:37 | one such input |
| `RuntimeRoundTrip.KeyLineReads` | internal/config/runtime_env.go:119 | the line printed for a key and a value reads as exactly that entry, with no line break in it |
| `RuntimeRoundTrip.CollectedKeys` | internal/config/runtime_env.go:313-351 | collected extensions are unknown to the schema, each there once, all there are, and a supplied value replaces the one they bring |
| `RuntimeRender.RenderRuntimeEnv` | internal/config/runtime_env.go:77-138 | succeeds exactly if schema, keys and values are admissible, and prints header, fields by group, and extensions |
| `RuntimeRender.FieldValue` | internal/config/runtime_env.go:102-109 | the value a field is printed with: the version, the supplied value, or the default |
| `RuntimeRender.CollectRuntimeExtensions` | internal/config/runtime_env.go:313-351 | succeeds exactly if all keys are well-formed and no unknown extension comes twice; order of the list, then extra keys sorted, independently of map order |
| `RuntimeParse.ParseRuntimeEnv` | internal/config/runtime_env.go:33-75 | succeeds exactly if every line fits the scanner and is well-formed and no key comes twice; entries, values and extensions are those of the lines in order |
| `RuntimeParse.ParseLine` | internal/config/runtime_env.go:45-63 | one line as the loop body reads it: skipped, an entry, or malformed |
| `RuntimeParse.AddLine` | internal/config/runtime_env.go:42-70 | one turn of the loop: the document of one line more, or an error only if the lines are not well-formed |
| `RuntimeParse.LinesOfFlatten` | internal/config/runtime_env.go:36-41 | scanning lines undoes writing them |
| `RuntimeParse.MarkAndReturnsDoNotMatter` | internal/config/runtime_env.go:36-47 | a byte order mark in front and carriage returns at the ends of lines make no difference to any content |
| `RuntimeParse.LastLineCounts` | internal/config/runtime_env.go:36-41 | a last line without line break is a line like any other |
| `RuntimeParse.PairWithSpaces` | internal/config/runtime_env.go:51-63 | white space around a key is ignored, and the value is what follows the first equals sign |
| `RuntimeParse.ValuesAreEntries` | internal/config/runtime_env.go:64-69 | the map of values is the list of entries |
| `RuntimeValue.ParseOfEncode` | internal/config/runtime_env.go:214-311 | encoding succeeds exactly without NUL, CR and LF; then parsing gives the value back and the text is one line |
| `RuntimeValue.ParseValue` | internal/config/runtime_env.go:214-254 | the parser with the loop that searches the closing quote computes the specified value or error |
| `RuntimeValue.SingleQuoted` | internal/config/runtime_env.go:220-229 | what stands between apostrophes is the value, literally; only a comment may follow |
| `RuntimeValue.DoubleQuoted` | internal/config/runtime_env.go:230-242 | any quoted text, indented or not, reads as what was quoted; only a comment may follow |
| `RuntimeValue.Unquoted` | internal/config/runtime_env.go:243-245 | any other text is the value without the white space around it |
| `RuntimeValue.AfterTheQuote` | internal/config/runtime_env.go:248-254 | what may follow a quoted value is white space and then nothing or a number sign |
| `RuntimeValue.SpaceIsIsSpace` | internal/config/runtime_env.go:244 | white space found in bytes, from either end, is white space of characters |
| `Quoting.UnquoteOfQuote` | internal/config/runtime_env.go:238-281 | unquoting undoes quoting for every byte string, UTF-8 or not, whatever counts as printable |
| `Quoting.QuoteEndsAtLast` | internal/config/runtime_env.go:256-269 | the search for the closing quote stops at the last byte of a quoted text |
| `Quoting.FindDoubleQuoteEnd` | internal/config/runtime_env.go:256-269 | the loop finds the first quote that no backslash escapes, or none |
| `Quoting.EncodeOfCodePoint` | internal/config/runtime_env.go:281 | encoding the code point of a well-formed character gives its bytes |
| `Quoting.CodePointOfEncode` | internal/config/runtime_env.go:281 | every rune is encoded as one well-formed character with that code point |
| `Quoting.OctalEscape` | internal/config/runtime_env.go:238 | an escape of three octal digits stands for that byte |
| `Quoting.HexEscape` | internal/config/runtime_env.go:238 | so does one of two hexadecimal digits, in either case |
| `JsonPointer.ChildPathNamesChild` | internal/mcpserver/read.go:15-17 | if a path resolves to a value, the child path of any key resolves to the child of that value under that key (sections 3 and 4 of RFC 6901) |
| `JsonPointer.ChildPathNamesMember` | internal/mcpserver/cache.go:124-145 | for objects the key, for arrays the printed index names the member |
| `JsonPointer.ChildrenAreMembers` | internal/mcpserver/cache.go:124-145 | a key has a child exactly if it is a member of the object, or the printed index of an item of the array, and the child is that member |
| `JsonPointer.ArrayIndexIsPrinted` | internal/mcpserver/cache.go:132-144 | an array index is accepted exactly if it is printed canonically |
| `JsonPointer.ResolvedPathIsChildPath` | internal/mcpserver/cache.go:106-150 | conversely every path that resolves is the root or the child path of one that resolves to the parent |
| `JsonPointer.ChildPathsDiffer` | internal/mcpserver/read.go:15-17 | different keys have different child paths |
| `JsonPointer.UnescapeOfEscape` | internal/mcpserver/read.go:16 | unescaping undoes escaping for every key, and an escaped key is one valid token |
| `JsonPointer.EscapeOfUnescape` | internal/mcpserver/cache.go:123 | escaping undoes unescaping for every valid token |
| `JsonPointer.JsonPointer` | internal/mcpserver/cache.go:106-150 | the walk with a current value computes the recursive resolution, errors included |
| `JsonPointer.CheckEscapes` | internal/mcpserver/cache.go:115-122 | accepts exactly the tokens in which 0 or 1 follows every tilde |
| `Decimal.AtoiOfItoa` | internal/mcpserver/cache.go:140 | reading a printed index gives it back |
| `Decimal.AtoiOfDigits` | internal/mcpserver/cache.go:140 | digits after an optional sign are read as their value, if that is within the range |
| `Decimal.AtoiForms` | internal/mcpserver/cache.go:132-140 | a plus sign or a leading zero makes no difference to the number read, a minus sign negates it |
| `Decimal.ItoaOfDigits` | internal/mcpserver/cache.go:132-140 | a numeral without leading zero is the printed form of its value |
| `ReadPage.ReadPage` | internal/mcpserver/read.go:30-110 | a page fits the budget unless it is the empty one at the end; entries are consecutive members, each shown as itself exactly if that fits and by reference otherwise; it stops early only at the limit or before an entry that does not fit, and a text is halved only while its fragment does not fit; an error means that a few bytes, a path or a key exceed the budget |
| `ReadPage.ReadEntriesPage` | internal/mcpserver/read.go:72-109 | fails if and only if the offset is beyond the end or not even a reference to the first entry fits; stops early only at the limit or before an entry that does not fit |
| `ReadPage.TakeEntry` | internal/mcpserver/read.go:78-100 | the next entry shows the member itself exactly if the entry alone and the page with it fit, and is refused exactly if not even its reference fits |
| `ReadPage.ReadTextPage` | internal/mcpserver/read.go:38-53 | the halving loop ends with the first fragment that fits, beginning and ending at a character, or gives up at four bytes |
| `SnapshotClient.ReadToolResult` | internal/mcpserver/server.go:94-113 | resolution and paging together: every answer is a page of the value the path names |
| `SnapshotClient.ReadEntries` | internal/mcpserver/read.go:54-109 | following next_offset from 0 lists every member exactly once and in order, and only the budget can stop it |
| `SnapshotClient.ReadText` | internal/mcpserver/read.go:38-53 | following next_offset rebuilds a UTF-8 text exactly |
| `SnapshotClient.ReadValue` | internal/mcpserver/read.go:12-14 | a client that reads every page and follows every reference, to any depth, holds exactly the stored value; it fails only if below its path some value has a path longer than admitted or a page over the budget |
| `SnapshotClient.MemberHasPath` | internal/mcpserver/read.go:88-91 | the path of an entry resolves to the member the entry stands for |
| `SnapshotClient.PagesHideTheKind` | internal/mcpserver/read.go:109 | an array and the object with its indices as keys are read alike if and only if there are at most ten members; then the type has to come from the reference |
| `SnapshotClient.PagesShowMembersOnly` | internal/mcpserver/read.go:78-109 | containers with the same keys in the same order and the same members have the same pages |
| `Utf8.Utf8Fragment` | internal/mcpserver/response.go:110-123 | of valid text the longest valid piece within the limit, or one whole character; it advances, and the next piece begins at a character |
| `Utf8.CutAtRuneStart` | internal/mcpserver/response.go:111-117 | valid text may be cut exactly where a character starts |
| `Sorting.SortedKeys` | internal/mcpserver/read.go:60-63 | the sorted keys do not depend on the order in which the map gives them |
| `Sorting.ListsIsUnique` | internal/mcpserver/read.go:63 | there is one ascending list of given keys |
| `SnapshotCache.SnapshotCache.constructor` | internal/mcpserver/cache.go:41-43 | an empty cache with exact counters and room for 4096 snapshots |
| `SnapshotCache.SnapshotCache.Put` | internal/mcpserver/cache.go:56-79 | stores if and only if the four limits allow it after expiry; then exactly this snapshot is added, and all counters stay exact |
| `SnapshotCache.SnapshotCache.Get` | internal/mcpserver/cache.go:80-92 | returns bytes if and only if they were the last stored under the token, have not expired, belong to an equal principal and the caller holds their scope |
| `SnapshotCache.SnapshotCache.CleanupLocked` | internal/mcpserver/cache.go:93-105 | removes exactly what has expired, in any order of the map, and keeps the counters exact |
| `SnapshotCache.DeletingKeepsExact` | internal/mcpserver/cache.go:98-103 | total and each counter equal the sums of stored sizes after a deletion, and zero entries are gone |
| `SnapshotCache.AddingKeepsExact` | internal/mcpserver/cache.go:75-77 | and after an addition under a fresh token |
| `SnapshotCache.UsedWithout` | internal/mcpserver/cache.go:98-103 | what one snapshot contributes to the total and to its principal, independently of map order |
| `SnapshotCache.AddingKeepsLimits` | internal/mcpserver/cache.go:68-77 | the check before storing keeps all four limits |
| `SnapshotOwner.SameKeyIffSamePrincipal` | internal/mcpserver/cache.go:44-48 | principals share a key if and only if they have equal identities and the same scopes in any order, as long as scopes are words |
| `SnapshotOwner.SpacesCollide` | internal/mcpserver/cache.go:47 | with a space in a scope different principals would share a key; the supported scopes are words (internal/domain/apikey/scopes.go:10-12) |
| `SnapshotOwner.SortSorts` | internal/mcpserver/cache.go:45-46 | sorting permutes the scopes and brings them into order |
| `SnapshotOwner.JoinIsInjective` | internal/mcpserver/cache.go:47 | joined words determine the list |
| `RoundRobin.CleanupRole.ProcessOnce` | internal/app/worker.go:340-370 | asks processors in turn from the next one on until one has worked or failed; the next call starts after the last one asked, or one further on after an idle round; reports idle only if all were asked and idle; a failed reconcile asks none and moves nothing, and any attempt at one is stamped |
| `RoundRobin.AskInTurn` | internal/app/worker.go:356-365 | the loop asks in cyclic order up to the first processor that works or fails |
| `RoundRobin.CleanupRole.Serve` | internal/app/worker.go:340-370 | any number of calls asks exactly the processors that the run of states says |
| `RoundRobin.TurnComes` | internal/app/worker.go:356-368 | whatever the others answer, errors included, a processor is asked by the time as many calls as its cyclic distance and one more have passed the reconcile step |
| `RoundRobin.NoStarvation` | internal/app/worker.go:356-368 | each of n processors is asked within n calls that pass |
| `RoundRobin.CallBringsNearer` | internal/app/worker.go:357-367 | a passing call asks a processor or shortens its distance; another leaves it |
| `RoundRobin.BusyTurnsGoRound` | internal/app/worker.go:359-364 | the bound is attained: with all processors busy the call of its distance is the first that asks it |
| `RoundRobin.FailuresAreRare` | internal/app/worker.go:343-352 | a reconcile is tried at most once in six hours, so at most one call of such a period is turned away |
| `RoundRobin.NoStarvationWithinSixHours` | internal/app/worker.go:343-368 | hence n + 1 calls within six hours reach every processor, failing reconciles included |
| `Routes.Allows` | api/openapi/routes.go:44-68 | true if and only if some template of maximal specificity among those matching the path lists the method, in whatever order the map is walked |
| `Routes.VerbInAnyCase` | api/openapi/routes.go:48 | white space around the method and the case of its letters make no difference |
| `Strings.TrimSpaceIsCore` | api/openapi/routes.go:48 | trimming removes exactly the white space at both ends |
| `Routes.MatchPathTemplate` | api/openapi/routes.go:99-124 | true if and only if both are absolute and agree segment by segment |
| `Routes.MatchSegment` | api/openapi/routes.go:108-121 | a parameter stands for any non-empty text between prefix and suffix, everything else must be equal; a closing brace before the first opening one makes a segment literal |
| `Routes.SegmentsAreExact` | api/openapi/routes.go:126-134 | the segments of a path are the slash-free pieces that join to it, none for the root |
| `Routes.PathTemplateSpecificity` | api/openapi/routes.go:136-152 | the loop counts the characters outside braces |
| `Routes.ParameterDoesNotCount` | api/openapi/routes.go:136-152 | the characters of a parameter do not count, those before and after it do |
| `Routes.MatchIsLessSpecific` | api/openapi/routes.go:136-152 | a template that matches a path without being it is less specific than the path is long |
| `Routes.ExactPathDecides` | api/openapi/routes.go:44-68 | where the contract has the very path its methods alone decide, whatever parameters would match |

## Left out

- Downloads, archive extraction, permissions, locks, subprocesses and container runtimes: steps that succeed or fail.
- Partial effects of `os.RemoveAll`: a half-removed directory is neither release and recovery refuses it.
- Temporary stage files and their cleanup in fresh installs: they never carry one of the published names.
- URL and install-plan validation tables, the JSON encoding of journals and manifests, the state's own validation.
- External edits while reconfigure or the asset refresh runs: the checks against them are modelled and, under the assumptions, never fail.
- Reconfigure.RecordChange: `doc.Extensions` and the order of entries are not modelled; a runtime is its settings by key.
- Reconfigure.OwnJournalAccepted: the email enters the digest as it is, while the code trims and lower-cases it; a runtime that lacks the `PUBLIC_API_URL` key altogether is not expressible, and its journal would be refused as well because printing adds the key.
- ManagedNginx.RefreshAfterAnyRuns: says nothing about which asset the gateway runs. A rollback that is resumed restarts it only if the resuming command applies, and a candidate that is there already is not applied again; `RefreshManagedNginxLocked` says when the gateway runs the asset.
- FreshInstall.ExecuteInstall: which script entry each operation meets is not spelled out; beyond one failure the contract decides by the outcomes of the removals. Only installations that find nothing or a committed installation; resuming and overwriting a pending one are decided elsewhere (`PendingOverwrite` has the replacement itself), and starting the deployment afterwards changes no file.
- PendingOverwrite.ReplacePendingInstallArtifacts: the install state is put back as its bytes; the code decodes and writes it again, which agrees for files it wrote itself. Where restoring fails too, nothing is claimed beyond the reported outcome.
- RuntimeParse.ParseRuntimeEnv: the known keys are a parameter; the code always uses those of its default schema, and all callers print with the same one.
- RuntimeRender.RenderRuntimeEnv: the `RequiredWhen` rules of the schema are absent, since printing does not consult them.
- SnapshotClient.ReadValue: a stored object that looks like a reference cannot be told from one on the wire; the model tags references. The 4096-character limit on paths shows as an error.
- SnapshotCache.SnapshotCache.Put: marshalling and token generation are parameters; concurrent calls are the sequence that the mutex makes of them.
- RoundRobin.CleanupRole.ProcessOnce: one worker slot; with several, start positions can be stale.
- Routes.Allows: lower-casing is that of ASCII letters; the other letters that become ASCII are none that a method name has. Paths are characters rather than bytes, which agrees on UTF-8. Reading the embedded document is absent.
- The conversion of a stored result to a summary or receipt, schema validation of answers, cluster join, OAuth, gateway, doctor, TUI and translations.
