# gosync in Dafny

A model of the two cores of gosync, a directory synchronizer and backup tool, with proofs of
what they are for: two directory trees are brought to one agreed state, and a backup
destination keeps a trustworthy history whatever fails on the way.

`dafny verify dfyconfig.toml` checks everything.

## What is modelled

**Synchronization.** A tree is a map from '/'-separated paths to directories and files
(`FileTrees`). Inventories are compared in sorted path order (`Inventories`), three planners turn
comparisons into actions (`Planners`), and the executor (`Executor.SyncRoots`) carries them out on
two live trees by recursive copies and removals. Every file operation may fail, with part of its
work done, as "locked" (retried) or for good. `PlanGoals` proves when a plan computed once from a
snapshot, whose actions replace and remove overlapping subtrees, reaches one goal tree.
`Mirroring` applies this to unidirectional and authoritative synchronization, `Merging` and
`Divergence` to the bidirectional three-way merge, `SyncCycle` to whole cycles with verification
and the confirmed record, `Losses` to what a plan can destroy, `Recovery` to what a failed cycle
leaves and the next one makes of it.

**Backup.** `BackupState` is the persisted record, `BackupWorld` the record plus the destination
directory as a state machine with one step per file operation, `BackupRuns` what every run keeps.
The class `BackupRetention.BackupStore` performs the steps; `BackupRetention`, `BackupInspection`
and `BackupCycle` are the program's procedures on it. The ghost field `trace` holds the world after each operation,
so a property of the whole trace holds wherever the process crashes, and `CrashAndContinue` lets
the next cycle start from any of those worlds. `BackupInspection.AcceptedIff` says which of them
the next cycle accepts, and `BackupCycle.RunCycles` says it of every world of a run of cycles.

**Encodings.** `InventoryEncoding` (the text an inventory digest is computed from),
`ArchiveComment` (splicing the comment of the ZIP end record, section 4.3.16 of PKWARE APPNOTE,
at byte level, and a reader's backward scan for it), `BackupArchives` (writing an archive,
splicing its identity, and verifying it).

**Logs and remote paths.** `LogRotation` (renames that may be cut short anywhere),
`LogSanitizing` (replacing protected values), `RemotePaths` (repeated percent-decoding,
section 2.1 of RFC 3986, and scoping below a root) and `RemoteEncodings`, which states what the
decoding and the text checks mean against encoders.

How faults are modelled: an operation that can fail does so nondeterministically and sets
`faulted`. Contracts therefore come in pairs: what success and failure mean under any faults, and,
when nothing faulted, exactly when the operation succeeds. A file digest is an injective
constructor in the synchronization modules; in the backup modules it is the value of an arbitrary
hash function, and only lemmas that need it ask that it separates the two texts at hand.

## Where the code does less than its documentation says

- Bidirectional execution does not converge for every snapshot. `Divergence.MergeIff` gives the
  exact condition on the snapshot (`Merging.Compatible`); two concrete snapshots that fail are
  `NewEntryInDeletedDirectory` and `ConfirmedEntryInKeptDirectory`.
- Where removal below a regular file is an error (Unix), mirroring fails exactly when a file is to
  replace a directory that has contents: `Mirroring.MirrorIsExact`; an instance is
  `Divergence.FileReplacingDirectory`.
- specs/004-compressed-backup/plan.md:393 promises that every interruption of a pending removal
  resumes. `BackupInterruptions.RetentionWindow`: not between deleting the file and dropping its
  record. Retention itself would resume there (`BackupRetention.ExecuteRetention`), but the cycle's
  inspection stops before it. An instance is `OneRemovalBlocks`.
- specs/004-compressed-backup/plan.md:386 and :389 promise that an interrupted or discarded
  temporary archive is removed. `BackupInterruptions.CandidateWindow`: one that stays under its
  temporary name makes every later cycle stop; only published archives are recognized (an instance
  is `OneCandidateBlocks`). No crash is needed: `BackupCycle.LeavesCandidate` is the exact condition under which a cycle that meets no
  fault leaves one (`BackupCycle.RunBackupCycle`), a source edited while it is archived being one
  case (`BackupInterruptions.EditedSourceLeavesCandidate`, an instance is `OneEditBlocks`), and `BackupCycle.RunCycles` says that
  later cycles fail and change nothing.
- The splice of an archive's identity can fail in two ways that depend only on the end record's
  fields and the identity's length n (`BackupArchives.ReadableByPosition` has both conditions,
  exactly). It is refused if the record's own entry count, directory size and directory position
  spell the signature (`ArchiveComment.FieldsSpellSignature`), as they do for a central directory at
  0x06054b50 (`SpliceCanBeRefused`). It is made but lost to readers if the position p and n spell it,
  that is if p / 256 is 0x054b50 and n % 256 is 6, or p / 65536 is 0x4b50 and n is 0x0605
  (`PositionSpellsSignature`; an instance is `SpliceCanBeLost`). A lost one fails its own
  verification, and its temporary file stays.
- specs/004-compressed-backup/plan.md:382 promises that a destination made by a cycle that fails
  before confirmation is removed. Without faults it is, unless the archive was published and its
  record would not be valid (`BackupCycle.CycleInNewDestination`), which cannot happen when nothing is
  persisted yet and file digests are digests (`FirstIsConfirmed`). With a fault it can stay: once the
  archive is published, a record that cannot be saved leaves both
  (`BackupInterruptions.UnsavedFirstArchiveStays`).
- Requirement RF-05 of local synchronization promises that an entry found on one side only and not
  recorded is created on the other. It can be destroyed on both instead: a recorded directory that
  was deleted on the other side, or became a file there that prevails, is removed or replaced with
  everything new below it (`Losses.Destroys`). `Losses.LossIff` is the exact condition: the plan loses
  nothing of the merge, wherever and however it stops, if and only if it reaches no such directory
  that no acted-on directory lies above (one above that is copied whole saves the entry on the other
  side). An instance is `Losses.NewEntryIsLost`.
- A failed bidirectional cycle keeps its record (requirement RF-02 of local synchronization), and if
  its snapshot is compatible it leaves both trees intact (`SyncCycle.Session.PerformSynchronization`,
  `Recovery.LeftIntact`), but the next cycle need not aim at the same merge: `Recovery.NextMergeIff` is
  the exact condition on what was left, under which the next cycle also gets there
  (`Recovery.NextCycleRecovers`). A truncated copy with a later time overwrites the good file
  (`SyncCycle.TruncatedCopyPrevails`), and a recorded file removed but not yet written again is deleted
  on the good side too (`SyncCycle.RemovedTargetIsDeleted`).
- A protected value can be seen in a sanitized message if it overlaps the redaction marker, and only
  then: `LogSanitizing.RemovedIff`; the letter "E" is an instance (`LetterRemains`).

## Model

| member | source | states |
|---|---|---|
| Paths.AboveLess | src/directory_inventory.go:73-77 | sorted path order lists every directory before all that lies below it |
| Paths.SortedUnique | src/directory_inventory.go:73-77 | a set of paths has only one sorted listing, so the comparison order does not depend on map iteration |
| Paths.LessIff | src/directory_inventory.go:77 | the order is that of strings: a proper prefix first, else the smaller character where two paths first differ |
| Paths.AboveIff | src/synchronization_executor.go:61-80 | what lies below a directory is exactly what has its path and a slash in front |
| Sorting.Sort | src/directory_inventory.go:77 | sorted and a permutation, for any order on keys, ties kept in place |
| Sorting.SortIsStable | src/log_sanitizer.go:31-34 | elements that tie keep their order |
| FileTrees.GraftedIsTree | src/synchronization_executor.go:54-115 | a copied subtree with its parents leaves a prefix-closed tree |
| FileTrees.CopyAbsorbsPartial | src/synchronization_executor.go:54-115 | whatever an interrupted copy left below the path or created above it, a later successful copy gives the same tree as a first-try success |
| FileTrees.DeleteAbsorbsPartial | src/synchronization_executor.go:117-122 | the same for removal |
| Executor.SyncRoots.CopyPath | src/synchronization_executor.go:54-115 | success puts exactly the source subtree at the destination; failure is the environment's or a missing source or a file in a parent's place, touches only that subtree and its parents, and never the source |
| Executor.SyncRoots.CopyFile | src/synchronization_executor.go:81-111 | parents, removal and writing of one file amount to grafting it |
| Executor.SyncRoots.CopyDirectory | src/synchronization_executor.go:61-80 | the recursion over entries amounts to grafting the whole subtree |
| Executor.SyncRoots.CopyChildren | src/synchronization_executor.go:69-79 | after the loop every entry of the source directory, to any depth, is at the destination, whatever the listing order |
| Executor.SyncRoots.RemoveAll | src/synchronization_executor.go:117-122 | success removes the subtree and nothing else; a failed removal leaves a part of it |
| Executor.SyncRoots.RetryLocked | src/synchronization_executor.go:124-169 | after any number of locked attempts the outcome is that of one fault-free action on the original trees; the notices it adds are none, or one locked notice for the path, or that and then one completion notice, which is there exactly if success followed |
| Executor.SyncRoots.ExecutePlan | src/synchronization_executor.go:18-34 | Completed means both trees are the fault-free result of the whole plan; without faults it completes exactly if that result exists, and sends no notice; where it stops, the actions before have their fault-free result and the next has touched only its own subtree and parents on its target side |
| Inventories.HaveEquivalentContents | src/directory_inventory.go:100-116 | the size check and one-sided loop decide agreement on paths, kinds and file contents |
| Inventories.EquivalentIsEquivalence | src/directory_inventory.go:100-116 | that test is reflexive, symmetric and transitive |
| Inventories.EquivalentIffSameTree | src/directory_inventory.go:16-62 | inventories of two trees are equivalent exactly if the trees are equal, whatever the modification times |
| Inventories.CompareInventories | src/directory_inventory.go:64-89 | every path of either side once, in sorted order, with what each side has there |
| Inventories.AttachConfirmedEntries | src/watch_command.go:361-376 | exactly the recorded paths are marked, each with its last record |
| Inventories.LastRecordWins | src/watch_command.go:361-376 | of several records of one path the last counts |
| Planners.GenerateUnidirectionalPlan | src/unidirectional_sync.go:26-51 | the loop collects one decision per comparison, in order |
| Planners.GenerateAuthoritativePlan | src/watch_command.go:378-400 | the same for the authoritative side |
| Planners.ClassifyAdditionsAndDeletions | src/change_classification.go:3-37 | one-sided entries are copied if new and deleted where they remain if confirmed |
| Planners.GenerateSynchronizationPlan | src/synchronization_plan.go:7-59 | a plan of all decisions exactly if every comparison can be decided, else the error of the first that cannot |
| Planners.AuthoritativeFirstIsUnidirectional | src/watch_command.go:378-407 | the authoritative plan of the first side is the unidirectional plan |
| Planners.AuthoritativeEmptyIffEquivalent | src/watch_command.go:378-407 | nothing to do exactly if the inventories are equivalent |
| Planners.UnidirectionalEmptyIffEquivalent | src/unidirectional_sync.go:26-51 | the same for the unidirectional planner |
| Planners.BidirectionalEmptyIffEquivalent | src/synchronization_plan.go:7-59 | the same whatever is recorded or answered; equivalent inventories never raise a conflict |
| Planners.BidirectionalQuiet | src/file_content_conflict.go:5-53 | no action exactly where both sides agree, over all branches of the conflict resolution |
| PlanGoals.PlanReachesGoal | src/synchronization_executor.go:18-52 | a plan computed from a snapshot, each of whose decisions serves one goal tree, leaves both trees equal to it although its actions replace whole overlapping subtrees; it fails exactly if a removal lies below a file of the goal where that is an error |
| PlanGoals.CopySettles | src/synchronization_executor.go:36-52 | a copy on half-finished trees succeeds and gives its path, and all that was settled, the goal's value |
| PlanGoals.DeleteSettles | src/synchronization_executor.go:36-52 | the same for a removal, which fails exactly below a file where that is an error |
| Mirroring.MirrorIsExact | src/watch_command.go:378-400 | the authoritative plan makes the other tree equal to the chosen one and leaves that one alone, or fails, exactly if a file replaces a directory with contents where removal below a file is an error |
| Mirroring.UnidirectionalPlanMirrors | src/unidirectional_sync.go:26-51 | the same for the unidirectional plan and the first tree |
| Merging.CompatibleMerges | src/synchronization_plan.go:7-59 | for a compatible snapshot both trees become the pointwise three-way merge |
| Divergence.MergeIff | src/synchronization_plan.go:7-59 | execution brings the trees together if and only if the snapshot is compatible, and then to the merge |
| Divergence.RemovedDirectoryStarves | src/change_classification.go:3-37 | a removed directory that held a new entry: no convergence, from any point the plan can be at |
| Divergence.KeptDirectorySplits | src/change_classification.go:3-37 | a directory copied whole although an entry in it is to be removed: no convergence |
| Divergence.ReplacedDirectoryFails | src/file_directory_conflict.go:8-49 | a directory replaced by a file while entries in it are to be copied or removed: no convergence |
| Divergence.NewEntryInDeletedDirectory | src/change_classification.go:7-19 | a concrete snapshot on which the plan does not converge, whatever is answered |
| Divergence.ConfirmedEntryInKeptDirectory | src/file_directory_conflict.go:35-45 | another, in which the user keeps a directory whose entries were confirmed |
| Divergence.FileReplacingDirectory | src/unidirectional_sync.go:26-51 | a concrete pair of trees that cannot be mirrored where removal below a file is an error |
| SyncCycle.DecisionIsRuling | src/file_content_conflict.go:5-53 | deciding by kinds, digests, times and answers is ruling on the two trees themselves |
| SyncCycle.PlanIsRulings | src/synchronization_plan.go:7-59 | so a generated plan consists of the merge's rulings |
| SyncCycle.DecidableIffResolvable | src/synchronization_plan.go:14-56 | a plan exists exactly if at every path where the trees differ one of two files is newer, or the question asked (of two files, or of an entry of another kind) has an answer |
| SyncCycle.DecisionExistsIff | src/file_content_conflict.go:5-53 | the same for one path: without a newer file and without an answer there is no decision |
| SyncCycle.ConflictIsSettled | src/file_directory_conflict.go:8-49 | where the trees differ the merge holds the newer of two files, and otherwise the entry of the side the answer keeps |
| SyncCycle.SortedEntries | src/synchronization_verification.go:26-32 | the committed entries are the inventory, in strictly ascending path order, whatever the iteration order |
| SyncCycle.Session.VerifyAndCommit | src/synchronization_verification.go:9-45 | the record is replaced only if execution completed and both trees agree, then lists exactly the first; else it is kept |
| SyncCycle.Session.PerformSynchronization | src/watch_command.go:267-359 | a successful cycle ends with equal, recorded trees: the three-way merge with the record, or without one the chosen side; a failed one keeps the record; a conflict that nobody decides, or a side nobody chooses, leaves both trees as they were; whatever failed, all of the merge is still on some side if no new entry has a first destroyer, and a compatible snapshot is left intact; without faults it succeeds exactly if the snapshot is decidable and compatible, or the mirror is possible |
| SyncCycle.Session.SynchronizeUnidirectional | src/unidirectional_sync.go:53-95 | the first tree is left alone even by a failed cycle, and a successful one leaves the second equal to it, recorded; without faults it fails exactly where mirroring is blocked |
| SyncCycle.Session.SynchronizeRecorded | src/watch_command.go:267-359 | the cycle with a record: success is the merge; an undecided conflict stops it before anything is changed; success or not, nothing of the merge is lost if no new entry has a first destroyer, and a compatible snapshot is left intact; without faults success is decided by the snapshot |
| SyncCycle.Session.MirrorSide | src/watch_command.go:378-400 | the chosen side is never touched, and success makes the other equal to it |
| SyncCycle.RecordMarksTree | src/watch_command.go:361-376 | reattaching a committed record marks exactly the paths of the committed tree |
| SyncCycle.CommittedIsStable | src/synchronization_verification.go:26-42 | right after a commit the snapshot is compatible and the merge changes nothing |
| SyncCycle.OneSidedChangesPropagate | src/change_classification.go:3-37 | if only one side changed since the commit, and prevails where files differ, the merge is that side; compatible exactly if mirroring it is possible |
| Losses.LossIff | src/synchronization_executor.go:18-122 | for every snapshot: no stopping point of the plan loses anything of the merge if and only if the plan reaches no directory that is the first to destroy a new entry |
| Losses.DestroyedIsLost | src/change_classification.go:7-19 | the first destroyer the plan reaches succeeds, and the entry is then on neither side |
| Losses.StopKeepsMerge | src/synchronization_executor.go:18-122 | where no first destroyer is reached, every entry of the merge is on some side, an earlier copy of a directory above it having saved it where it is destroyed later |
| Losses.StopKeepsHolders | src/synchronization_executor.go:18-122 | where nothing is destroyed at all, every side still has what it had of the merge |
| Losses.CompatibleDestroysNothing | src/change_classification.go:3-37 | a compatible snapshot has nothing that destroys |
| Losses.NewEntryIsLost | src/change_classification.go:7-19 | a concrete new file in a deleted directory: both trees end empty and the plan fails |
| Recovery.FailedPlanLosesNothing | src/synchronization_executor.go:18-34 | wherever the plan of a compatible merge stops, each path of the merge still has its value on every side that had it, and every other path left is where it was, on one side and recorded |
| Recovery.StoppedPlanKeepsMerge | src/synchronization_executor.go:18-34 | for any snapshot without a first destroyer, compatible or not: wherever the plan stops, all of the merge is still on some side |
| Recovery.LeftIsSafe | src/synchronization_executor.go:54-122 | an action cut short at any point destroys nothing that the merge keeps |
| Recovery.NextMergeIff | src/change_classification.go:3-37 | the next cycle aims at the same merge exactly if each side that lacks its value has nothing at an unrecorded path, or something the other side prevails over |
| Recovery.NextCycleRecovers | src/synchronization_plan.go:7-59 | then what a failed plan of a compatible snapshot has left is compatible again, so that the next plan without faults ends with the merge the first one aimed at |
| SyncCycle.TruncatedCopyPrevails | src/file_content_conflict.go:5-53 | a concrete file whose interrupted copy, being newer, replaces the good one in the next cycle |
| SyncCycle.RemovedTargetIsDeleted | src/change_classification.go:3-37 | a concrete recorded file whose interrupted replacement makes the next cycle delete the good one |
| BackupState.ValidateState | src/backup_set_state.go:52-128 | the scan accepts exactly the valid states: strictly ascending orders below the counter, distinct names and identifiers, and a pending removal matching exactly the one pending record |
| BackupState.ValidStateIff | src/backup_set_state.go:52-128 | a state is valid exactly if it has none of the faults there is an error for: in its version, its paths, one record, two records, or its pending removal |
| BackupIdentity.BlankIff | src/backup_set_state.go:69 | a text counts as missing exactly if it is made of the 25 white space characters of Unicode |
| BackupIdentity.DigestTextIff | src/backup_set_state.go:130-136 | a digest is exactly the lower-case hexadecimal text of 32 bytes |
| BackupIdentity.ValidIdentityIff | src/backup_archive_identity.go:32-55 | an identity is valid exactly if it is well-formed and equals every expectation that is not empty or zero |
| BackupIdentity.IncrementWraps | src/backup_recovery_retention.go:298-301 | orders are exactly the 64-bit values, and the next order is one more, modulo 2 to the 64 |
| BackupState.ValidateRecords | src/backup_set_state.go:63-103 | the loop's running maximum and its sets of what was seen decide pairwise order and distinctness |
| BackupState.CountedPending | src/backup_set_state.go:104-127 | counting pending records decides whether there is none, or exactly one |
| BackupRuns.StepKeepsInvariant | src/backup_recovery_retention.go:265-411 | every file operation keeps: the persisted state is missing or valid, and every confirmed record has its file with the recorded digest and its own identity, so that only the file pending removal may be absent |
| BackupRuns.StepKeepsBounded | src/backup_cycle.go:105-117 | every file operation keeps the history within k + 1 records |
| BackupRuns.RunKeepsInvariant | src/backup_cycle.go:21-188 | both hold in every world of every run |
| BackupRuns.RunFollows | src/backup_recovery_retention.go:265-303 | along every run the persisted source stays, the order counter never falls, and an archive not recorded before has an order at or above the earlier counter |
| BackupRuns.OrdersNeverReused | src/backup_recovery_retention.go:265-303 | an archive that becomes recorded has an order above every order recorded at any earlier moment, deleted archives included |
| BackupRuns.RunKeepsHistory | src/backup_recovery_retention.go:323-411 | between any two moments of a run, whatever failed, no archive is lost but those that k newer confirmed ones replace |
| BackupRuns.ReplacedByNewer | src/backup_recovery_retention.go:323-411 | the same for one archive: if it is gone, the last k confirmed ones are k archives of higher order |
| BackupRuns.RunKeepsCount | src/backup_recovery_retention.go:323-411 | so of n confirmed archives at least min(n, k) are confirmed ever after |
| BackupRuns.StepKeepsHistory | src/backup_recovery_retention.go:345-364 | of all file operations only the mark takes an archive away, and then k newer ones are confirmed |
| BackupRuns.CrashAndContinue | src/backup_cycle.go:21-188 | a run cut off anywhere and continued from there is a run, so what holds of runs holds across crashes |
| BackupRuns.CounterNeverWraps | src/backup_set_state.go:59-61 | no valid state has a wrapped counter: at the maximum no confirmation can be saved |
| BackupRuns.MarkedIsValid | src/backup_recovery_retention.go:345-364 | marking keeps a state valid |
| BackupRuns.DroppedIsValid | src/backup_recovery_retention.go:374-385 | dropping the pending record keeps a state valid |
| BackupRuns.MarkKeepsGoal | src/backup_recovery_retention.go:345-364 | marking the oldest of too many archives does not change the records and files retention is heading for |
| BackupRuns.DeleteKeepsGoal | src/backup_recovery_retention.go:370-373 | nor does deleting the pending file, gone already or not |
| BackupRuns.DropKeepsGoal | src/backup_recovery_retention.go:374-385 | nor does dropping its record |
| BackupRuns.KeptIsIntact | src/backup_recovery_retention.go:388-411 | as long as the goal is unchanged, every archive to be kept is recorded and its file is as it will be at the end |
| BackupRetention.BackupStore.Load | src/backup_set_state.go:472-499 | a loaded state is the persisted one, valid and for this destination; without faults only an unusable record fails to load |
| BackupRetention.BackupStore.Save | src/backup_set_state.go:553-560 | only a valid state becomes the persisted one, in one step; an invalid one, or a fault, changes nothing |
| BackupRetention.ConfirmArchive | src/backup_recovery_retention.go:265-303 | success adds one record at the end, with all fields of the identity, the file's name and the digest it has, and moves the counter on by one; without faults exactly if the result is a valid state; failure changes nothing |
| BackupRetention.ExhaustedCounterConfirmsNothing | src/backup_recovery_retention.go:298-301 | at the largest 64-bit counter every confirmation is refused |
| BackupRetention.PlanRetention | src/backup_recovery_retention.go:323-343 | for 1 to 100 archives to keep and nothing pending, the work list followed by the newest k is the confirmed history, in order |
| BackupRetention.MarkPendingRemoval | src/backup_recovery_retention.go:345-364 | exactly the oldest record is marked and persisted; without faults it fails only if that record is not the one asked for |
| BackupRetention.MarkRecord | src/backup_recovery_retention.go:346-358 | for any record: exactly the confirmed records meant by its identifier, name and order are marked, and all others are as they were |
| BackupRetention.MatchesOnce | src/backup_recovery_retention.go:349-355 | in a valid state at most one record is meant |
| BackupRetention.PrepareConfirmation | src/backup_recovery_retention.go:265-298 | what is saved adds the one record, exactly if destination, order, digest, source and both names allow it |
| BackupRetention.DeletePendingFile | src/backup_recovery_retention.go:370-373 | the pending file is gone afterwards, and the goal of retention the same at every point |
| BackupRetention.RecordsWithoutPending | src/backup_recovery_retention.go:374-380 | filtering by identifier leaves exactly the confirmed records |
| BackupRetention.ResumePendingRemoval | src/backup_recovery_retention.go:366-386 | the pending record is dropped, whether or not its file was still there; without faults it cannot fail, and the goal is the same at every point |
| BackupRetention.RemoveOldest | src/backup_recovery_retention.go:401-408 | one round takes away the oldest record and its file; without faults it cannot fail |
| BackupRetention.RemoveExpired | src/backup_recovery_retention.go:400-410 | the loop over a list computed beforehand reaches the goal and never finds a record unconfirmed |
| BackupRetention.ExecuteRetention | src/backup_recovery_retention.go:388-411 | success means exactly the newest min(n, k) unmarked records in order, and of the recorded files only theirs; wherever it stops, starting again heads for the same records and files; without faults it succeeds exactly for k from 1 to 100 |
| BackupRetention.ValidateCompliance | src/backup_recovery_retention.go:413-430 | accepts exactly if nothing is pending and at most k records are confirmed, for k from 1 to 100 |
| BackupRetention.GoalComplies | src/backup_recovery_retention.go:413-430 | the state retention ends with complies: it is the last min(n, k) of the n unmarked records, with nothing pending and all else unchanged |
| BackupRetention.GoalFiles | src/backup_recovery_retention.go:366-411 | the files that are gone are exactly those some record named and none kept names; all others are as they were |
| BackupInspection.InspectDestination | src/backup_recovery_retention.go:43-121 | without faults, refuses exactly the destinations that must be refused; what it reports classifies every entry exactly once: confirmed and pending archives, recoverable ones, foreign entries |
| BackupInspection.InspectRecords | src/backup_recovery_retention.go:79-96 | damage is reported exactly if some recorded archive is missing or altered |
| BackupInspection.InspectUnrecorded | src/backup_recovery_retention.go:98-112 | every other entry is owned or foreign, each reported once; foreign exactly if one is no archive, or one of another source or destination |
| BackupInspection.RecoverOwnedCandidates | src/backup_recovery_retention.go:211-225 | deletes exactly the files no record names, and nothing at all if one of these is irregular, no archive, without an identity or under one of another source or destination, or if anything recorded is damaged |
| BackupInspection.RefusedIff | src/backup_recovery_retention.go:43-121 | refused are exactly: an invalid state or one of another source or destination; a recorded archive that is missing, irregular, altered, or under another identity than recorded; an unrecorded entry that is no archive of this source and destination |
| BackupCycle.OpenBackupSet | src/backup_cycle.go:71-104 | after inspection, recovery and loading the directory holds only recorded archives, all intact |
| BackupCycle.PassRetentionGate | src/backup_cycle.go:105-117 | before a new archive is made, nothing is pending and at most k archives are left, the newest |
| BackupCycle.MakeCandidate | src/backup_cycle.go:137-146 | a candidate is handed on only if it decodes to the inventory; without faults exactly if every file still had its inventoried content and the identity fits and reads back; otherwise it stays behind exactly if it was refused unopened or finished |
| BackupCycle.SourceIsStable | src/backup_recovery_retention.go:243-248 | the inventories before and after archiving are the same |
| BackupCycle.PublishArchive | src/backup_recovery_retention.go:250-263 | the archive appears under its final name, never over an existing file; without faults exactly if the name is free |
| BackupCycle.ConfirmAndRetain | src/backup_cycle.go:166-183 | success ends with the advanced history, its own archive last; an unconfirmed failure changes nothing |
| BackupCycle.RollBackFirstCycle | src/backup_recovery_retention.go:305-321 | removes at most the candidate, and the directory only if empty; recorded state and other files are untouched |
| BackupCycle.ArchiveSource | src/backup_cycle.go:119-183 | without faults it succeeds exactly if the source held still, the identity reads back, names are free and the counter is not exhausted; what it leaves besides recorded archives is its temporary file, or archives recognized as its own |
| BackupCycle.ArchiveUnderName | src/backup_cycle.go:126-183 | the same once the temporary name is known to be free |
| BackupCycle.UsableNames | src/backup_recovery_retention.go:227-263 | which identifiers make usable names: not empty, no dot segment, no separator in them, and the names made of them not recorded yet |
| BackupCycle.FirstStateIs | src/backup_recovery_retention.go:265-303 | the first confirmation of a destination persists its path, the source, one record of order 1 and 2 as the next order |
| BackupCycle.PublishAndConfirm | src/backup_cycle.go:150-183 | from the verified file on: succeeds without faults exactly if the source held still, the name is free and the record is valid; leaves the temporary file exactly if it is never published |
| BackupCycle.RunBackupCycle | src/backup_cycle.go:21-188 | success: the history is the previous one with the new archive last, all its fields as given, cut to k, all files intact and nothing else in the destination; without faults exactly if the source is usable and the stated conditions hold; an unusable source, or a foreign or damaged destination, leaves everything as it was; without faults an acceptable destination stays acceptable exactly if no temporary file is left |
| BackupCycle.CycleInNewDestination | src/backup_cycle.go:40-66 | without faults a failed first cycle takes the new destination back, unless its archive was published and could not be recorded, which is then all there is and is accepted by the next cycle |
| BackupCycle.FirstIsConfirmed | src/backup_recovery_retention.go:265-303 | with nothing persisted yet a published archive can always be recorded |
| BackupCycle.EndAccepted | src/backup_cycle.go:71-86 | what a cycle without faults leaves is acceptable exactly if it is no temporary file |
| BackupCycle.RunFromAcceptable | src/backup_cycle.go:71-86 | a run that begins with an acceptable destination keeps the invariant to its end |
| BackupCycle.GateKeepsHistory | src/backup_cycle.go:105-117 | cutting the history before and after adding an archive equals cutting it once after |
| BackupCycle.RunCycles | src/backup_watch.go:8-20 | over any number of cycles with faults every moment satisfies the invariant and the bound, and is accepted by later cycles exactly if no pending file is gone and no entry is foreign; a refused destination makes all cycles fail and change nothing |
| BackupInspection.AcceptedIff | src/backup_recovery_retention.go:43-121 | of the worlds any run leaves, exactly those are accepted whose source is the cycle's, whose pending file is still there and in which no entry is foreign |
| BackupInterruptions.RetentionWindow | src/backup_recovery_retention.go:80-88 | of the three moments of a removal, the next cycle refuses exactly the one between deleting the file and dropping the record |
| BackupInterruptions.OneRemovalBlocks | src/backup_recovery_retention.go:80-88 | the same at a concrete destination of two archives where one is to be kept |
| BackupInterruptions.CandidateWindow | src/backup_recovery_retention.go:159-180 | a leftover temporary archive is refused, the same archive once published is accepted |
| BackupInterruptions.OneCandidateBlocks | src/backup_recovery_retention.go:159-180 | the same at a concrete empty destination |
| BackupInterruptions.EditedSourceLeavesCandidate | src/backup_recovery_retention.go:243-248 | a source edited while it is archived, or until the second inventory, fails the cycle and leaves the temporary file |
| BackupInterruptions.OneEditBlocks | src/backup_recovery_retention.go:243-248 | a concrete source of one file, edited once while it is archived, leaves the temporary file |
| BackupInterruptions.UnsavedFirstArchiveStays | src/backup_cycle.go:160-173 | a first archive published but not saved keeps the destination, and the next cycle accepts it |
| BackupCycle.TemporaryNames | src/backup_recovery_retention.go:227-241 | no temporary name is ever taken for an archive |
| InventoryEncoding.WriteGroups | src/backup_inventory.go:154-160 | the loop feeds the hash exactly the pre-image that is shown injective |
| InventoryEncoding.PreimageOfTwo | src/backup_inventory.go:154-160 | the pre-image of a directory and a file in it, written out |
| InventoryEncoding.PreimageInjective | src/backup_inventory.go:154-160 | different entry lists have different pre-images, if paths hold no NUL and digests no newline |
| InventoryEncoding.PreimageCollidesWithNul | src/backup_inventory.go:157 | two entry lists with one pre-image, where a path holds NUL bytes |
| InventoryEncoding.InventoriesEqual | src/backup_inventory.go:162-172 | digest, length and element comparison decide equality of inventories |
| InventoryEncoding.DigestDecides | src/backup_inventory.go:154-172 | where the hash separates the two pre-images, the digest alone decides |
| BackupArchives.WriteArchive | src/backup_archive.go:21-99 | the archive holds the sorted inventory's members as the source had them, under the identity if that reads back; exactly if the identity is valid, every entry has a safe name and is readable, and the identity can be spliced |
| BackupArchives.FinishArchive | src/backup_archive.go:83-98 | the identity is spliced exactly if it fits, and is a reader's exactly if the reader's scan finds its text |
| BackupArchives.WriteMembers | src/backup_archive.go:39-81 | the loop writes all members, in order, exactly if every entry has a safe name and is readable |
| BackupArchives.WriteEntry | src/backup_archive.go:39-81 | a member is written exactly if its name is safe and its file readable |
| Sorting.SortedUniquely | src/backup_archive.go:197-199 | a list without ties has one sorted order, so an unstable sort undoes any write order |
| BackupArchives.DecodeMembers | src/backup_archive.go:160-196 | the loop decodes all members exactly if each is well-formed and no name repeats |
| BackupArchives.VerifyArchive | src/backup_archive.go:144-203 | accepts exactly if the identity fits, names are safe and distinct, and the members decode to exactly the inventory in some order |
| BackupArchives.WriteThenVerify | src/backup_archive.go:144-203 | a fresh archive is accepted if and only if every file read while writing had the inventoried content and the identity reads back |
| BackupArchives.ReadableByPosition | src/backup_archive.go:101-127 | the identity is spliced exactly if it fits and the end record's fields do not spell the signature, and reads back exactly if moreover the position of the central directory and the identity's length do not |
| BackupArchives.AcceptsAnyOrder | src/backup_archive.go:197-201 | reordering the members of an accepted archive leaves it accepted |
| BackupArchives.NamesDistinct | src/backup_archive.go:39-46 | distinct safe paths give distinct member names, the slash of directories included |
| BackupArchives.SafeNameIff | src/backup_archive.go:129-142 | a path is safe exactly if no segment is empty, a dot, a double dot, or holds a backslash |
| BackupArchives.ExpectedIsTheOne | src/backup_archive.go:144-159 | verification accepts no identity but the expected one |
| ArchiveComment.LastSignature | src/backup_archive.go:106-109 | the last occurrence of the signature, or none at all |
| ArchiveComment.SetComment | src/backup_archive.go:101-127 | succeeds exactly if there is a complete last record with a comment that fits, and changes only length and comment |
| ArchiveComment.SpliceFoundIff | src/backup_archive.go:119-122 | a backward scan finds the same record again exactly if the new length bytes complete no second signature |
| ArchiveComment.ReadComment | src/backup_archive.go:145-150 | the backward scan of a reader: the comment of the last record that fits, if it is complete |
| ArchiveComment.ReadBackIff | src/backup_archive.go:119-122 | a reader gets the spliced comment exactly if the length completes no second signature, or one with no room for a record behind it |
| ArchiveComment.WrittenArchiveReadBack | src/backup_archive.go:101-127 | the same for any comment: exactly when an archive as it is written takes it and gives it back |
| ArchiveComment.LastSignatureIff | src/backup_archive.go:106-109 | the last signature is the end record's exactly if count, size and position do not spell it |
| ArchiveComment.SpliceRefusedIff | src/backup_archive.go:106-118 | the splice is refused exactly for those fields, or for too long a comment |
| ArchiveComment.SpliceCanBeRefused | src/backup_archive.go:106-109 | every archive with its directory at 0x06054b50 refuses every comment |
| ArchiveComment.SpliceRoundTrip | src/backup_archive.go:101-127 | then length and comment read back, all bytes before them are unchanged, and a second splice overwrites the first |
| ArchiveComment.SpliceCanBeLost | src/backup_archive.go:119-122 | every small archive with its directory at 0x054b50xx and a comment of 6 modulo 256 bytes: spliced, and a reader finds another record |
| LogRotation.RotatingLog.Write | src/rotating_file_destination.go:28-45 | at every moment the files, oldest first, are a suffix of all that was written, and each is within the limit or a single record; a record that fits into 10,000,000 bytes, or meets an empty file, is appended to the same file and nothing is lost; any other ends alone in a fresh file, every older file one generation on |
| LogRotation.ConsistentIff | src/rotating_file_destination.go:28-45 | what holds at every moment, written out: at most four archives, no file over 10,000,000 bytes but a single record, and all pieces together, archive 4 first, the end of what was written |
| LogRotation.RotatingLog.Rotate | src/rotating_file_destination.go:83-102 | every archive ends one generation later, the active file becomes the first and the oldest is gone; no rename meets an existing file |
| LogRotation.RotatingLog.Rename | src/rotating_file_destination.go:92-99 | onto a free name only; a missing source changes nothing |
| LogRotation.RotatingLog.Remove | src/rotating_file_destination.go:84-87 | removes the oldest generation and nothing else |
| LogRotation.RotatingLog.Append | src/rotating_file_destination.go:62-81 | a failed append has written a prefix of the record and touched no archive |
| LogRotation.MovedUpTo | src/rotating_file_destination.go:89-99 | moving a file into the gap above it leaves the order of everything kept |
| LogRotation.RemoveOldestConsistent | src/rotating_file_destination.go:84-87 | without the oldest archive the rest is still a suffix of what was written |
| LogRotation.AppendConsistent | src/rotating_file_destination.go:62-81 | appending any part of a record that fits keeps order and size |
| LogSanitizing.LogSanitizer.RegisterProtectedValue | src/log_sanitizer.go:18-24 | every registered value is non-empty, and all earlier ones stay registered |
| LogSanitizing.LogSanitizer.SanitizeMessage | src/log_sanitizer.go:26-41 | the loop replaces the registered values, longest first |
| LogSanitizing.FirstReplaced | src/log_sanitizer.go:37-39 | the first occurrence of a value becomes the marker, the text before it stays, and the text behind it is treated alike |
| LogSanitizing.NothingToReplace | src/log_sanitizer.go:37-39 | a message without the value stays as it is |
| LogSanitizing.LongestFirst | src/log_sanitizer.go:31-34 | the registered values are taken in order of falling length |
| LogSanitizing.ReplacedInTurn | src/log_sanitizer.go:37-40 | each value is replaced in what the ones before it have left |
| LogSanitizing.RemovedIff | src/log_sanitizer.go:26-41 | a value never shows in a sanitized message, whatever else is registered, if and only if it does not overlap the marker |
| LogSanitizing.SanitizedTwice | src/log_sanitizer.go:26-41 | where no value overlaps the marker, none is left and a second pass changes nothing |
| LogSanitizing.OccursBefore | src/log_sanitizer.go:37-39 | replacing one value brings no other to light unless that one overlaps the marker |
| LogSanitizing.OverlapRemains | src/log_sanitizer.go:37-39 | for every value that overlaps the marker, registered values and a message in which it is left |
| LogSanitizing.LetterRemains | src/log_sanitizer.go:8-41 | a concrete value and message in which it is left |
| RemotePaths.ValidateDirectoryPath | src/watch_endpoint.go:180-208 | accepts exactly absolute paths below the root whose segments are all ordinary, in clean text |
| RemoteEncodings.DirectoryPathIff | src/watch_endpoint.go:180-208 | the same from the segments: a slash and segments joined by slashes are accepted exactly if no segment is empty, a dot or a double dot, and the text is clean |
| RemoteEncodings.ValidUtf8Iff | src/watch_endpoint.go:187 | valid texts are exactly the encodings of Unicode scalar values (section 3 of RFC 3629) |
| RemoteEncodings.HasControlIff | src/watch_endpoint.go:190-194 | a text has a control character exactly if it encodes one of U+0000 to U+001F or U+007F to U+009F |
| RemotePaths.FindEncodedSeparator | src/watch_endpoint.go:213-216 | finds an encoded slash or backslash, in either case, exactly if there is one |
| RemoteEncodings.SeparatorIff | src/watch_endpoint.go:213-216 | the separators looked for are the escapes of a slash and a backslash, each digit in either case |
| RemoteEncodings.UnescapeEncoded | src/watch_endpoint.go:217 | every text is decoded from each of its encodings, any of its bytes escaped or not, with digits in either case |
| RemoteEncodings.UnescapeIff | src/watch_endpoint.go:217-220 | and only from these: a text that encodes nothing is an error |
| RemotePaths.ValidatePathEscaping | src/watch_endpoint.go:210-229 | the loop ends for every text and accepts exactly if each decoding examined is valid and hides no separator |
| RemoteEncodings.AcceptedIff | src/watch_endpoint.go:210-229 | accepted are exactly the texts of which no decoding, however often repeated, hides a separator or is an invalid path |
| RemotePaths.DecodingShortens | src/watch_endpoint.go:217-227 | a decoding that changes a text makes it shorter |
| RemotePaths.DecodingKeepsSlashes | src/watch_endpoint.go:213-217 | without encoded separators a decoding has as many slashes as the text |
| RemotePaths.AcceptedNeverSplits | src/watch_endpoint.go:210-229 | however often an accepted path is decoded, it stays a valid path with the same number of segments |
| RemotePaths.NewRelativePath | src/remote_contract.go:101-120 | accepts exactly non-empty values that are valid and unambiguous below the root |
| RemoteEncodings.EncodedDotsRefused | src/remote_contract.go:101-120 | a value that comes to hold a dot or double-dot segment after any number of decodings is refused |
| RemoteEncodings.PlainIsAccepted | src/remote_contract.go:101-120 | a value without a percent sign is accepted exactly if it is valid below the root |
| RemotePaths.CleanJoin | src/remote_contract.go:273-278 | path cleaning never changes the join of a valid root and a valid value |
| RemoteEncodings.CleaningRules | src/remote_contract.go:273-278 | path cleaning drops empty segments and single dots, a double dot with the segment before it, and a double dot at the root |
| RemotePaths.ResolvePath | src/remote_contract.go:259-279 | the result is exactly root + "/" + value, so the final prefix check never fails; the root itself only where allowed |

## Left out

- Real I/O, error texts, permissions, symbolic links and operating-system locks (src/backup_ownership.go, src/config_ownership.go): each file operation is one step that may fail.
- One owner per destination and no outside writer during a cycle are taken as given.
- SHA-256, DEFLATE, CRC, JSON and time formats: a ZIP is its named members and an identity, the persisted document one value. Reading members back while validating recorded archives is part of the digest comparison.
- BackupRetention.MarkPendingRemoval: saves the mark of the oldest of too many records, the only one its caller asks for; the marking itself is `MarkRecord`, for any record.
- BackupRetention.BackupStore.Save: taken to be atomic; the fallback of `ReplaceCandidate` that removes before it renames (src/backup_set_state.go:539-549) is not modelled.
- BackupArchives.WriteArchive: failures of the archive file itself are steps of `BackupCycle.MakeCandidate`; the ZIP container without its comment is an arbitrary function of the members (`Formats.container`), and a ZIP64 record before its end record is not looked into.
- A ZIP reader that lands on an end record other than the archive's own is taken to decode no identity, since what follows is a proper tail of the identity's JSON text.
- Sanitizing log fields other than messages, a loop over the same function (src/log_sanitizer.go:43-60).
- Making root paths canonical and checking that they are disjoint (src/root_paths.go:14-41): roots are two separate trees.
- The directory listing shown with file-directory prompts, and the display order of inspection entries.
- User answers are functions of the comparison, given in advance.
- Executor.SyncRoots.RetryLocked: retries end after any finite `patience`; the source's loop has no bound, and the model says nothing of a file that stays locked forever.
- Identifiers, time stamps and the random part of temporary names are inputs of a cycle.
- Log messages of a cycle: a failing log call is an ordinary fault.
- Absolute Windows names in archive entries (drive letters): names are judged by the slash rules only.
- Remote listing validation, capabilities, endpoint URL parsing, SSH and SFTP.
- Interactive configuration, command parsing, credentials, the logging coordinator and formatter, watch-loop timing and the configuration codec.
