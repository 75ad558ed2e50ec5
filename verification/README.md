# Verified model of the MH3G save converter

A Dafny 4.11 model of the behaviour of the MH3G save converter that carries the most risk for a user's save: the
transactional installer of the StreetPass (`cec`) cache, the planner that feeds it, the compatibility repair of saves
converted by old releases, the coordinator that writes a repaired set, the Windows compatibility wrapper, the bit
tables that are remapped or preserved, the digests that bind one step to the next, and the write rules of the Windows
front end. `dafny verify dfyconfig.toml` checks everything.

## How it is organised

| file | what it models |
|---|---|
| `Base.dfy`, `Words.dfy` | bytes, results, digests, byte-range updates, words in either byte order |
| `Profile.dfy`, `CrcTable.dfy` | CRC-32 file headers, the recognition of save containers, and the checksum's table form |
| `Canonical.dfy` | the length-prefixed byte strings that are hashed |
| `CecPlan.dfy`, `CecPlanProperties.dfy`, `CecPlanMeaning.dfy` | reading received records and planning them into 50 fixed slots, and what that means for the bytes |
| `CecFiles.dfy` | a directory whose primitives may fail or stop half way |
| `CecInstall.dfy`, `CecRollback.dfy`, `CecCommands.dfy` | the install transaction, its rollback, and the commands that take the lock |
| `CecProtocol.dfy` | any number of install and rollback processes, interleaved and crashing |
| `RepairFields.dfy`, `RepairLayout.dfy`, `Merge.dfy` | the repair fields, their layout as arithmetic on byte positions, and the three-way merge |
| `Detection.dfy`, `RevisionChoice.dfy`, `RevisionMeaning.dfy` | release detection, combination and choice, and what they mean for the fields of a set |
| `RepairCoordinator.dfy` | writing a repaired set in two sub-transactions with compensation, and undoing it |
| `CommandLine.dfy` | printing a Windows command line and the documented rules that parse it |
| `StagedPatch.dfy`, `WrapperPatch.dfy` | patching the complement of an old table in place |
| `QuestProgress.dfy`, `Events.dfy` | the quest completion permutation and the event flags |
| `Authorization.dfy` | when the Windows front end may hand a write to the converter |

Every file primitive either happens whole, fails, or (for a write) fails and leaves a file behind, incomplete or whole;
a crash may come between any two of them. SHA-256 is taken as collision free. The converters themselves, the guild-card
correction, the emulator probe, mailbox contents, what the disk holds when it is looked at and what the converter
answers are parameters.

## What the proofs found

* A `cec` rollback can be cut off after any primitive and run again, with one exception: when the installed bytes equal
  the previous ones and the backup is already gone while the manifest is not. Every completing rollback passes through
  the disk with the target restored, the backup gone and the manifest left (`CecRollback.RollbackUnderLock`), so after
  an install that changed nothing the exception is reached and the rerun is refused
  (`CecRollback.UnchangedInstallCanGetStuck`); `CecRollback.ChangedInstallNeverStuck` shows it needs such an install,
  and `CecRollback.RollbackUnderLock` that it is the only one.
* The promise of the `cec` lock, that no transaction takes a half-committed target for its prior state, is kept exactly
  in the runs in which no install begins after one was given up half way (`CecProtocol.InstallBeginsOnCommittedTarget`).
  An install is given up half way exactly when there is no manifest, the target is not the one it found, and its command
  reported that neither restoring the target nor publishing the recovery manifest worked, or it is dead and its stale
  lock is cleared (`CecProtocol.StepKeeps`, `CecProtocol.DamageArises`). In every run the first install after that takes
  a target for its prior state that no finished transaction has left (`CecProtocol.FirstInstallAfterDamage`), and after
  a single damage the history of the transactions is serial exactly until another install enters it
  (`CecProtocol.OneDamageBreaksHistory`). Both kinds of damage are reached
  (`CecProtocol.DamageLeadsToHalfCommittedPrior`); every successful install passes through the disk on which a crash
  does it (`CecInstall.InstallCecTransaction`, `CecProtocol.CrashReachesHalfCommittedPrior`). Mutual exclusion and the
  target a rollback returns do not depend on damage.
* Planning the same records again is a no-op exactly when no record converts to all zeros or a blank slot remains
  (`CecPlanProperties.ReplanIsNoOp`). A card that is blank but for a crown bit the conversion drops is a record for
  which it is not: the second planning is refused (`CecPlanProperties.DroppedCrownBlocksReplan`).
* A coordinated repair whose staging directory cannot be created returns after the slot has been written and leaves it
  written (`RepairCoordinator.RepairIsAllOrNothing`). A guild-card exchange that fails half way is reported together
  with its journal, not compensated.
* A repair rollback restores guild cards that have gone missing along with the others
  (`RepairCoordinator.MissingCardsAreRestored`). One that stopped half way can be run again, with two exceptions
  (`RepairCoordinator.InterruptedRollback`): after it consumed the slot manifest, when every output is already restored,
  and after it restored a missing card that the installation had not changed, because the rerun takes the restored bytes
  for the installed ones and finds the staging file gone (`RepairCoordinator.RestoredCardBlocksRerun`).
* A set that can be detected is never refused for want of a candidate; the error the program has for that cannot occur
  (`RevisionMeaning.ChoiceMeaning`).
* Every message the import takes for a received card is one the wrapper patches; the converse needs the recorded length
  and the size of the body besides (`WrapperPatch.PlannerAndWrapperAgree`).
* The remapped quest table shows the same progress as the original exactly when quests that share a target bit agree;
  distinct targets suffice (`QuestProgress.ProgressSurvives`).
* Arguments survive quoting and parsing exactly when the program name holds no quote, and then whatever they are; the
  program name itself survives exactly when, besides, it does not end in a backslash (`CommandLine.LineRoundTrip`). A
  program name that is a single quote makes one argument out of none (`CommandLine.QuoteAloneGivesAnArgument`).

## Model

| member | source | states |
|---|---|---|
| Profile.ComputeCrc32 | crates/mh3g-save-convert/src/profile.rs:62-75 | the nested bit loops compute the reflected CRC-32, equal to the table form by `CrcTable.ChecksumByTable` |
| CrcTable.ChecksumByTable | crates/mh3g-save-convert/src/profile.rs:62-75 | feeding names bit by bit gives the checksum of the table-driven code in section 8 of RFC 1952, because a step is linear and only shifts zero bits |
| Profile.CrcSeparatesOneByteChange | crates/mh3g-save-convert/src/profile.rs:62-75 | two names of one length that differ in exactly one byte never share a CRC-32 |
| Profile.BuildJpCemuHeader | crates/mh3g-save-convert/src/profile.rs:24-60 | a header is built exactly for an ASCII name and a length that fits 32 bits; its fixed words do not depend on the name and its sixth is the complemented CRC-32 of the name |
| Profile.BuiltSlotHeaderIsRecognized | crates/mh3g-save-convert/src/profile.rs:92-116 | every slot header the converter builds is recognized again, whatever the name's checksum |
| Profile.SlotForms | crates/mh3g-save-convert/src/profile.rs:92-116 | a file is a character slot of either console exactly by its size and its literal header bytes, the checksum bytes of the Wii U header left free; no file is both |
| Profile.ExternalComponentsNeverAlias | crates/mh3g-save-convert/src/converter.rs:53-68 | a container is valid for one component only: one stored under a sibling's name is rejected |
| Profile.ExternalForms | crates/mh3g-save-convert/src/converter.rs:53-68 | an external container has exactly its own size and a header with the complemented checksum of its own name and that size |
| Canonical.ConcatDecodes | crates/save-domain/src/lib.rs:40-48 | equal concatenations of prefix codes come from equal lists: the hashed strings decode uniquely |
| Canonical.SnapshotIdFromParts | crates/save-domain/src/lib.rs:40-48 | the loop hashes the domain and the length-prefixed parts |
| Canonical.SnapshotIdDeterminesParts | crates/save-domain/src/lib.rs:40-48 | equal snapshot ids mean equal lists of parts |
| Canonical.ComponentSetSha256 | crates/mh3g-save-convert/src/main.rs:1700-1710 | the loop over names in order hashes the domain and one entry per component |
| Canonical.ComponentSetDigestDeterminesMap | crates/mh3g-save-convert/src/main.rs:1700-1710 | equal component-set digests mean the same names with the same bytes |
| Canonical.OutputStateSha256 | crates/mh3g-save-convert/src/main.rs:1712-1727 | likewise for components that may be absent |
| Canonical.OutputStateDigestDeterminesMap | crates/mh3g-save-convert/src/main.rs:1712-1727 | equal output-state digests mean the same names, present or absent alike, with the same bytes |
| Canonical.KindsNeverCollide | crates/mh3g-save-convert/src/main.rs:1700-1727 | snapshot, component-set and output-state digests are never taken of the same bytes, whatever goes in |
| CecPlan.ReadMh3gRecord | crates/mh3g-save-convert/src/cec.rs:438-480 | yields the record exactly for a message whose magic, sizes, title and reserved word are those of a card and whose record is not blank: the last 0x2A00 bytes of the body |
| CecPlan.CollectReceivedMh3gRecords | crates/mh3g-save-convert/src/cec.rs:489-518 | fails exactly on an unreadable message; otherwise one source for each distinct record received, each with its own digest |
| CecPlanMeaning.ReceivedRecords | crates/mh3g-save-convert/src/cec.rs:438-518 | a record is received exactly when some readable message carries it: magic, title and reserved bytes at their offsets, the recorded sizes, and the record behind header and prefix |
| CecPlan.RecordRangesTile | crates/mh3g-save-convert/src/cec.rs:562-574 | the 50 slot ranges follow one another without gap or overlap and end within the container |
| CecPlan.ConvertCollectedCecRecords | crates/mh3g-save-convert/src/cec.rs:588-678 | the sorting, searching and copying loops compute the plan, or its error |
| CecPlan.PlaceWrites | crates/mh3g-save-convert/src/cec.rs:588-678 | placing records writes each into its slot and changes no other slot and nothing before the record area |
| CecPlanProperties.RecordSetFingerprint | crates/mh3g-save-convert/src/cec.rs:528-539 | record-set digests are equal exactly when the sets of record hashes are |
| CecPlanProperties.FingerprintIsItsOwnKind | crates/mh3g-save-convert/src/cec.rs:520-539 | the record-set digest is never taken of the bytes another kind of digest is taken of, which is what its domain is for |
| CecPlanProperties.PlanDependsOnRecordSetOnly | crates/mh3g-save-convert/src/cec.rs:489-678 | mailbox names, order and duplicates have no influence on bytes, slots, digests or errors of a plan |
| CecPlanProperties.PlanKeepsEverythingElse | crates/mh3g-save-convert/src/cec.rs:588-678 | a plan keeps the header, the bytes before the record area and every occupied slot, and fills strictly increasing blank slots at or after the request |
| CecPlanProperties.PlanCompletes | crates/mh3g-save-convert/src/cec.rs:588-678 | every converted record that is not all zeros is in some slot of the result |
| CecPlanProperties.PlanFailsExactlyWhenShort | crates/mh3g-save-convert/src/cec.rs:588-678 | planning fails exactly when more records are missing than eligible blank slots remain |
| CecPlanMeaning.PlanRefusals | crates/mh3g-save-convert/src/cec.rs:588-678 | each error of the planner has its exact condition on the bytes: container not recognized, nothing received, requested slot out of range, or more records whose cards no slot holds than blank slots at or after the request |
| CecPlanMeaning.PlanMeaning | crates/mh3g-save-convert/src/cec.rs:588-678 | a plan lists the missing records by digest in ascending order and puts each, card for card corrected in its own place, into the lowest blank slots at or after the request; every other byte stays, and both hashes are those of the bytes |
| CecPlanMeaning.EveryCardArrives | crates/mh3g-save-convert/src/cec.rs:608-678 | for every received record some slot of the result holds, at each third of it, the corrected card of the same third, or all three are corrected to zeros |
| CecPlanProperties.ReplanIsNoOp | crates/mh3g-save-convert/src/cec.rs:588-678 | planning into the plan's own output changes nothing exactly when no record converts to all zeros or a blank slot is left, and otherwise fails for want of a slot |
| CecPlanProperties.ReplanFails | crates/mh3g-save-convert/src/cec.rs:588-678 | a record that converts to all zeros and one that takes the last blank slot are planned once and refused the second time |
| CecPlanProperties.DroppedCrownBlocksReplan | crates/mh3g-save-convert/src/transforms.rs:391-398 | such a pair exists: one crown bit the conversion drops makes a received record blank |
| CecPlanProperties.DryRunBindsWrite | crates/mh3g-save-convert/src/cec.rs:807-899 | equal record-set and target digests and the same slot give the same planned bytes, whatever happened to the mailbox files |
| CecFiles.CecDirectory.WriteNewFile | crates/mh3g-save-convert/src/transaction.rs:976-1003 | creates, writes and syncs a file that must not exist; a failure leaves nothing, or the file it names, incomplete or whole |
| CecFiles.CecDirectory.AtomicReplace | crates/mh3g-save-convert/src/transaction.rs:1023-1031 | replaces a file by way of a staged copy: every state in between has the old or the new content |
| CecInstall.Attempt | crates/mh3g-save-convert/src/cec.rs:901-979 | the forward steps of the transaction, with exact progress flags for what a failure has to undo; once the target is installed the disk without a manifest has been passed through |
| CecInstall.Compensate | crates/mh3g-save-convert/src/cec.rs:981-1043 | without cleanup errors the directory is as before; if the target is not restored the backup is kept and the recovery manifest is published or its failure reported |
| CecInstall.InstallCecTransaction | crates/mh3g-save-convert/src/cec.rs:901-1043 | in every state passed through, the prior bytes are in the target or in the hash-named backup; success is exactly planned bytes, backup and binding manifest, and has passed the disk without the manifest; failure is compensated as above; an undisturbed run succeeds exactly when no other file has the backup's name |
| CecRollback.RollbackUnderLock | crates/mh3g-save-convert/src/cec.rs:1061-1232 | success restores the recorded target, removes backup and manifest, and has passed the disk with only the manifest left; refused without effect while the emulator runs or for an unrecognized target; an undisturbed run completes exactly when the disk is not the stuck one |
| CecRollback.CutStaysRecoverable | crates/mh3g-save-convert/src/cec.rs:1061-1232 | whatever primitive a rollback is cut off after, the prior target is still recoverable or already back |
| CecRollback.RestartAfterCut | crates/mh3g-save-convert/src/cec.rs:1061-1232 | running a cut rollback again ends with the exact prior bytes or absence and no manifest, on any disk but the stuck one |
| CecRollback.ChangedInstallNeverStuck | crates/mh3g-save-convert/src/cec.rs:1061-1232 | the stuck disk needs an install that wrote back the bytes it found |
| CecRollback.UnchangedInstallCanGetStuck | crates/mh3g-save-convert/src/cec.rs:1061-1232 | after such an install an undisturbed rollback completes and on its way passes through the stuck disk, on which a rerun is refused |
| CecRollback.PublishedInstallIsRecoverable | crates/mh3g-save-convert/src/cec.rs:901-1232 | every cut or failed install with a published manifest can be rolled back, to the target it found |
| CecRollback.RollbackUndoesInstall | crates/mh3g-save-convert/src/cec.rs:901-1232 | rolling back a completed install gives the directory the install found |
| CecCommands.AcquireLock | crates/mh3g-save-convert/src/cec.rs:173-195 | the lock is taken only when there is none, and then always in an undisturbed run; nothing else changes |
| CecCommands.PrepareCecInstall | crates/mh3g-save-convert/src/cec.rs:735-805 | refuses when the emulator runs, a manifest exists or the target is no container, and otherwise reads the prior target; undisturbed, exactly then |
| CecCommands.PlanUnderLock | crates/mh3g-save-convert/src/cec.rs:851-899 | plans exactly when every message can be read and some collection of the received records meets the expectations and fits |
| CecCommands.WhenPlannable | crates/mh3g-save-convert/src/cec.rs:851-899 | a mailbox can be planned exactly when none of the four refusals applies and the expected fingerprints, where given, are those of what is there |
| CecCommands.InstallCecFromSource | crates/mh3g-save-convert/src/cec.rs:851-899 | plans under the lock from what is there now, checks the expected hashes, and installs: the target then holds the planned bytes, in which exactly the records the mailbox carries are placed into the container found; the manifest has their digests in order, the hash of those bytes and that of the replaced target, whose bytes are in the backup of that name, and no other file has changed. Refused without effect when locked, outstanding, running or on an unrecognized target; the prior cache survives every cut; undisturbed, it succeeds exactly when everything it needs is there, and gives the lock back |
| CecCommands.WriteMatchesDryRun | crates/mh3g-save-convert/src/cec.rs:851-899 | a guarded write that succeeds installs exactly the bytes and slots the Dry Run reported |
| CecCommands.DryRun | crates/mh3g-save-convert/src/main.rs:716-735 | plans without the lock, exactly when every message can be read and the records can be planned |
| CecCommands.WriteAfterDryRun | crates/mh3g-save-convert/src/main.rs:676-749 | a Dry Run and then, whatever has happened in between, a write guarded by the two fingerprints it reported: if the write succeeds, the target on the disk holds the reported bytes, and mailbox and target are what the Dry Run saw |
| CecCommands.RollbackCec | crates/mh3g-save-convert/src/cec.rs:1061-1232 | the rollback under its lock: the target is what the manifest says was replaced, manifest and backup are gone, and no other file has changed; refused without effect when locked, running, or when the target is neither the installed nor the replaced bytes; every state passed through is one of a rollback; undisturbed on a recoverable disk it completes exactly when the disk is not stuck, and gives the lock back |
| CecCommands.ImportThenRollBack | crates/mh3g-save-convert/src/cec.rs:851-1232 | an import and then a rollback leave every file but the lock and the backup as it was, and undisturbed both go through whenever the import can |
| CecProtocol.StepKeeps | crates/mh3g-save-convert/src/cec.rs:163-201 | every step of every process keeps the invariant, whatever has happened before, and puts target and history out of step exactly when it gives an install up half way: a reported double failure or a dead install's lock cleared, with no manifest and another target than it found |
| CecProtocol.EveryRunIsSerializable | crates/mh3g-save-convert/src/cec.rs:735-805 | over every interleaving with crashes and cleared locks, the finished transactions form a serial history exactly if every install that entered it stood on the target the history had left |
| CecProtocol.EveryRunIsExclusive | crates/mh3g-save-convert/src/cec.rs:163-201 | in every run, damage or not, at most one process is inside a transaction |
| CecProtocol.DamageArises | crates/mh3g-save-convert/src/cec.rs:981-1043 | in every run, target and history get out of step exactly at a step that gives an install up half way |
| CecProtocol.SerialUntilPublishedAfterDamage | crates/mh3g-save-convert/src/cec.rs:735-805 | the history is serial as long as no install has entered it after one was given up half way |
| CecProtocol.OneDamageBreaksHistory | crates/mh3g-save-convert/src/cec.rs:735-805 | after a single damage the history is serial exactly until another install enters it |
| CecProtocol.InstallBeginsOnCommittedTarget | crates/mh3g-save-convert/src/cec.rs:735-805 | in every run, all installs begin with nothing outstanding on the target the history left, if and only if none begins after one was given up half way |
| CecProtocol.FirstInstallAfterDamage | crates/mh3g-save-convert/src/cec.rs:735-805 | in every run, the first install that begins after the first damage takes another target for its prior state than the history left |
| CecProtocol.RollbackReturnsPriorTarget | crates/mh3g-save-convert/src/cec.rs:1083-1232 | in every run, damage or not, a rollback that ends without its manifest leaves the target the install it ends had found |
| CecProtocol.DamageNeedsTwoFailures | crates/mh3g-save-convert/src/cec.rs:981-1043 | a command leaves another target than it found and no manifest only if it reports that restoring and publishing the recovery manifest both failed |
| CecProtocol.DamageLeadsToHalfCommittedPrior | crates/mh3g-save-convert/src/cec.rs:735-805 | runs for both kinds of damage in which a second install then takes the half-committed bytes as prior |
| CecProtocol.CrashReachesHalfCommittedPrior | crates/mh3g-save-convert/src/cec.rs:901-979 | the disk at the crash in that run is one an undisturbed install passes through |
| CecProtocol.InstallIsARun | crates/mh3g-save-convert/src/cec.rs:901-1043 | the protocol leaves out nothing the install transaction does: every disk it passes through is a write its process may do and die on, and every end it comes to is an end of the process |
| CecProtocol.RollbackIsARun | crates/mh3g-save-convert/src/cec.rs:1061-1232 | the same for the rollback |
| CecProtocol.LockRules | crates/mh3g-save-convert/src/cec.rs:163-201 | the lock is taken exactly when it is free, keeps everyone else out, and may be cleared by hand exactly when nobody is at work |
| RepairFields.FieldsAreApartAndInBounds | crates/mh3g-save-convert/src/compatibility.rs:454-621 | the generated fields are pairwise disjoint and lie between header and end, for character slots and all 98 card slots |
| RepairFields.RepairFields | crates/mh3g-save-convert/src/compatibility.rs:454-621 | the nested loops list exactly those fields, nothing for card box and quests, and refuse other files |
| RepairLayout.FieldsHaveLayout | crates/mh3g-save-convert/src/compatibility.rs:454-621 | the listed fields are exactly the naturally aligned cells of an arithmetic layout of byte positions, 673 in a character slot and 24500 in a guild-card file |
| RepairLayout.CoveredBytes | crates/mh3g-save-convert/src/compatibility.rs:454-621 | a byte lies in a field exactly when the layout gives its position a width, and the field is the aligned cell of that width |
| Merge.MergedIsThreeWay | crates/mh3g-save-convert/src/compatibility.rs:318-342 | writing field after field yields the three-way merge: historical value becomes latest, anything else is kept whole, bytes outside stay |
| Merge.ThreeWayIsUnique | crates/mh3g-save-convert/src/compatibility.rs:318-342 | that meaning leaves no freedom: any two such results are equal |
| Merge.MergeIsIdempotent | crates/mh3g-save-convert/src/compatibility.rs:308-366 | merging again with the same release changes nothing and repairs zero fields |
| Merge.MergeStaysValid | crates/mh3g-save-convert/src/compatibility.rs:344 | the closing validation of the merged bytes never fails |
| Merge.MergeFields | crates/mh3g-save-convert/src/compatibility.rs:318-342 | one pass computes both the merged bytes and the list of repaired, current and conflicting fields |
| Merge.MergedCandidateBytes | crates/mh3g-save-convert/src/compatibility.rs:627-642 | the bytes detection compares are those of the real merge |
| Merge.MergeComponent | crates/mh3g-save-convert/src/compatibility.rs:308-366 | succeeds exactly when original and component are character slots of the two consoles, or the component is a container of its name, and the two conversions succeed; gives a merged container of the same component and counts that match the listed fields |
| RepairLayout.MergedBytes | crates/mh3g-save-convert/src/compatibility.rs:308-366 | what a merge does to each byte: outside the layout it stays; inside, it takes the latest byte exactly when its whole cell still holds the historical bytes |
| RevisionMeaning.ReportMeaning | crates/mh3g-save-convert/src/compatibility.rs:344-365 | the three counts of a merge report are the numbers of fields on which the conversions differ and that hold the historical, the latest or other bytes |
| Detection.ScoreRevision | crates/mh3g-save-convert/src/compatibility.rs:153-180 | the counting loop computes the tally of one release |
| Detection.ScoresPredictTheMerge | crates/mh3g-save-convert/src/compatibility.rs:153-180 | historical, current and conflicting counts add up to the field count; historical matches are exactly the fields a merge repairs, and preserved conflicts differ from conflicts by the fields both conversions agree on |
| Detection.FullScore | crates/mh3g-save-convert/src/compatibility.rs:153-180 | a release scores every field exactly when the component holds its value in every field |
| RevisionMeaning.TallyMeaning | crates/mh3g-save-convert/src/compatibility.rs:153-180 | the four counts of a score are the numbers of fields that hold the release's bytes, those of them that are not up to date, the fields that hold the latest bytes, and the others |
| Detection.TiedMergesIdentical | crates/mh3g-save-convert/src/compatibility.rs:200-205 | comparing neighbours decides whether all tied releases merge to the same bytes |
| Detection.DetectFields | crates/mh3g-save-convert/src/compatibility.rs:132-217 | candidates are exactly the best matching releases and the confidence says whether choosing among them matters |
| Detection.DetectComponentRevision | crates/mh3g-save-convert/src/compatibility.rs:125-218 | succeeds exactly when original and component belong together as above and all five conversions of the original succeed, with a detection as above |
| RevisionMeaning.DivideMeansDifferent | crates/mh3g-save-convert/src/compatibility.rs:200-205 | merges from two releases differ exactly when some field that is not up to date holds what one of them wrote there and not what the other did |
| RevisionMeaning.DetectionMeaning | crates/mh3g-save-convert/src/compatibility.rs:182-217 | a component is recognized exactly when it has no fields or some field holds what some release or the latest conversion writes; the candidates are the releases most fields agree with; it is ambiguous exactly when two of those divide it |
| RevisionChoice.CombineIgnoresOrder | crates/mh3g-save-convert/src/compatibility.rs:220-306 | permuting the detections leaves scores, candidates and confidence unchanged |
| RevisionChoice.CombinedCandidates | crates/mh3g-save-convert/src/compatibility.rs:250-299 | the decision names exactly the releases all informative components agree on, else, as ambiguous, those some component speaks for, else, as unknown, all |
| RevisionChoice.TotalsPredictTheRepair | crates/mh3g-save-convert/src/compatibility.rs:220-249 | a release's combined counts cover every field of the set once, and its historical matches are the fields the whole repair rewrites |
| RevisionChoice.AgreementCombines | crates/mh3g-save-convert/src/compatibility.rs:263-299 | detections that agree on a release combine to an exact or compatible decision whose candidates hold for each of them |
| RevisionChoice.UntouchedComponentIsRecognized | crates/mh3g-save-convert/src/compatibility.rs:182-217 | a component untouched since a release is never ambiguous or unknown, and that release is a candidate |
| RevisionChoice.UntouchedSetIsRepaired | crates/mh3g-save-convert/src/main.rs:1648-1698 | a set that still holds what one release wrote is repaired without asking: every field becomes the latest, all else stays |
| RevisionChoice.UntouchedConversionIsUpgraded | crates/mh3g-save-convert/src/main.rs:1277-1325 | the same result for detection, combination, choice and merges from the converters on the files of a set |
| RevisionMeaning.ChoiceMeaning | crates/mh3g-save-convert/src/main.rs:1648-1698 | a request is taken as made, and refused exactly when no component supports it while some supports another release; without one a set is unrecognized exactly when no component says anything, and ambiguous, unless previewed, exactly when the components agree on no release, or on several while one is divided; otherwise the earliest release they agree on is taken, in a preview failing that the earliest any names; the error for no candidate never occurs |
| RevisionMeaning.RepairSet | crates/mh3g-save-convert/src/main.rs:1277-1325 | a detectable set is refused, or every component merged from one release, exactly as the fields decide; a request that is met is met with the requested release; a detectable set untouched since some release is repaired without asking |
| RevisionChoice.CandidatesAreInterchangeable | crates/mh3g-save-convert/src/compatibility.rs:250-299 | candidates of a compatible or exact decision give identical merges of every component, unknown ones included |
| RevisionChoice.AutomaticChoiceIsNoGuess | crates/mh3g-save-convert/src/main.rs:1648-1698 | whatever candidate another choice had taken, the written bytes would be the same |
| RevisionChoice.RefusedRequestWouldChangeNothing | crates/mh3g-save-convert/src/main.rs:1653-1668 | a requested release refused as contradicted would not have changed a byte |
| RepairCoordinator.RequireExpectations | crates/mh3g-save-convert/src/main.rs:1334-1357 | a write needs every expected fingerprint to be given and equal, the output's when an output was selected |
| RepairCoordinator.RepairOutputs.InstallGuildCards | crates/mh3g-save-convert/src/extras_transaction.rs:1532-1695 | four exchanges with staging files behind a journal: all or nothing before the first, afterwards each card and its staging file hold the old and the new bytes between them |
| RepairCoordinator.RepairOutputs.UndoGuildCards | crates/mh3g-save-convert/src/extras_transaction.rs:1780-1900 | exchanges new cards back and puts missing ones in place, skips what is already restored, refuses anything else before it touches a card, keeps the journal |
| RepairCoordinator.RepairOutputs.UndoCore | crates/mh3g-save-convert/src/transaction.rs:455-601 | restores the previous slot and consumes the manifest; refuses a slot that is neither |
| RepairCoordinator.RepairConverted | crates/mh3g-save-convert/src/main.rs:1157-1526 | each outcome accounts for the state it leaves; nothing is written unless source, current, preview and, when selected, output fingerprint are given and equal the observed ones; an undisturbed write completes |
| RepairCoordinator.RepairIsAllOrNothing | crates/mh3g-save-convert/src/main.rs:1359-1500 | an outcome that names no failed undo is either complete, with a record of exactly the sub-manifests made, or leaves all outputs as before, except after a failed staging directory |
| RepairCoordinator.NothingIsLost | crates/mh3g-save-convert/src/main.rs:1359-1500 | short of a failed slot cleanup, every output is as before or its prior bytes are in the manifest or journal |
| RepairCoordinator.RollbackRepair | crates/mh3g-save-convert/src/main.rs:1545-1646 | restores exactly the outputs the record names, missing cards included; a card that is none of absent, old and new is refused untouched; an interrupted run leaves a stated partial state; undisturbed it succeeds exactly when it can |
| RepairCoordinator.CompletedRepairIsUndoable | crates/mh3g-save-convert/src/main.rs:1545-1646 | a completed repair can be rolled back, to the outputs it found |
| RepairCoordinator.MissingCardsAreRestored | crates/mh3g-save-convert/src/extras_transaction.rs:2947-3020 | deleting guild cards after a completed repair does not stand in the way of its rollback |
| RepairCoordinator.InterruptedRollback | crates/mh3g-save-convert/src/main.rs:1545-1646 | a partial rollback can be finished to the same outputs exactly unless the slot manifest is already consumed, when all outputs are restored, or a missing card was restored that the installation had not changed |
| RepairCoordinator.RestoredCardBlocksRerun | crates/mh3g-save-convert/src/extras_transaction.rs:1780-1900 | the second exception is reached: a rollback that stopped at a foreign slot is refused at the restored card once the slot is put right |
| RepairCoordinator.RepairThenRollBack | crates/mh3g-save-convert/src/main.rs:1157-1646 | write and rollback in sequence leave the outputs and records found |
| CommandLine.QuoteArg | tools/compatibility-wrapper/wrapper.c:185 | the loops over the buffer print the quoted argument and a terminator and touch nothing behind it |
| CommandLine.BuildCmd | tools/compatibility-wrapper/wrapper.c:186 | the buffer of exactly the computed capacity receives the whole line and its terminator |
| CommandLine.LineFits | tools/compatibility-wrapper/wrapper.c:186 | for any arguments the line with its terminator fits the capacity and holds no earlier terminator |
| CommandLine.ScanBody | tools/compatibility-wrapper/wrapper.c:185 | scanning a printed argument up to its closing quote yields the argument, for any run of backslashes |
| CommandLine.LineRoundTrip | tools/compatibility-wrapper/wrapper.c:185-186 | the documented `CommandLineToArgvW` rules give arguments 1 to n back exactly when the program name holds no quote, and argument 0 exactly when, besides, it does not end in a backslash |
| CommandLine.QuoteSpoilsArguments | tools/compatibility-wrapper/wrapper.c:185-186 | with a quote in the program name the arguments never come back, whatever they are |
| CommandLine.QuoteAloneGivesAnArgument | tools/compatibility-wrapper/wrapper.c:185-186 | the shortest such name: no argument goes in and one comes out |
| StagedPatch.ApplyTransformsOnce | tools/compatibility-wrapper/validate_patch.py:61-93 | a list of cells without repetition transforms each listed cell once and nothing else, in whatever order |
| StagedPatch.StagedEqualsDirect | tools/compatibility-wrapper/validate_patch.py:61-93 | missing cells first, the table's cells later in any order, equals the direct patch of the original: each cell once and nothing else |
| WrapperPatch.ArenaIsBijective | tools/compatibility-wrapper/wrapper.c:131 | the arena conversion has an inverse on both sides |
| WrapperPatch.LanesAreARotation | crates/mh3g-save-convert/src/transforms.rs:253-266 | the converter's two linked 16-bit lanes are the wrapper's 32-bit rotation |
| WrapperPatch.KeysAndPlacesInvert | tools/compatibility-wrapper/validate_patch.py:41-50 | slot and row, key, and place in the table determine each other |
| WrapperPatch.OldCardKey | tools/compatibility-wrapper/wrapper.c:167 | binary search finds a key exactly when the ascending table holds it |
| WrapperPatch.PatchCardFile | tools/compatibility-wrapper/wrapper.c:169-171 | on 98 cards of 110 rows, each row whose key 110 * slot + row the table misses is read least significant byte first, rotated left by 17 bits and stored most significant byte first; every other byte stays; any other file is refused untouched |
| WrapperPatch.PatchCecMessage | tools/compatibility-wrapper/wrapper.c:173-179 | the same for the rows of the three records of a card message that are neither below 64 nor in the old table, and leaves any other file alone |
| WrapperPatch.PlannerAndWrapperAgree | tools/compatibility-wrapper/wrapper.c:173-179 | the import takes a message for a received card exactly when the wrapper does and, besides, its recorded length is the file's and its body a prefix and a record |
| WrapperPatch.PatchUserFile | tools/compatibility-wrapper/wrapper.c:132-139 | exchanges the two bytes of each of the 2 x 105 companion lanes that is not in the old table and leaves every other byte, or refuses the file untouched |
| WrapperPatch.CardFileIsConverted | tools/compatibility-wrapper/validate_patch.py:76-84 | wrapper and table together, in any order of the table, turn all 98 x 110 rows exactly once and change no other byte |
| WrapperPatch.CardMessageIsConverted | tools/compatibility-wrapper/validate_patch.py:85-93 | likewise the 3 x 110 rows of a mailbox message |
| WrapperPatch.UserFileIsConverted | tools/compatibility-wrapper/validate_patch.py:63-75 | likewise exchange the bytes of all 2 x 105 companion lanes exactly once |
| QuestProgress.CollectWords | crates/mh3g-save-convert/src/progress.rs:59-71 | a bit of the target words is set exactly when an earned quest maps to it |
| QuestProgress.RemapQuestCompletion | crates/mh3g-save-convert/src/progress.rs:49-80 | the target table holds exactly the earned bits and bytes outside it are unchanged; wrong sizes are refused untouched |
| QuestProgress.RemapMeaning | crates/mh3g-save-convert/src/progress.rs:49-80 | the same bit for bit: bit t of the new table, in the mirrored byte of its word, is set exactly when byte s / 8 of the old one has bit s % 8 for a quest that maps s to t |
| QuestProgress.ProgressBits | crates/mh3g-save-convert/src/progress.rs:82-127 | what a save shows for each quest is the bit of that byte of the file, in the order of its console |
| QuestProgress.ProgressSurvives | crates/mh3g-save-convert/src/progress.rs:82-127 | the converted save shows the progress of the original exactly when quests sharing a bit agree, always with distinct targets |
| QuestProgress.UncataloguedBitsAreClear | crates/mh3g-save-convert/src/progress.rs:49-80 | bits no quest maps to are clear |
| Events.PreserveEventState | crates/mh3g-save-convert/src/events.rs:65-86 | half words come over byte-swapped, category bytes unchanged, everything else untouched |
| Events.TakeSnapshot | crates/mh3g-save-convert/src/events.rs:88-151 | the nested loops list the flags of a save in table order |
| Events.FullListCoversTheRegion | crates/mh3g-save-convert/src/events.rs:125-145 | with unset flags, categories 1 to 19 list every bit of the region exactly once in a fixed order |
| Events.CoordinatesAreUnique | crates/mh3g-save-convert/src/events.rs:17-20 | coordinates and bits of the region determine each other |
| Events.SnapshotSurvives | crates/mh3g-save-convert/src/events.rs:65-151 | little-endian original and big-endian converted save have the same snapshot |
| Events.SnapshotIsTrue | crates/mh3g-save-convert/src/events.rs:88-151 | a snapshot lists exactly the catalogued flags and region bits that are set, or all of them, each with its state in the bytes of the file |
| Events.FullListsAlign | crates/mh3g-save-convert/src/main.rs:829-885 | full lists of any two saves name the same flag at every index |
| Events.MismatchesAreDifferences | crates/mh3g-save-convert/src/main.rs:829-885 | comparing by index reports a mismatch for exactly the flags that differ |
| Events.InspectEvents | crates/mh3g-save-convert/src/main.rs:821-900 | a report exists exactly for character slots; on one save it is the list of the set flags, or of all, in table order, and on two the list of the flags set in either, or of all, each once, with both states and whether they agree |
| Events.ReportIsTrue | crates/mh3g-save-convert/src/main.rs:821-900 | every entry of a report is the bit of the byte that its flag or coordinate stands for in the file, in the order of its console, with the comparison it claims; exactly the flags to be shown have one, those of the region once and in the order of their bytes and bits |
| Authorization.MainViewModel.CommitRepairOptionalScope | apps/mh3g-save-converter-windows/ViewModels/MainViewModel.cs:304-325 | a changed guild-card scope revokes the authorization and keeps a complete inspection; an unchanged one keeps both |
| Authorization.FoldedMeaning | apps/mh3g-save-converter-windows/Models/ConverterModels.cs:33-38 | comparing folded texts is comparing them letter by letter, case aside |
| Authorization.LookMeaning | apps/mh3g-save-converter-windows/Models/ConverterModels.cs:33-38 | two looks at the files match exactly when every file that counts has the path, presence and hash of the first |
| Authorization.MainViewModel.RunCoreDryRun | apps/mh3g-save-converter-windows/ViewModels/MainViewModel.cs:920-1069 | authorizes exactly when every file is before and after the Dry Run in path, presence and hash as it was inspected, and the report is complete and names their hashes |
| Authorization.GrantMeaning | apps/mh3g-save-converter-windows/ViewModels/MainViewModel.cs:920-1069 | the condition for a grant, from the files themselves and the fields of the inspection and the report |
| Authorization.MainViewModel.WriteCore | apps/mh3g-save-converter-windows/ViewModels/MainViewModel.cs:1071-1180 | hands over a write exactly when source, output and, for a repair, reference are each there, or absent, with the path and hash of the live authorization; any difference revokes it and hands over nothing; the command is the authorized one |
| Authorization.WriteMeaning | apps/mh3g-save-converter-windows/ViewModels/MainViewModel.cs:1095-1103 | the condition for a write, from the files themselves and the fields of the authorization |
| Authorization.ConvertIsJustified | apps/mh3g-save-converter-windows/ViewModels/MainViewModel.cs:1147-1166 | the hashes on a conversion's command line are those of the files just looked at, although they come from the Dry Run report |
| Authorization.Handle | apps/mh3g-save-converter-windows/ViewModels/MainViewModel.cs:249-378 | every user event keeps the invariant of live authorizations, and only a write with a live authorization hands one over and uses it up |
| Authorization.Session | apps/mh3g-save-converter-windows/ViewModels/MainViewModel.cs:249-1180 | over any sequence of user events every write handed over is of the files just seen and was authorized by a Dry Run among the events that found the same files and reported the hashes it carries |
| Authorization.UndisturbedConversion | apps/mh3g-save-converter-windows/ViewModels/MainViewModel.cs:820-1180 | inspect, Dry Run and write on files that stay as they are hand over exactly one write |
| Authorization.UndisturbedRepair | apps/mh3g-save-converter-windows/ViewModels/MainViewModel.cs:820-1180 | likewise for a repair, whose one command carries the digests the Dry Run reported |

## Left out

- The conversion tables of `transforms.rs` and `meow_transform_table.rs`: converters are arbitrary functions whose results are containers of the right component.
- RepairCoordinator.RepairOutputs.InstallCore: the slot transaction of `transaction.rs` is an install and undo pair; a compensation that itself fails leaves the slot old or new, and the manifest history kept for reinstalls is not modelled.
- RepairCoordinator.RepairOutputs.InstallGuildCards: directory anchoring, the second Dry Run inside the installer and writers other than this process are not modelled; the layout is the one in which the staging file receives the former bytes, not the Windows one that moves them to the backup file.
- RepairCoordinator.RepairOutputs.UndoCore: the backup file and the check of its hash are folded into the manifest, which holds the previous bytes itself.
- RepairCoordinator.RepairConverted: detection and merging are modelled in `RevisionChoice` and `Merge` and enter as merged bytes, and the observed fingerprints are inputs; what equal digests say about the files is proved in `Canonical`.
- Merge.MergeComponent: field names of the report are left out; conversion errors are opaque values.
- Detection.DetectComponentRevision: which of several errors is reported first is not stated.
- CecFiles.CecDirectory.WriteNewFile: symbolic links, permissions and the durability of directory syncs are not modelled.
- CecRollback.RollbackUnderLock: the hex spelling of hashes and the normalisation of paths in a manifest are not checked; a manifest is a typed value.
- CecPlanProperties.DroppedCrownBlocksReplan: of the guild-card correction only the crown bytes are modelled; on the otherwise blank card its other steps move zero bytes.
- CecPlan.ReadMh3gRecord: the fields of a message that only fill the inspection report are not modelled.
- CommandLine.BuildCmd: sizes are unbounded, so an allocation size that wraps around is not modelled.
- WrapperPatch.PatchCardFile: reading and writing the file and copying directory trees are not modelled; the table is any ascending one.
- QuestProgress.RemapQuestCompletion: the catalog is any one whose indices fit the 512-bit table, as the embedded one does.
- Events.TakeSnapshot: names and call sites attached to an event are left out; the catalog is any list of ids below 928.
- CecProtocol.EveryRunIsSerializable: a process that dies between taking the lock and beginning its transaction counts as one that refused and left the lock; a stale lock cleared under a live process is not modelled, because nothing in the program does it.
- Authorization.FoldedMeaning: letter case is that of the letters A to Z; other scripts are compared as they are.
- Authorization.MainViewModel.WriteCore: the path resolver's answer is an input; localisation, history, the system, extras and CEC panels and the synthetic fixture are left out.
- The `system` gallery union, the JSON and command-line parsing, emulator process enumeration, update checks, packaging and documentation checks.
- The encrypted sync engine and server.
