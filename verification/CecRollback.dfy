/** Rolling an installed `cec` cache back from its manifest. */
module CecRollback {
  import opened Base
  import opened CecFiles
  import CecInstall

  /** The manifest names this directory's target and a backup bound to the prior hash. */
  predicate WellBound(m: CecInstallManifest) {
    && m.version == 1 && m.target == Target
    && (m.previousSha256.Some? <==> m.backup.Some?)
    && (m.previousSha256.Some? ==> m.backup == Some(Backup(m.previousSha256.value)))
  }

  /** The disk carries a manifest the rollback accepts. */
  predicate Rollbackable(d: Disk) {
    Manifest in d && d[Manifest].ManifestFile? && WellBound(d[Manifest].manifest)
  }

  function ManifestIn(d: Disk): CecInstallManifest
    requires Rollbackable(d)
  {
    d[Manifest].manifest
  }

  /** What the target held before the install the manifest records. */
  function PriorTarget(m: CecInstallManifest): Option<File> {
    match m.previousSha256 case Some(h) => Some(Data(h.preimage)) case None => None
  }

  function FileAt(d: Disk, name: Name): Option<File> {
    if name in d then Some(d[name]) else None
  }

  predicate HasHash(file: Option<File>, hash: Digest) {
    file == Some(Data(hash.preimage))
  }

  /** The target is what the manifest installed, or already what it replaced. */
  predicate Recognized(d: Disk, m: CecInstallManifest) {
    HasHash(FileAt(d, Target), m.installedSha256) || FileAt(d, Target) == PriorTarget(m)
  }

  /** The backup, where there is one, has the prior bytes; it is there while the target is not yet
      restored. */
  ghost predicate BackupServes(d: Disk, m: CecInstallManifest) {
    m.previousSha256.Some? ==>
      var backup := FileAt(d, Backup(m.previousSha256.value));
      backup == PriorTarget(m) || (backup.None? && FileAt(d, Target) == PriorTarget(m))
  }

  /** A disk from which rolling back `m` can still be completed. */
  ghost predicate Recoverable(d: Disk, m: CecInstallManifest) {
    WellBound(m) && Holds(d, Manifest, ManifestFile(m)) && Recognized(d, m) && BackupServes(d, m)
  }

  /** The rollback is complete: the prior target, and no manifest. */
  ghost predicate RolledBack(d: Disk, m: CecInstallManifest) {
    FileAt(d, Target) == PriorTarget(m) && Manifest !in d
  }

  /** The prior target back and its backup gone, with the manifest still there: the disk on which all
      that is left to do is to remove the manifest. */
  function LastCut(d: Disk, m: CecInstallManifest): Disk {
    match m.previousSha256
    case Some(h) => d[Target := Data(h.preimage)] - {Backup(h)}
    case None => d - {Target}
  }

  /** The exact disk a completed rollback of `m` leaves. */
  function Restored(d: Disk, m: CecInstallManifest): Disk {
    LastCut(d, m) - {Manifest}
  }

  /** The one recoverable disk a rollback refuses: the install changed nothing, so the restored target
      still counts as installed, and the backup that would be put back is gone. */
  predicate Stuck(d: Disk, m: CecInstallManifest) {
    m.previousSha256 == Some(m.installedSha256) && Backup(m.installedSha256) !in d
  }

  ghost predicate Managed(m: CecInstallManifest, n: Name) {
    n == Target || n == Manifest || n.Temporary? || (m.previousSha256.Some? && n == Backup(m.previousSha256.value))
  }

  /** A state a rollback of `m` that started on `before` may be cut off in. */
  ghost predicate RollbackMid(before: Disk, m: CecInstallManifest, d: Disk) {
    && (FileAt(d, Target) == FileAt(before, Target) || FileAt(d, Target) == PriorTarget(m))
    && (SameFile(before, d, Manifest) || (Manifest !in d && FileAt(d, Target) == PriorTarget(m)))
    && (m.previousSha256.Some? ==>
          SameFile(before, d, Backup(m.previousSha256.value))
          || (Backup(m.previousSha256.value) !in d && FileAt(d, Target) == PriorTarget(m)))
    && forall n: Name :: !Managed(m, n) ==> SameFile(before, d, n)
  }

  /** Cutting a rollback anywhere leaves a disk it can be restarted on, or a finished one. */
  lemma CutStaysRecoverable(before: Disk, m: CecInstallManifest, d: Disk)
    requires Recoverable(before, m) && RollbackMid(before, m, d)
    ensures Recoverable(d, m) || RolledBack(d, m)
  {
  }

  lemma MidUpToStaging(before: Disk, m: CecInstallManifest, d: Disk, e: Disk)
    requires RollbackMid(before, m, d) && SameUpToStaging(d, e)
    ensures RollbackMid(before, m, e)
  {
    assert SameFile(d, e, Target) && SameFile(d, e, Manifest);
    if m.previousSha256.Some? {
      assert SameFile(d, e, Backup(m.previousSha256.value));
    }
    forall n: Name | !Managed(m, n) ensures SameFile(before, e, n) {
      assert SameFile(d, e, n);
    }
  }

  /** Puts the prior bytes back in the target and drops the backup. */
  method RestoreFromBackup(
      dir: CecDirectory, m: CecInstallManifest, hash: Digest, ghost before: Disk)
    returns (f: Option<Failure>)
    requires dir.Live() && dir.files == before && WellBound(m) && m.previousSha256 == Some(hash)
    requires forall d :: d in dir.visited ==> RollbackMid(before, m, d)
    modifies dir
    ensures dir.Live() && forall d :: d in dir.visited ==> RollbackMid(before, m, d)
    ensures f.None? ==> Backup(hash) in before && dir.files == LastCut(before, m)
    ensures Backup(hash) !in before ==> f.Some? && dir.files == before
    ensures dir.reliable && HasHash(FileAt(before, Backup(hash)), hash) ==> f.None?
  {
    var backup := dir.Read(Backup(hash));
    match backup {
      case Err(e) => return Some(e);
      case Ok(None) => return Some(Refused(BackupMissing));
      case Ok(Some(file)) =>
        if file != Data(hash.preimage) {
          return Some(Refused(BackupHashMismatch));
        }
        ghost var restored := before[Target := Data(hash.preimage)];
        assert RollbackMid(before, m, restored);
        f := dir.AtomicReplace(Target, hash.preimage);
        forall d | SameOrReplaced(before, d, Target, hash.preimage) ensures RollbackMid(before, m, d) {
          if SameUpToStaging(before, d) {
            MidUpToStaging(before, m, before, d);
          } else {
            MidUpToStaging(before, m, restored, d);
          }
        }
        if f.Some? {
          return;
        }
        assert RollbackMid(before, m, restored - {Backup(hash)});
        f := dir.RemoveIfRegularFile(Backup(hash));
    }
  }

  /** The target is already restored; drops the backup if it is still there. */
  method DropBackup(
      dir: CecDirectory, m: CecInstallManifest, hash: Digest, ghost before: Disk)
    returns (f: Option<Failure>)
    requires dir.Live() && dir.files == before && WellBound(m) && m.previousSha256 == Some(hash)
    requires FileAt(before, Target) == PriorTarget(m)
    requires forall d :: d in dir.visited ==> RollbackMid(before, m, d)
    modifies dir
    ensures dir.Live() && forall d :: d in dir.visited ==> RollbackMid(before, m, d)
    ensures f.None? ==> dir.files == before - {Backup(hash)}
    ensures dir.reliable && (Backup(hash) !in before || HasHash(FileAt(before, Backup(hash)), hash)) ==> f.None?
  {
    var backup := dir.Read(Backup(hash));
    match backup {
      case Err(e) => return Some(e);
      case Ok(None) => return None;
      case Ok(Some(file)) =>
        if file != Data(hash.preimage) {
          return Some(Refused(BackupHashMismatch));
        }
        assert RollbackMid(before, m, before - {Backup(hash)});
        f := dir.RemoveIfRegularFile(Backup(hash));
    }
  }

  /** Restores the target as the manifest says; refuses a target it does not recognize. */
  method RestoreRecorded(dir: CecDirectory, m: CecInstallManifest, ghost before: Disk) returns (f: Option<Failure>)
    requires dir.Live() && dir.files == before && WellBound(m)
    requires forall d :: d in dir.visited ==> RollbackMid(before, m, d)
    modifies dir
    ensures dir.Live() && forall d :: d in dir.visited ==> RollbackMid(before, m, d)
    ensures f.None? ==> dir.files == LastCut(before, m)
    ensures !Recognized(before, m) || Stuck(before, m) ==> f.Some? && dir.files == before
    ensures dir.reliable && Recognized(before, m) && BackupServes(before, m) && !Stuck(before, m) ==> f.None?
  {
    var current := dir.Read(Target);
    if current.Err? {
      return Some(current.error);
    }
    match m.previousSha256 {
      case Some(hash) =>
        if HasHash(current.value, m.installedSha256) {
          f := RestoreFromBackup(dir, m, hash, before);
        } else if HasHash(current.value, hash) {
          f := DropBackup(dir, m, hash, before);
          assert before[Target := Data(hash.preimage)] == before;
        } else {
          return Some(Refused(TargetMismatch));
        }
      case None =>
        if HasHash(current.value, m.installedSha256) {
          assert RollbackMid(before, m, before - {Target});
          f := dir.RemoveIfRegularFile(Target);
        } else if current.value.None? {
          return None;
        } else {
          return Some(Refused(TargetMismatch));
        }
    }
  }

  /** The rollback itself, once the directory is locked and the emulator known not to run. */
  method RollbackUnderLock(dir: CecDirectory, emulatorRunning: bool) returns (f: Option<Failure>)
    modifies dir
    ensures dir.Live()
    ensures forall d :: d in dir.visited ==>
      d == old(dir.files)
        || (Rollbackable(old(dir.files)) && RollbackMid(old(dir.files), ManifestIn(old(dir.files)), d))
    ensures f.None? ==>
      Rollbackable(old(dir.files)) && dir.files == Restored(old(dir.files), ManifestIn(old(dir.files)))
    // Every completing rollback passes through the disk on which only the manifest is left to remove.
    ensures f.None? ==> LastCut(old(dir.files), ManifestIn(old(dir.files))) in dir.visited
    ensures emulatorRunning ==> f.Some? && dir.files == old(dir.files)
    ensures Rollbackable(old(dir.files)) && !Recognized(old(dir.files), ManifestIn(old(dir.files))) ==>
      f.Some? && dir.files == old(dir.files)
    // An undisturbed run on a recoverable disk completes exactly when the disk is not stuck.
    ensures dir.reliable && !emulatorRunning && Rollbackable(old(dir.files))
      && Recoverable(old(dir.files), ManifestIn(old(dir.files)))
      ==> (f.None? <==> !Stuck(old(dir.files), ManifestIn(old(dir.files))))
  {
    dir.visited := {dir.files};
    ghost var before := dir.files;
    var file := dir.Read(Manifest);
    if file.Err? {
      return Some(file.error);
    }
    if file.value.None? {
      return Some(Refused(ManifestMissing));
    }
    if !file.value.value.ManifestFile? {
      return Some(Refused(ManifestMalformed));
    }
    var m := file.value.value.manifest;
    if m.version != 1 {
      return Some(Refused(UnsupportedVersion));
    }
    if m.target != Target {
      return Some(Refused(TargetNotBound));
    }
    if emulatorRunning {
      return Some(Refused(EmulatorRunning));
    }
    if !WellBound(m) {
      return Some(Refused(BackupNotBound));
    }
    f := RestoreRecorded(dir, m, before);
    if f.Some? {
      return;
    }
    assert RollbackMid(before, m, dir.files - {Manifest});
    f := dir.RemoveIfRegularFile(Manifest);
    if f.Some? {
      return;
    }
    f := dir.SyncDirectory();
  }

  // ---------------------------------------------------------------- restarting

  /** Cut a rollback off after any primitive, clear the stale lock and run it again undisturbed: it
      ends with the exact prior target and no manifest, unless the cut left the one stuck disk. */
  method RestartAfterCut(before: Disk, m: CecInstallManifest, cut: Disk) returns (finished: Disk)
    requires Recoverable(before, m) && RollbackMid(before, m, cut) && !RolledBack(cut, m)
    requires !Stuck(cut, m)
    ensures RolledBack(finished, m)
    ensures finished == Restored(cut, m)
  {
    CutStaysRecoverable(before, m, cut);
    var dir := new CecDirectory(cut, true);
    var f := RollbackUnderLock(dir, false);
    finished := dir.files;
  }

  /** An install that changed the bytes never leads to the stuck disk. */
  lemma ChangedInstallNeverStuck(d: Disk, m: CecInstallManifest)
    requires m.previousSha256 != Some(m.installedSha256)
    ensures !Stuck(d, m)
  {
  }

  /** The last cut, which every completing rollback passes through, is recoverable and not finished;
      it is stuck exactly when the install had written back the bytes it found. */
  lemma LastCutStuck(before: Disk, m: CecInstallManifest)
    requires Recoverable(before, m)
    ensures var cut := LastCut(before, m);
      RollbackMid(before, m, cut) && Recoverable(cut, m) && !RolledBack(cut, m)
      && (Stuck(cut, m) <==> m.previousSha256 == Some(m.installedSha256))
  {
  }

  /** An install that wrote back the bytes it found does: an undisturbed rollback of it completes,
      and on its way passes through the stuck disk, on which running it again is refused. */
  method UnchangedInstallCanGetStuck(before: Disk, m: CecInstallManifest)
    returns (dir: CecDirectory, rolledBack: Option<Failure>, rerun: Option<Failure>)
    requires Recoverable(before, m) && m.previousSha256 == Some(m.installedSha256) && !Stuck(before, m)
    ensures fresh(dir) && rolledBack.None? && dir.files == Restored(before, m)
    ensures LastCut(before, m) in dir.visited && Stuck(LastCut(before, m), m) && Recoverable(LastCut(before, m), m)
    ensures rerun.Some?
  {
    LastCutStuck(before, m);
    dir := new CecDirectory(before, true);
    rolledBack := RollbackUnderLock(dir, false);
    var cut := new CecDirectory(LastCut(before, m), true);
    rerun := RollbackUnderLock(cut, false);
  }

  // ---------------------------------------------------------------- install and rollback together

  /** Any disk a cut or failed install leaves with its manifest published can be rolled back, and the
      prior target named by that manifest is the one the install found. */
  lemma PublishedInstallIsRecoverable(before: Disk, t: CecInstall.Transaction, d: Disk)
    requires CecInstall.Started(before, t) && CecInstall.CrashSafe(before, t, d) && CecInstall.Published(t, d)
    ensures Recoverable(d, CecInstall.ManifestOf(t))
    ensures PriorTarget(CecInstall.ManifestOf(t)) == FileAt(before, Target)
  {
  }

  /** Rolling back a completed install gives back the disk the install found, less the backup. */
  lemma RollbackUndoesInstall(before: Disk, t: CecInstall.Transaction, d: Disk)
    requires CecInstall.Started(before, t) && CecInstall.Installed(before, t, d)
    ensures Recoverable(d, CecInstall.ManifestOf(t)) && !Stuck(d, CecInstall.ManifestOf(t))
    ensures Restored(d, CecInstall.ManifestOf(t)) ==
      before - (match CecInstall.BackupName(t) case Some(name) => {name} case None => {})
  {
    if t.previous.Some? {
      assert Data(t.previous.value) == before[Target];
    }
  }
}
