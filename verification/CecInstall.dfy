/** The install transaction of a planned `cec` cache: hash-named backup, staged rename, manifest, and
    compensation when a step fails. */
module CecInstall {
  import opened Base
  import opened CecFiles

  /** What one install writes and what it found: the planned bytes, the target's prior bytes, and
      the manifest that binds them. */
  datatype Transaction = Transaction(bytes: Bytes, previous: Option<Bytes>, sourceRecordSha256: seq<Digest>)

  function BackupName(t: Transaction): Option<Name> {
    match t.previous case Some(b) => Some(Backup(Sha256(b))) case None => None
  }

  function ManifestOf(t: Transaction): CecInstallManifest {
    CecInstallManifest(1, t.sourceRecordSha256, Sha256(t.bytes),
      match t.previous case Some(b) => Some(Sha256(b)) case None => None, Target, BackupName(t))
  }

  datatype CleanupFailure =
    | StagedNotRemoved | TargetNotRestored | ManifestNotRemoved | BackupNotRemoved
    | RecoveryManifestNotPublished | DirectoryNotSynced

  datatype InstallError = InstallError(cause: Failure, cleanup: seq<CleanupFailure>)

  // ---------------------------------------------------------------- states of the disk

  ghost predicate TargetIs(d: Disk, content: Option<Bytes>) {
    match content case Some(b) => Holds(d, Target, Data(b)) case None => Target !in d
  }

  ghost predicate BackupHeld(t: Transaction, d: Disk) {
    t.previous.Some? ==> Holds(d, BackupName(t).value, Data(t.previous.value))
  }

  /** The prior bytes are in the target or in the hash-named backup. */
  ghost predicate PriorKept(t: Transaction, d: Disk) {
    TargetIs(d, t.previous) || (Holds(d, Target, Data(t.bytes)) && BackupHeld(t, d))
  }

  ghost predicate Published(t: Transaction, d: Disk) {
    Holds(d, Manifest, ManifestFile(ManifestOf(t)))
  }

  ghost predicate Managed(t: Transaction, n: Name) {
    n == Target || n == Manifest || n.Temporary? || Some(n) == BackupName(t)
  }

  /** A state an install that started on `before` may be cut off in. */
  ghost predicate CrashSafe(before: Disk, t: Transaction, d: Disk) {
    && PriorKept(t, d)
    && (Manifest !in d || d[Manifest] == Incomplete || Published(t, d))
    && (Published(t, d) ==> BackupHeld(t, d) || (BackupName(t).value !in d && TargetIs(d, t.previous)))
    && forall n: Name :: !Managed(t, n) ==> SameFile(before, d, n)
  }

  /** `before` with the backup held and the planned target installed, but no manifest yet. */
  ghost function HalfCommitted(before: Disk, t: Transaction): Disk {
    var kept := match t.previous case Some(b) => before[BackupName(t).value := Data(b)] case None => before;
    kept[Target := Data(t.bytes)]
  }

  /** `d` is `before` with the planned target, the manifest that binds it, and the backup. */
  ghost predicate Installed(before: Disk, t: Transaction, d: Disk) {
    BackupHeld(t, d) && d == HalfCommitted(before, t)[Manifest := ManifestFile(ManifestOf(t))]
  }

  /** Nothing but other bytes under the backup's own name stands in the way of a backup. */
  ghost predicate NoBackupConflict(d: Disk, t: Transaction) {
    t.previous.Some? && BackupName(t).value in d ==> BackupHeld(t, d)
  }

  /** What an install finds once it holds the lock: no manifest, and the target it read. */
  ghost predicate Started(d: Disk, t: Transaction) {
    Manifest !in d && TargetIs(d, t.previous)
  }

  lemma StartIsSafe(before: Disk, t: Transaction)
    requires Started(before, t)
    ensures CrashSafe(before, t, before)
  {
  }

  lemma StagingIsSafe(before: Disk, t: Transaction, d: Disk, e: Disk)
    requires CrashSafe(before, t, d) && SameUpToStaging(d, e)
    ensures CrashSafe(before, t, e) && (BackupHeld(t, d) ==> BackupHeld(t, e))
  {
    assert SameFile(d, e, Target) && SameFile(d, e, Manifest);
    if t.previous.Some? {
      assert SameFile(d, e, BackupName(t).value);
    }
    forall n: Name | !Managed(t, n) ensures SameFile(before, e, n) {
      assert SameFile(d, e, n);
    }
  }

  lemma BackupIsSafe(before: Disk, t: Transaction, d: Disk, content: File)
    requires CrashSafe(before, t, d) && TargetIs(d, t.previous) && t.previous.Some?
    ensures Manifest !in d ==> CrashSafe(before, t, d[BackupName(t).value := content])
    ensures CrashSafe(before, t, d - {BackupName(t).value})
  {
  }

  lemma TargetIsSafe(before: Disk, t: Transaction, d: Disk)
    requires CrashSafe(before, t, d) && BackupHeld(t, d)
    ensures CrashSafe(before, t, d[Target := Data(t.bytes)])
    ensures t.previous.Some? ==> CrashSafe(before, t, d[Target := Data(t.previous.value)])
    ensures t.previous.None? ==> CrashSafe(before, t, d - {Target})
  {
  }

  lemma ManifestIsSafe(before: Disk, t: Transaction, d: Disk)
    requires CrashSafe(before, t, d)
    ensures CrashSafe(before, t, d[Manifest := Incomplete])
    ensures BackupHeld(t, d) ==> CrashSafe(before, t, d[Manifest := ManifestFile(ManifestOf(t))])
    ensures CrashSafe(before, t, d - {Manifest})
  {
  }

  // ---------------------------------------------------------------- the attempt

  /** Which of its own effects the transaction still has to its name. */
  datatype Progress = Progress(backupCreated: bool, temporaryCreated: bool, targetInstalled: bool,
      manifestCreated: bool)

  /** `base` with exactly the effects listed in `p`. */
  ghost function After(base: Disk, t: Transaction, temporary: Name, p: Progress): Disk {
    var d1 := if p.backupCreated && t.previous.Some? then base[BackupName(t).value := Data(t.previous.value)] else base;
    var d2 := if p.temporaryCreated then d1[temporary := Data(t.bytes)] else d1;
    var d3 := if p.targetInstalled then d2[Target := Data(t.bytes)] else d2;
    if p.manifestCreated then d3[Manifest := ManifestFile(ManifestOf(t))] else d3
  }

  /** The disk the attempt ran on, plus the file it may have been unable to remove. */
  ghost function WithLeftover(before: Disk, f: Option<Failure>): Disk {
    match f case Some(LeftBehind(n, left)) => before[n := left] case _ => before
  }

  /** Listed effects are real: each created name was unused, steps were taken in order, and the
      target was only touched with the backup in place. */
  ghost predicate Plausible(base: Disk, t: Transaction, temporary: Name, p: Progress) {
    && temporary.Temporary?
    && (p.backupCreated ==> t.previous.Some? && BackupName(t).value !in base)
    && (p.temporaryCreated ==> temporary !in base && !p.targetInstalled)
    && (p.targetInstalled ==> BackupHeld(t, After(base, t, temporary, p)))
    && (p.manifestCreated ==> Manifest !in base && p.targetInstalled)
    && TargetIs(base, t.previous)
  }

  /** Writes the planned bytes beside the target and renames them over it. */
  method StageTarget(dir: CecDirectory, t: Transaction, temporary: Name, ghost before: Disk)
    returns (f: Option<Failure>, staged: bool, renamed: bool)
    requires dir.Live() && BackupHeld(t, dir.files) && temporary.Temporary?
    requires forall d :: d in dir.visited ==> CrashSafe(before, t, d)
    modifies dir
    ensures dir.Live() && forall d :: d in dir.visited ==> CrashSafe(before, t, d)
    ensures !(staged && renamed) && (f.None? ==> renamed) && (staged || renamed ==> f.None? || f == Some(IoFailure))
    ensures staged ==> temporary !in old(dir.files) && dir.files == old(dir.files)[temporary := Data(t.bytes)]
    ensures renamed ==> dir.files == old(dir.files)[Target := Data(t.bytes)]
    ensures !staged && !renamed ==> dir.files == WithLeftover(old(dir.files), f)
    ensures !staged && !renamed && f.value.LeftBehind? ==> f.value.name == temporary
    ensures dir.reliable && temporary !in old(dir.files) ==> f.None?
  {
    ghost var kept := dir.files;
    staged, renamed := false, false;
    StagingIsInvisible(kept, temporary, Incomplete);
    StagingIsInvisible(kept, temporary, Data(t.bytes));
    StagingIsSafe(before, t, kept, kept[temporary := Incomplete]);
    StagingIsSafe(before, t, kept, kept[temporary := Data(t.bytes)]);
    f := dir.WriteNewFile(temporary, Data(t.bytes));
    if f.Some? {
      return;
    }
    staged := true;
    f := dir.Rename(temporary, Target);
    if f.Some? {
      return;
    }
    RenameCompletes(kept, temporary, Target, Data(t.bytes));
    TargetIsSafe(before, t, kept);
    staged, renamed := false, true;
    f := dir.SyncDirectory();
  }

  method PublishManifest(
      dir: CecDirectory, t: Transaction, ghost before: Disk)
    returns (f: Option<Failure>, created: bool)
    requires dir.Live() && BackupHeld(t, dir.files) && forall d :: d in dir.visited ==> CrashSafe(before, t, d)
    modifies dir
    ensures dir.Live() && forall d :: d in dir.visited ==> CrashSafe(before, t, d)
    ensures old(dir.visited) <= dir.visited
    ensures created ==>
      Manifest !in old(dir.files) && dir.files == old(dir.files)[Manifest := ManifestFile(ManifestOf(t))]
    ensures created ==> f.None?
    ensures !created ==> f.Some? && dir.files == WithLeftover(old(dir.files), f)
    ensures !created && f.value.LeftBehind? ==> f.value.name == Manifest
    ensures dir.reliable && Manifest !in old(dir.files) ==> f.None? && created
  {
    ManifestIsSafe(before, t, dir.files);
    f := dir.WriteNewFile(Manifest, ManifestFile(ManifestOf(t)));
    created := f.None?;
  }

  /** Reuses a backup with the right bytes, refuses one with other bytes, or writes a new one. */
  method KeepBackup(dir: CecDirectory, t: Transaction, ghost temporary: Name) returns (f: Option<Failure>, p: Progress)
    requires dir.Live() && Started(dir.files, t) && t.previous.Some? && temporary.Temporary?
    requires forall d :: d in dir.visited ==> CrashSafe(dir.files, t, d)
    modifies dir
    ensures dir.Live()
    ensures forall d :: d in dir.visited ==> CrashSafe(old(dir.files), t, d)
    ensures dir.files == After(WithLeftover(old(dir.files), f), t, temporary, p)
    ensures Plausible(WithLeftover(old(dir.files), f), t, temporary, p)
    ensures !p.temporaryCreated && !p.targetInstalled && !p.manifestCreated
    ensures f.None? ==> BackupHeld(t, dir.files) && NoBackupConflict(old(dir.files), t)
    ensures f.Some? && f.value.LeftBehind? ==> Some(f.value.name) == BackupName(t)
    ensures dir.reliable && NoBackupConflict(old(dir.files), t) ==> f.None?
  {
    p := Progress(false, false, false, false);
    var name := BackupName(t).value;
    var existing := dir.Read(name);
    match existing {
      case Err(e) => return Some(e), p;
      case Ok(Some(file)) =>
        if file != Data(t.previous.value) {
          return Some(Refused(BackupDiffers)), p;
        }
        return None, p;
      case Ok(None) =>
        BackupIsSafe(dir.files, t, dir.files, Incomplete);
        BackupIsSafe(dir.files, t, dir.files, Data(t.previous.value));
        f := dir.WriteNewFile(name, Data(t.previous.value));
        p := p.(backupCreated := f.None?);
    }
  }

  method Attempt(dir: CecDirectory, t: Transaction, temporary: Name) returns (f: Option<Failure>, p: Progress)
    requires dir.Live() && Started(dir.files, t) && temporary.Temporary?
    requires forall d :: d in dir.visited ==> CrashSafe(dir.files, t, d)
    modifies dir
    ensures dir.Live()
    ensures forall d :: d in dir.visited ==> CrashSafe(old(dir.files), t, d)
    ensures dir.files == After(WithLeftover(old(dir.files), f), t, temporary, p)
    ensures Plausible(WithLeftover(old(dir.files), f), t, temporary, p)
    ensures f.None? ==> p.targetInstalled && p.manifestCreated
    ensures p.targetInstalled ==> HalfCommitted(old(dir.files), t) in dir.visited
    ensures f.Some? && f.value.LeftBehind? ==> f.value.name != Target
    ensures f.None? ==> NoBackupConflict(old(dir.files), t)
    ensures dir.reliable && temporary !in old(dir.files) && NoBackupConflict(old(dir.files), t) ==> f.None?
  {
    ghost var before := dir.files;
    var created := false;
    p := Progress(false, false, false, false);
    if t.previous.Some? {
      f, p := KeepBackup(dir, t, temporary);
      if f.Some? {
        return;
      }
    }
    var staged, renamed;
    f, staged, renamed := StageTarget(dir, t, temporary, before);
    p := p.(temporaryCreated := staged, targetInstalled := renamed);
    assert renamed ==> dir.files == HalfCommitted(before, t);
    if f.Some? {
      return;
    }
    f, created := PublishManifest(dir, t, before);
    p := p.(manifestCreated := created);
    if created {
      f := dir.SyncDirectory();
    }
  }

  // ---------------------------------------------------------------- compensation

  /** Puts the prior target back. */
  method RestoreTarget(dir: CecDirectory, t: Transaction, ghost before: Disk) returns (f: Option<Failure>)
    requires dir.Live() && BackupHeld(t, dir.files)
    requires forall d :: d in dir.visited ==> CrashSafe(before, t, d)
    modifies dir
    ensures dir.Live() && forall d :: d in dir.visited ==> CrashSafe(before, t, d)
    ensures BackupHeld(t, dir.files) && SameFile(old(dir.files), dir.files, Manifest)
    ensures f.None? && t.previous.Some? ==> dir.files == old(dir.files)[Target := Data(t.previous.value)]
    ensures f.None? && t.previous.None? ==> dir.files == old(dir.files) - {Target}
    ensures dir.reliable ==> f.None?
  {
    TargetIsSafe(before, t, dir.files);
    match t.previous {
      case Some(b) =>
        ghost var start := dir.files;
        f := dir.AtomicReplace(Target, b);
        forall d | SameOrReplaced(start, d, Target, b)
          ensures CrashSafe(before, t, d) && BackupHeld(t, d) && SameFile(start, d, Manifest)
        {
          if SameUpToStaging(start, d) {
            StagingIsSafe(before, t, start, d);
          } else {
            StagingIsSafe(before, t, start[Target := Data(b)], d);
            assert SameFile(start[Target := Data(b)], d, Manifest);
          }
        }
      case None =>
        f := dir.RemoveIfRegularFile(Target);
    }
  }

  ghost function OwnFiles(t: Transaction, p: Progress): set<Name> {
    (if p.manifestCreated then {Manifest} else {})
    + (if p.backupCreated && t.previous.Some? then {BackupName(t).value} else {})
  }

  /** Removes the manifest and the backup this transaction created. */
  method RemoveOwnFiles(
      dir: CecDirectory, t: Transaction, p: Progress, ghost before: Disk)
    returns (cleanup: seq<CleanupFailure>)
    requires dir.Live() && TargetIs(dir.files, t.previous) && (p.backupCreated ==> t.previous.Some?)
    requires forall d :: d in dir.visited ==> CrashSafe(before, t, d)
    modifies dir
    ensures dir.Live() && forall d :: d in dir.visited ==> CrashSafe(before, t, d)
    ensures TargetIs(dir.files, t.previous) && TargetNotRestored !in cleanup
    ensures cleanup == [] ==> dir.files == old(dir.files) - OwnFiles(t, p)
  {
    cleanup := [];
    ghost var start := dir.files;
    if p.manifestCreated {
      ManifestIsSafe(before, t, dir.files);
      var f := dir.RemoveIfRegularFile(Manifest);
      if f.Some? {
        cleanup := cleanup + [ManifestNotRemoved];
      }
    }
    if p.backupCreated {
      BackupIsSafe(before, t, dir.files, Incomplete);
      var f := dir.RemoveIfRegularFile(BackupName(t).value);
      if f.Some? {
        cleanup := cleanup + [BackupNotRemoved];
      }
    }
  }

  /** What a failed attempt leaves after compensation. */
  ghost predicate Compensated(t: Transaction, base: Disk, cleanup: seq<CleanupFailure>, d: Disk) {
    && (cleanup == [] ==> d == base)
    && (TargetNotRestored !in cleanup ==> TargetIs(d, t.previous))
    && (TargetNotRestored in cleanup ==> BackupHeld(t, d))
    && (TargetNotRestored in cleanup ==>
          Published(t, d) || RecoveryManifestNotPublished in cleanup)
  }

  method Compensate(
      dir: CecDirectory, t: Transaction, temporary: Name, p: Progress, ghost before: Disk, ghost base: Disk)
    returns (cleanup: seq<CleanupFailure>)
    requires dir.Live() && Plausible(base, t, temporary, p) && dir.files == After(base, t, temporary, p)
    requires forall d :: d in dir.visited ==> CrashSafe(before, t, d)
    modifies dir
    ensures dir.Live() && forall d :: d in dir.visited ==> CrashSafe(before, t, d)
    ensures Compensated(t, base, cleanup, dir.files)
  {
    cleanup := [];
    if p.temporaryCreated {
      StagingIsSafe(before, t, dir.files, dir.files - {temporary});
      var f := dir.RemoveIfRegularFile(temporary);
      if f.Some? {
        cleanup := cleanup + [StagedNotRemoved];
      }
    }
    var restored := true;
    if p.targetInstalled {
      var f := RestoreTarget(dir, t, before);
      if f.Some? {
        restored := false;
        cleanup := cleanup + [TargetNotRestored];
      }
    }
    if restored {
      var failed := RemoveOwnFiles(dir, t, p, before);
      cleanup := cleanup + failed;
    } else if !p.manifestCreated {
      var f, created := PublishManifest(dir, t, before);
      if !created {
        cleanup := cleanup + [RecoveryManifestNotPublished];
      }
    }
    var f := dir.SyncDirectory();
    if f.Some? {
      cleanup := cleanup + [DirectoryNotSynced];
    }
  }

  // ---------------------------------------------------------------- the transaction

  /** How an install that is not cut off ends: installed, or compensated as far as its error says. */
  ghost predicate Ends(before: Disk, t: Transaction, r: Result<CecInstallManifest, InstallError>, d: Disk) {
    match r
    case Ok(_) => Installed(before, t, d)
    case Err(e) =>
      Compensated(t, WithLeftover(before, Some(e.cause)), e.cleanup, d)
      && (e.cause.LeftBehind? ==> e.cause.name != Target)
  }

  method InstallCecTransaction(dir: CecDirectory, t: Transaction) returns (r: Result<CecInstallManifest, InstallError>)
    requires Started(dir.files, t)
    modifies dir
    ensures dir.Live()
    // Cut off anywhere, the prior bytes are in the target or in the backup, and nothing else is lost.
    ensures forall d :: d in dir.visited ==> CrashSafe(old(dir.files), t, d)
    ensures Ends(old(dir.files), t, r, dir.files)
    // Between the rename and the manifest, the target is new and nothing records what it replaced.
    ensures r.Ok? ==> HalfCommitted(old(dir.files), t) in dir.visited
    ensures r.Ok? ==> NoBackupConflict(old(dir.files), t)
    ensures dir.reliable && NoBackupConflict(old(dir.files), t) ==> r.Ok?
  {
    dir.visited := {dir.files};
    ghost var before := dir.files;
    var temporary := dir.UniquePath();
    var f, p := Attempt(dir, t, temporary);
    if f.None? {
      return Ok(ManifestOf(t));
    }
    var cleanup := Compensate(dir, t, temporary, p, before, WithLeftover(before, f));
    return Err(InstallError(f.value, cleanup));
  }
}
