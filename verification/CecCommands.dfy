/** The two locked commands on a `cec` directory: import from a mailbox, and roll back. */
module CecCommands {
  import opened Base
  import opened CecFiles
  import opened CecInstall
  import CecPlan
  import CecPlanMeaning
  import CecPlanProperties
  import CecRollback

  /** The fingerprints a Dry Run reported, where the caller passes them on. */
  datatype Expectations = Expectations(sourceRecordSetSha256: Option<Digest>, targetSha256: Option<Digest>)

  predicate Met(expected: Option<Digest>, observed: Digest) {
    expected.Some? ==> expected.value == observed
  }

  /** The bytes of the target before the command, if there is one. */
  function PriorBytes(d: Disk): Option<Bytes> {
    if Target in d && d[Target].Data? then Some(d[Target].bytes) else None
  }

  /** The target is as before, or its former bytes are in the backup named by their hash. */
  ghost predicate PriorTargetKept(before: Disk, d: Disk) {
    SameFile(before, d, Target)
    || (PriorBytes(before).Some? ==>
          Holds(d, Backup(Sha256(PriorBytes(before).value)), Data(PriorBytes(before).value)))
  }

  method AcquireLock(dir: CecDirectory) returns (f: Option<Failure>)
    requires dir.Live() && dir.visited == {dir.files}
    modifies dir
    ensures dir.Live()
    ensures forall d :: d in dir.visited ==> PriorTargetKept(old(dir.files), d)
    ensures f.None? ==> Lock !in old(dir.files) && dir.files == old(dir.files)[Lock := Data([])]
    ensures f.Some? ==> dir.files - {Lock} == old(dir.files) - {Lock}
    ensures Lock in old(dir.files) ==> f.Some? && dir.files == old(dir.files)
    ensures dir.reliable && Lock !in old(dir.files) ==> f.None?
    ensures forall d :: d in dir.visited ==> d - {Lock} == old(dir.files) - {Lock}
  {
    if Lock in dir.files {
      return Some(Refused(AlreadyLocked));
    }
    f := dir.WriteNewFile(Lock, Data([]));
  }

  method ReleaseLock(dir: CecDirectory, ghost before: Disk)
    requires dir.Live() && forall d :: d in dir.visited ==> PriorTargetKept(before, d)
    modifies dir
    ensures dir.Live() && forall d :: d in dir.visited ==> PriorTargetKept(before, d)
    ensures dir.files - {Lock} == old(dir.files) - {Lock}
    ensures dir.reliable ==> Lock !in dir.files
  {
    var ignored := dir.RemoveIfRegularFile(Lock);
    assert SameFile(old(dir.files), dir.files, Target);
    if PriorBytes(before).Some? {
      assert SameFile(old(dir.files), dir.files, Backup(Sha256(PriorBytes(before).value)));
    }
  }

  /** There is no target, or it is a recognized container. */
  predicate TargetUsable(d: Disk) {
    Target in d ==> d[Target].Data? && CecPlan.ValidCec(d[Target].bytes)
  }

  /** What is found under the lock: the emulator stopped, no manifest, and a recognized target. */
  method PrepareCecInstall(dir: CecDirectory, emulatorRunning: bool) returns (r: Result<Option<Bytes>, Failure>)
    ensures r.Ok? ==> r.value == PriorBytes(dir.files) && Manifest !in dir.files && TargetIs(dir.files, r.value)
    ensures r.Ok? ==> !emulatorRunning && TargetUsable(dir.files)
    ensures dir.reliable ==> (r.Ok? <==> !emulatorRunning && Manifest !in dir.files && TargetUsable(dir.files))
    ensures r.Err? ==> !r.error.LeftBehind?
  {
    if emulatorRunning {
      return Err(Refused(EmulatorRunning));
    }
    var manifest := dir.Read(Manifest);
    if manifest.Err? {
      return Err(manifest.error);
    }
    if manifest.value.Some? {
      return Err(Refused(ManifestExists));
    }
    var target := dir.Read(Target);
    match target {
      case Err(e) => return Err(e);
      case Ok(None) => return Ok(None);
      case Ok(Some(file)) =>
        if !file.Data? || !CecPlan.ValidCec(file.bytes) {
          return Err(Refused(TargetNotRecognized));
        }
        return Ok(Some(file.bytes));
    }
  }

  ghost predicate PlanInputs(env: CecPlan.Environment, mailbox: seq<CecPlan.Message>, prior: Option<Bytes>,
                             expected: Expectations, records: seq<CecPlan.CecRecordSource>)
    ensures PlanInputs(env, mailbox, prior, expected, records) ==> CecPlan.RecordSized(records)
  {
    && CecPlan.Collected(records) && CecPlan.RecordSet(records) == CecPlan.ReceivedSet(mailbox)
    && Met(expected.sourceRecordSetSha256, CecPlan.SourceRecordSetSha256(env, records))
    && Met(expected.targetSha256, CecPlanProperties.ObservedTargetSha256(prior))
  }

  /** `c` is the plan for the mailbox, the prior target and the slot, and meets the expectations. */
  ghost predicate PlannedFrom(env: CecPlan.Environment, mailbox: seq<CecPlan.Message>, prior: Option<Bytes>,
                              requested: Option<nat>, expected: Expectations, c: CecPlan.CecConversion)
    requires CecPlan.ValidEnvironment(env)
  {
    exists records :: PlanInputs(env, mailbox, prior, expected, records)
      && CecPlan.Plan(env, records, CecPlanProperties.TargetBytes(prior), requested) == Ok(c)
  }

  predicate Readable(mailbox: seq<CecPlan.Message>) {
    forall i :: 0 <= i < |mailbox| ==> mailbox[i].content.Some?
  }

  lemma SameRecordsSameHashes(a: seq<CecPlan.CecRecordSource>, b: seq<CecPlan.CecRecordSource>)
    requires CecPlan.Collected(a) && CecPlan.Collected(b) && CecPlan.RecordSet(a) == CecPlan.RecordSet(b)
    ensures forall h :: h in CecPlan.Hashes(a) ==> h in CecPlan.Hashes(b)
  {
    forall h | h in CecPlan.Hashes(a) ensures h in CecPlan.Hashes(b) {
      var i :| 0 <= i < |a| && a[i].sha256 == h;
      assert a[i].record in CecPlan.RecordSet(b);
      var j :| 0 <= j < |b| && b[j].record == a[i].record;
      assert b[j].sha256 == h;
    }
  }

  ghost predicate CanPlan(env: CecPlan.Environment, mailbox: seq<CecPlan.Message>, prior: Option<Bytes>,
                          requested: Option<nat>, expected: Expectations)
    requires CecPlan.ValidEnvironment(env)
  {
    exists c :: PlannedFrom(env, mailbox, prior, requested, expected, c)
  }

  lemma SameRecordsSamePlan(env: CecPlan.Environment, a: seq<CecPlan.CecRecordSource>, b: seq<CecPlan.CecRecordSource>,
                            target: Bytes, requested: Option<nat>)
    requires CecPlan.ValidEnvironment(env) && CecPlan.Collected(a) && CecPlan.Collected(b)
    requires CecPlan.RecordSet(a) == CecPlan.RecordSet(b)
    ensures CecPlan.SourceRecordSetSha256(env, a) == CecPlan.SourceRecordSetSha256(env, b)
    ensures CecPlan.Plan(env, a, target, requested).Ok? <==> CecPlan.Plan(env, b, target, requested).Ok?
  {
    SameRecordsSameHashes(a, b);
    SameRecordsSameHashes(b, a);
    assert CecPlan.Hashes(a) == CecPlan.Hashes(b);
    CecPlanProperties.RecordSetFingerprint(env, a, b);
    CecPlanProperties.PlanDependsOnRecordSetOnly(env, a, b, target, requested);
  }

  /** Whichever way the records were collected, they can be planned as expected if any collection can. */
  lemma AnyCollectionPlans(env: CecPlan.Environment, mailbox: seq<CecPlan.Message>, prior: Option<Bytes>,
                           requested: Option<nat>, expected: Expectations, records: seq<CecPlan.CecRecordSource>)
    requires CecPlan.ValidEnvironment(env) && CanPlan(env, mailbox, prior, requested, expected)
    requires CecPlan.Collected(records) && CecPlan.RecordSet(records) == CecPlan.ReceivedSet(mailbox)
    ensures PlanInputs(env, mailbox, prior, expected, records)
    ensures CecPlan.Plan(env, records, CecPlanProperties.TargetBytes(prior), requested).Ok?
  {
    var c :| PlannedFrom(env, mailbox, prior, requested, expected, c);
    var others :| PlanInputs(env, mailbox, prior, expected, others)
      && CecPlan.Plan(env, others, CecPlanProperties.TargetBytes(prior), requested) == Ok(c);
    SameRecordsSamePlan(env, records, others, CecPlanProperties.TargetBytes(prior), requested);
  }

  method PlanCollected(env: CecPlan.Environment, ghost mailbox: seq<CecPlan.Message>, prior: Option<Bytes>,
                       requested: Option<nat>, expected: Expectations, records: seq<CecPlan.CecRecordSource>)
    returns (r: Result<CecPlan.CecConversion, Failure>)
    requires CecPlan.ValidEnvironment(env) && Met(expected.targetSha256, CecPlanProperties.ObservedTargetSha256(prior))
    requires CecPlan.Collected(records) && CecPlan.RecordSet(records) == CecPlan.ReceivedSet(mailbox)
    ensures r.Ok? ==> PlannedFrom(env, mailbox, prior, requested, expected, r.value)
    ensures r.Ok? <==> CanPlan(env, mailbox, prior, requested, expected)
    ensures r.Err? ==> !r.error.LeftBehind?
  {
    if CanPlan(env, mailbox, prior, requested, expected) {
      AnyCollectionPlans(env, mailbox, prior, requested, expected, records);
    }
    if !Met(expected.sourceRecordSetSha256, CecPlan.SourceRecordSetSha256(env, records)) {
      return Err(Refused(ExpectationMismatch));
    }
    assert PlanInputs(env, mailbox, prior, expected, records);
    var planned := CecPlan.ConvertCollectedCecRecords(env, records, CecPlanProperties.TargetBytes(prior), requested);
    if planned.Err? {
      return Err(Refused(NotPlanned));
    }
    assert PlannedFrom(env, mailbox, prior, requested, expected, planned.value);
    return Ok(planned.value);
  }

  method PlanUnderLock(env: CecPlan.Environment, mailbox: seq<CecPlan.Message>, prior: Option<Bytes>,
                       requested: Option<nat>, expected: Expectations)
    returns (r: Result<CecPlan.CecConversion, Failure>)
    requires CecPlan.ValidEnvironment(env)
    ensures r.Ok? ==> PlannedFrom(env, mailbox, prior, requested, expected, r.value)
    ensures r.Ok? <==> Readable(mailbox) && CanPlan(env, mailbox, prior, requested, expected)
    ensures r.Err? ==> !r.error.LeftBehind?
  {
    if !Met(expected.targetSha256, CecPlanProperties.ObservedTargetSha256(prior)) {
      return Err(Refused(ExpectationMismatch));
    }
    var collected := CecPlan.CollectReceivedMh3gRecords(mailbox);
    if collected.Err? {
      return Err(IoFailure);
    }
    r := PlanCollected(env, mailbox, prior, requested, expected, collected.value);
  }

  function TransactionFor(c: CecPlan.CecConversion, prior: Option<Bytes>): Transaction {
    Transaction(c.bytes, prior, seq(|c.records|, i requires 0 <= i < |c.records| => c.records[i].sha256))
  }

  /** Everything an install needs: nobody holds the lock, the emulator is stopped, no transaction is
      outstanding, target and backup are usable, and the mailbox can be planned as expected. */
  ghost predicate Installable(d: Disk, env: CecPlan.Environment, mailbox: seq<CecPlan.Message>,
                              requested: Option<nat>, expected: Expectations, emulatorRunning: bool)
    requires CecPlan.ValidEnvironment(env)
  {
    && Lock !in d && !emulatorRunning && Manifest !in d && TargetUsable(d)
    && NoBackupConflict(d, Transaction([], PriorBytes(d), []))
    && Readable(mailbox) && CanPlan(env, mailbox, PriorBytes(d), requested, expected)
  }

  /** Refused without effect: locked, outstanding, running, or a target that is no container. */
  predicate Blocked(d: Disk, emulatorRunning: bool) {
    Lock in d || Manifest in d || emulatorRunning || !TargetUsable(d)
  }

  lemma SafeKeepsPrior(before: Disk, t: Transaction, d: Disk)
    requires CrashSafe(before[Lock := Data([])], t, d) && t.previous == PriorBytes(before)
      && TargetIs(before, t.previous)
    ensures PriorTargetKept(before, d)
  {
  }

  lemma ConflictUnderLock(before: Disk, t: Transaction)
    requires t.previous == PriorBytes(before)
    ensures NoBackupConflict(before[Lock := Data([])], t) <==>
      NoBackupConflict(before, Transaction([], PriorBytes(before), []))
  {
  }

  /** The container an import starts from: the target, or an empty container where there is none. */
  ghost predicate StartsFrom(before: Disk, target: Bytes) {
    && CecPlanMeaning.Recognized(target)
    && if Target in before then before[Target] == Data(target) else forall i :: 40 <= i < |target| ==> target[i] == 0
  }

  /** `c` places exactly the records the mailbox carries into the container found. */
  ghost predicate ImportOf(env: CecPlan.Environment, mailbox: seq<CecPlan.Message>, before: Disk,
                           requested: Option<nat>, c: CecPlan.CecConversion)
  {
    exists records: set<Bytes>, target: Bytes ::
      && (forall r :: r in records <==> CecPlanMeaning.Received(mailbox, r))
      && StartsFrom(before, target) && CecPlanMeaning.PackedRecords(records)
      && CecPlanMeaning.Planned(env, records, target, requested, c)
  }

  /** The manifest records the installed bytes, the imported records in order, and the file that was replaced. */
  ghost predicate Binds(m: CecInstallManifest, before: Disk, c: CecPlan.CecConversion) {
    && m.version == 1 && m.target == Target && m.installedSha256 == Sha256(c.bytes)
    && |m.sourceRecordSha256| == |c.records|
    && (forall i :: 0 <= i < |c.records| ==> m.sourceRecordSha256[i] == c.records[i].sha256)
    && (Target !in before ==> m.previousSha256.None? && m.backup.None?)
    && (Target in before ==> before[Target].Data? && m.previousSha256 == Some(Sha256(before[Target].bytes)))
    && (Target in before ==> m.backup == Some(Backup(Sha256(before[Target].bytes))))
  }

  /** A file an import writes or the lock. */
  ghost predicate Touched(before: Disk, n: Name) {
    n in {Target, Manifest, Lock}
    || (Target in before && before[Target].Data? && n == Backup(Sha256(before[Target].bytes)))
  }

  /** What a completed import leaves: the planned bytes in the target, the replaced file under the name its hash gives
      it, a manifest that binds the two, and every other file but the lock as it was. */
  ghost predicate Imported(before: Disk, d: Disk, c: CecPlan.CecConversion) {
    && Holds(d, Target, Data(c.bytes))
    && Manifest in d && d[Manifest].ManifestFile? && Binds(d[Manifest].manifest, before, c)
    && (Target in before ==> Holds(d, Backup(Sha256(before[Target].bytes)), before[Target]))
    && forall n: Name :: !Touched(before, n) ==> SameFile(before, d, n)
  }

  lemma CollectedIsImport(env: CecPlan.Environment, mailbox: seq<CecPlan.Message>, before: Disk, requested: Option<nat>,
                          a: seq<CecPlan.CecRecordSource>, target: Bytes, c: CecPlan.CecConversion)
    requires CecPlan.ValidEnvironment(env) && CecPlan.Collected(a)
      && CecPlan.RecordSet(a) == CecPlan.ReceivedSet(mailbox)
    requires CecPlan.RecordSized(a) && CecPlan.Plan(env, a, target, requested) == Ok(c) && StartsFrom(before, target)
    ensures ImportOf(env, mailbox, before, requested, c)
  {
    CecPlanMeaning.PlanMeaning(env, a, target, requested, c);
    forall r ensures r in CecPlan.RecordSet(a) <==> CecPlanMeaning.Received(mailbox, r) {
      CecPlanMeaning.ReceivedRecords(mailbox, r);
    }
  }

  lemma StartingContainer(before: Disk)
    requires TargetIs(before, PriorBytes(before)) && TargetUsable(before)
    ensures StartsFrom(before, CecPlanProperties.TargetBytes(PriorBytes(before)))
  {
    CecPlanMeaning.RecognizedIsValid(CecPlanProperties.TargetBytes(PriorBytes(before)));
  }

  lemma PlannedIsImport(env: CecPlan.Environment, mailbox: seq<CecPlan.Message>, before: Disk, requested: Option<nat>,
                        expected: Expectations, c: CecPlan.CecConversion)
    requires CecPlan.ValidEnvironment(env) && TargetIs(before, PriorBytes(before)) && TargetUsable(before)
    requires PlannedFrom(env, mailbox, PriorBytes(before), requested, expected, c)
    ensures ImportOf(env, mailbox, before, requested, c)
  {
    var target := CecPlanProperties.TargetBytes(PriorBytes(before));
    var a :| PlanInputs(env, mailbox, PriorBytes(before), expected, a)
      && CecPlan.Plan(env, a, target, requested) == Ok(c);
    StartingContainer(before);
    CollectedIsImport(env, mailbox, before, requested, a, target, c);
  }

  lemma InstalledIsImported(before: Disk, d: Disk, c: CecPlan.CecConversion)
    requires Manifest !in before && TargetIs(before, PriorBytes(before))
    requires Installed(before - {Lock}, TransactionFor(c, PriorBytes(before)), d - {Lock})
    ensures Imported(before, d, c)
  {
    var t := TransactionFor(c, PriorBytes(before));
    var m := ManifestOf(t);
    assert (d - {Lock})[Manifest] == ManifestFile(m) && (d - {Lock})[Target] == Data(c.bytes);
    assert Binds(m, before, c);
    forall n: Name | !Touched(before, n) ensures SameFile(before, d, n) {
      assert n in d <==> n in d - {Lock};
    }
  }

  method InstallUnderLock(dir: CecDirectory, env: CecPlan.Environment, mailbox: seq<CecPlan.Message>,
                          requested: Option<nat>, expected: Expectations, emulatorRunning: bool, ghost before: Disk)
    returns (r: Result<CecPlan.CecConversion, InstallError>)
    requires CecPlan.ValidEnvironment(env) && dir.Live() && Lock !in before && dir.files == before[Lock := Data([])]
    requires forall d :: d in dir.visited ==> PriorTargetKept(before, d)
    modifies dir
    ensures dir.Live() && forall d :: d in dir.visited ==> PriorTargetKept(before, d)
    ensures r.Ok? ==> PlannedFrom(env, mailbox, PriorBytes(before), requested, expected, r.value)
    ensures r.Ok? ==> Installed(old(dir.files), TransactionFor(r.value, PriorBytes(before)), dir.files)
    ensures r.Err? && r.error.cleanup == [] && !r.error.cause.LeftBehind? ==> dir.files == old(dir.files)
    ensures Blocked(before, emulatorRunning) ==> r.Err? && dir.files == old(dir.files)
    ensures r.Ok? ==> Installable(before, env, mailbox, requested, expected, emulatorRunning)
    ensures dir.reliable && Installable(before, env, mailbox, requested, expected, emulatorRunning) ==> r.Ok?
  {
    var prepared := PrepareCecInstall(dir, emulatorRunning);
    if prepared.Err? {
      return Err(InstallError(prepared.error, []));
    }
    var planned := PlanUnderLock(env, mailbox, prepared.value, requested, expected);
    if planned.Err? {
      return Err(InstallError(planned.error, []));
    }
    var t := TransactionFor(planned.value, prepared.value);
    ConflictUnderLock(before, t);
    ghost var earlier := dir.visited;
    var installed := InstallCecTransaction(dir, t);
    forall d | d in dir.visited ensures PriorTargetKept(before, d) {
      SafeKeepsPrior(before, t, d);
    }
    dir.visited := dir.visited + earlier;
    if installed.Err? {
      return Err(installed.error);
    }
    return Ok(planned.value);
  }

  lemma InstalledWithoutLock(before: Disk, t: Transaction, d: Disk)
    requires Lock !in before && Installed(before[Lock := Data([])], t, d)
    ensures Installed(before - {Lock}, t, d - {Lock})
  {
    assert before - {Lock} == before;
  }

  /** Rebuilds the plan under the lock and installs it. */
  method InstallCecFromSource(dir: CecDirectory, env: CecPlan.Environment, mailbox: seq<CecPlan.Message>,
                              requested: Option<nat>, expected: Expectations, emulatorRunning: bool)
    returns (r: Result<CecPlan.CecConversion, InstallError>)
    requires CecPlan.ValidEnvironment(env)
    modifies dir
    ensures dir.Live()
    // Wherever the command is cut off, the prior cache is in the target or in its backup.
    ensures forall d :: d in dir.visited ==> PriorTargetKept(old(dir.files), d)
    ensures r.Ok? ==> PlannedFrom(env, mailbox, PriorBytes(old(dir.files)), requested, expected, r.value)
    ensures r.Ok? ==> ImportOf(env, mailbox, old(dir.files), requested, r.value)
    ensures r.Ok? ==> Imported(old(dir.files), dir.files, r.value)
    ensures r.Ok? ==>
      Installed(old(dir.files) - {Lock}, TransactionFor(r.value, PriorBytes(old(dir.files))), dir.files - {Lock})
    ensures r.Err? && r.error.cleanup == [] && !r.error.cause.LeftBehind? ==>
      dir.files - {Lock} == old(dir.files) - {Lock}
    ensures Blocked(old(dir.files), emulatorRunning) ==> r.Err? && dir.files - {Lock} == old(dir.files) - {Lock}
    ensures r.Ok? ==> Installable(old(dir.files), env, mailbox, requested, expected, emulatorRunning)
    ensures dir.reliable && Installable(old(dir.files), env, mailbox, requested, expected, emulatorRunning) ==> r.Ok?
    ensures dir.reliable && Lock !in old(dir.files) ==> Lock !in dir.files
  {
    dir.visited := {dir.files};
    ghost var before := dir.files;
    var f := AcquireLock(dir);
    if f.Some? {
      return Err(InstallError(f.value, []));
    }
    r := InstallUnderLock(dir, env, mailbox, requested, expected, emulatorRunning, before);
    ghost var done := dir.files;
    ReleaseLock(dir, before);
    assert before[Lock := Data([])] - {Lock} == before - {Lock};
    if r.Ok? {
      InstalledWithoutLock(before, TransactionFor(r.value, PriorBytes(before)), done);
      PlannedIsImport(env, mailbox, before, requested, expected, r.value);
      InstalledIsImported(before, dir.files, r.value);
    }
  }

  lemma PlannableByCollection(env: CecPlan.Environment, mailbox: seq<CecPlan.Message>, prior: Option<Bytes>,
                              requested: Option<nat>, expected: Expectations, a: seq<CecPlan.CecRecordSource>)
    requires CecPlan.ValidEnvironment(env)
    requires CecPlan.Collected(a) && CecPlan.RecordSet(a) == CecPlan.ReceivedSet(mailbox) && CecPlan.RecordSized(a)
    ensures CanPlan(env, mailbox, prior, requested, expected) <==>
      PlanInputs(env, mailbox, prior, expected, a)
      && CecPlan.Plan(env, a, CecPlanProperties.TargetBytes(prior), requested).Ok?
  {
    var p := CecPlan.Plan(env, a, CecPlanProperties.TargetBytes(prior), requested);
    if CanPlan(env, mailbox, prior, requested, expected) {
      AnyCollectionPlans(env, mailbox, prior, requested, expected, a);
    } else if p.Ok? && PlanInputs(env, mailbox, prior, expected, a) {
      assert PlannedFrom(env, mailbox, prior, requested, expected, p.value);
    }
  }

  ghost predicate NoRefusal(env: CecPlan.Environment, records: set<Bytes>, target: Bytes, requested: Option<nat>)
    requires CecPlanMeaning.PackedRecords(records)
  {
    forall e :: !CecPlanMeaning.Refuses(env, records, target, requested, e)
  }

  lemma PlannedUnlessRefused(env: CecPlan.Environment, a: seq<CecPlan.CecRecordSource>, target: Bytes,
                             requested: Option<nat>)
    requires CecPlan.ValidEnvironment(env) && CecPlan.Collected(a) && CecPlan.RecordSized(a)
    ensures CecPlanMeaning.PackedRecords(CecPlan.RecordSet(a))
    ensures CecPlan.Plan(env, a, target, requested).Ok? <==> NoRefusal(env, CecPlan.RecordSet(a), target, requested)
  {
    CecPlanMeaning.CollectedIsPacked(a);
    var p := CecPlan.Plan(env, a, target, requested);
    forall e ensures p == Err(e) <==> CecPlanMeaning.Refuses(env, CecPlan.RecordSet(a), target, requested, e) {
      CecPlanMeaning.PlanRefusals(env, a, target, requested, e);
    }
    if p.Err? {
      assert CecPlanMeaning.Refuses(env, CecPlan.RecordSet(a), target, requested, p.error);
    }
  }

  /** Planning succeeds exactly when no refusal applies to the records received and the container found, and the
      expected fingerprints, where given, are those of both. */
  lemma WhenPlannable(env: CecPlan.Environment, mailbox: seq<CecPlan.Message>, prior: Option<Bytes>,
                      requested: Option<nat>, expected: Expectations, a: seq<CecPlan.CecRecordSource>)
    requires CecPlan.ValidEnvironment(env)
    requires CecPlan.Collected(a) && CecPlan.RecordSet(a) == CecPlan.ReceivedSet(mailbox)
    ensures CecPlanMeaning.PackedRecords(CecPlan.RecordSet(a))
    ensures var target := CecPlanProperties.TargetBytes(prior);
      CanPlan(env, mailbox, prior, requested, expected) <==>
        && NoRefusal(env, CecPlan.RecordSet(a), target, requested)
        && (var h := expected.sourceRecordSetSha256; h.None? || h.value == CecPlan.SourceRecordSetSha256(env, a))
        && (var h := expected.targetSha256; h.None? || h.value == Sha256(target))
  {
    CecPlanMeaning.CollectedIsPacked(a);
    PlannableByCollection(env, mailbox, prior, requested, expected, a);
    PlannedUnlessRefused(env, a, CecPlanProperties.TargetBytes(prior), requested);
  }

  /** A write that was given the fingerprints of a Dry Run and succeeds installs exactly the bytes
      that Dry Run reported. */
  lemma WriteMatchesDryRun(env: CecPlan.Environment, mailbox: seq<CecPlan.Message>, prior: Option<Bytes>,
                           requested: Option<nat>, c: CecPlan.CecConversion,
                           dry: seq<CecPlan.CecRecordSource>, dryTarget: Option<Bytes>)
    requires CecPlan.ValidEnvironment(env) && CecPlan.Collected(dry)
    requires PlannedFrom(env, mailbox, prior, requested,
      Expectations(Some(CecPlan.SourceRecordSetSha256(env, dry)),
          Some(CecPlanProperties.ObservedTargetSha256(dryTarget))), c)
    ensures var reported := CecPlan.Plan(env, dry, CecPlanProperties.TargetBytes(dryTarget), requested);
      reported.Ok? && reported.value.bytes == c.bytes && reported.value.slots == c.slots
    ensures CecPlan.RecordSet(dry) == CecPlan.ReceivedSet(mailbox)
      && CecPlanProperties.TargetBytes(dryTarget) == CecPlanProperties.TargetBytes(prior)
  {
    var expected :=
      Expectations(Some(CecPlan.SourceRecordSetSha256(env, dry)),
      Some(CecPlanProperties.ObservedTargetSha256(dryTarget)));
    var records :| PlanInputs(env, mailbox, prior, expected, records)
      && CecPlan.Plan(env, records, CecPlanProperties.TargetBytes(prior), requested) == Ok(c);
    CecPlanProperties.DryRunBindsWrite(env, dry, dryTarget, records, prior, requested);
    CecPlanProperties.RecordSetFingerprint(env, dry, records);
    CecPlanProperties.HashesDetermineRecords(dry, records);
  }

  /** Plans what a mailbox and a target hold, without a lock and without writing. */
  method DryRun(env: CecPlan.Environment, mailbox: seq<CecPlan.Message>, target: Option<Bytes>, requested: Option<nat>)
    returns (r: Result<CecPlan.CecConversion, CecPlan.PlanError>)
    requires CecPlan.ValidEnvironment(env)
    ensures r.Ok? ==> PlannedFrom(env, mailbox, target, requested, Expectations(None, None), r.value)
    ensures r.Ok? <==> Readable(mailbox) && CanPlan(env, mailbox, target, requested, Expectations(None, None))
  {
    var collected := CecPlan.CollectReceivedMh3gRecords(mailbox);
    if collected.Err? {
      return Err(collected.error);
    }
    if CanPlan(env, mailbox, target, requested, Expectations(None, None)) {
      AnyCollectionPlans(env, mailbox, target, requested, Expectations(None, None), collected.value);
    }
    assert PlanInputs(env, mailbox, target, Expectations(None, None), collected.value);
    r := CecPlan.ConvertCollectedCecRecords(env, collected.value, CecPlanProperties.TargetBytes(target), requested);
    if r.Ok? {
      assert PlannedFrom(env, mailbox, target, requested, Expectations(None, None), r.value);
    }
  }

  /** The two fingerprints of a plan are those of the records and of the container it was made from. */
  lemma ReportedFingerprints(env: CecPlan.Environment, mailbox: seq<CecPlan.Message>, prior: Option<Bytes>,
                             requested: Option<nat>, expected: Expectations, c: CecPlan.CecConversion)
    returns (records: seq<CecPlan.CecRecordSource>)
    requires CecPlan.ValidEnvironment(env) && PlannedFrom(env, mailbox, prior, requested, expected, c)
    ensures CecPlan.Collected(records) && CecPlan.RecordSet(records) == CecPlan.ReceivedSet(mailbox)
    ensures CecPlan.RecordSized(records)
    ensures CecPlan.Plan(env, records, CecPlanProperties.TargetBytes(prior), requested) == Ok(c)
    ensures c.sourceRecordSetSha256 == CecPlan.SourceRecordSetSha256(env, records)
    ensures c.beforeSha256 == CecPlanProperties.ObservedTargetSha256(prior)
  {
    records :| PlanInputs(env, mailbox, prior, expected, records)
      && CecPlan.Plan(env, records, CecPlanProperties.TargetBytes(prior), requested) == Ok(c);
    CecPlanMeaning.PlanSlots(env, records, CecPlanProperties.TargetBytes(prior), requested);
    CecPlanMeaning.PlanFingerprint(env, records, CecPlanProperties.TargetBytes(prior), requested);
  }

  /** A Dry Run, then, whatever has happened to mailbox and directory since, a write guarded by the two fingerprints it
      reported: if the write succeeds, the target holds the reported bytes, and what was planned from is what is
      there. */
  method WriteAfterDryRun(dir: CecDirectory, env: CecPlan.Environment, seen: seq<CecPlan.Message>,
                          seenTarget: Option<Bytes>, mailbox: seq<CecPlan.Message>, requested: Option<nat>,
                          emulatorRunning: bool)
    returns (reported: Result<CecPlan.CecConversion, CecPlan.PlanError>,
             r: Result<CecPlan.CecConversion, InstallError>)
    requires CecPlan.ValidEnvironment(env)
    modifies dir
    ensures r.Ok? ==> reported.Ok? && Holds(dir.files, Target, Data(reported.value.bytes))
    ensures r.Ok? ==> Imported(old(dir.files), dir.files, r.value) && r.value.slots == reported.value.slots
    ensures r.Ok? ==> forall b :: CecPlanMeaning.Received(seen, b) <==> CecPlanMeaning.Received(mailbox, b)
    ensures r.Ok? && seenTarget.Some? && Target in old(dir.files) ==> old(dir.files)[Target] == Data(seenTarget.value)
    ensures reported.Err? ==> r.Err? && dir.files == old(dir.files)
  {
    ghost var before := dir.files;
    reported := DryRun(env, seen, seenTarget, requested);
    if reported.Err? {
      return reported, Err(InstallError(Refused(NotPlanned), []));
    }
    var expected := Expectations(Some(reported.value.sourceRecordSetSha256), Some(reported.value.beforeSha256));
    r := InstallCecFromSource(dir, env, mailbox, requested, expected, emulatorRunning);
    if r.Ok? {
      ghost var records :=
        ReportedFingerprints(env, seen, seenTarget, requested, Expectations(None, None), reported.value);
      WriteMatchesDryRun(env, mailbox, PriorBytes(before), requested, r.value, records, seenTarget);
      forall b ensures CecPlanMeaning.Received(seen, b) <==> CecPlanMeaning.Received(mailbox, b) {
        CecPlanMeaning.ReceivedRecords(seen, b);
        CecPlanMeaning.ReceivedRecords(mailbox, b);
      }
    }
  }

  // ---------------------------------------------------------------- rollback

  ghost predicate RollbackStage(before: Disk, d: Disk) {
    d - {Lock} == before - {Lock}
    || (CecRollback.Rollbackable(before)
      && CecRollback.RollbackMid(before - {Lock}, CecRollback.ManifestIn(before), d - {Lock}))
  }

  lemma StageWithoutLock(before: Disk, d: Disk)
    requires Lock !in before
    requires var locked := before[Lock := Data([])];
      d == locked || (CecRollback.Rollbackable(locked)
        && CecRollback.RollbackMid(locked, CecRollback.ManifestIn(locked), d))
    ensures RollbackStage(before, d) && RollbackStage(before, d - {Lock})
  {
    var locked := before[Lock := Data([])];
    assert d - {Lock} - {Lock} == d - {Lock};
    if d == locked {
      assert d - {Lock} == before - {Lock};
    } else {
      var m := CecRollback.ManifestIn(locked);
      forall n: Name | !CecRollback.Managed(m, n) ensures SameFile(before - {Lock}, d - {Lock}, n) {
        assert SameFile(locked, d, n);
      }
    }
  }

  lemma RestoredWithoutLock(before: Disk)
    requires Lock !in before && CecRollback.Rollbackable(before)
    ensures CecRollback.Restored(before[Lock := Data([])], CecRollback.ManifestIn(before)) - {Lock}
      == CecRollback.Restored(before, CecRollback.ManifestIn(before))
  {
  }

  /** What a completed rollback leaves: the target is what the manifest says was replaced, manifest and backup are gone,
      and every other file but the lock is as it was. */
  ghost predicate Undone(before: Disk, d: Disk, m: CecInstallManifest) {
    && Manifest !in d
    && (m.previousSha256.None? ==> Target !in d)
    && (m.previousSha256.Some? ==> Holds(d, Target, Data(m.previousSha256.value.preimage)))
    && (m.previousSha256.Some? ==> Backup(m.previousSha256.value) !in d)
    && forall n: Name :: n !in {Target, Manifest, Lock} && Some(n) != m.backup ==> SameFile(before, d, n)
  }

  /** The target is what the manifest installed, or already what that replaced, byte for byte or in being absent. */
  predicate OwnTarget(d: Disk, m: CecInstallManifest) {
    Holds(d, Target, Data(m.installedSha256.preimage))
    || (if m.previousSha256.Some? then Holds(d, Target, Data(m.previousSha256.value.preimage)) else Target !in d)
  }

  lemma RestoredIsUndone(before: Disk, d: Disk)
    requires CecRollback.Rollbackable(before)
    requires d - {Lock} == CecRollback.Restored(before, CecRollback.ManifestIn(before)) && Lock !in before
    ensures Undone(before, d, CecRollback.ManifestIn(before))
  {
    var m := CecRollback.ManifestIn(before);
    var e := d - {Lock};
    assert forall n: Name :: n != Lock ==> SameFile(d, e, n);
    forall n: Name | n !in {Target, Manifest, Lock} && Some(n) != m.backup ensures SameFile(before, d, n) {
      assert SameFile(d, e, n) && SameFile(before, e, n);
    }
    assert SameFile(d, e, Target) && SameFile(d, e, Manifest);
    if m.previousSha256.Some? {
      assert SameFile(d, e, Backup(m.previousSha256.value));
    }
  }

  /** Rolls back under the lock. */
  method RollbackCec(dir: CecDirectory, emulatorRunning: bool) returns (f: Option<Failure>)
    modifies dir
    ensures dir.Live()
    ensures f.None? ==> Lock !in old(dir.files) && CecRollback.Rollbackable(old(dir.files))
    ensures f.None? ==>
      dir.files - {Lock} == CecRollback.Restored(old(dir.files), CecRollback.ManifestIn(old(dir.files)))
    ensures f.None? ==> Undone(old(dir.files), dir.files, old(dir.files)[Manifest].manifest)
    // Nothing is touched when the target is neither what the manifest installed nor what that replaced.
    ensures Manifest in old(dir.files) && old(dir.files)[Manifest].ManifestFile?
      && !OwnTarget(old(dir.files), old(dir.files)[Manifest].manifest)
      ==> f.Some? && dir.files - {Lock} == old(dir.files) - {Lock}
    ensures dir.reliable && Lock !in old(dir.files) ==> Lock !in dir.files
    // Wherever the command is cut off, a rollback is under way or nothing but the lock has changed.
    ensures forall d :: d in dir.visited ==> RollbackStage(old(dir.files), d)
    ensures Lock in old(dir.files) ==> f.Some? && dir.files == old(dir.files)
    ensures emulatorRunning ==> f.Some? && dir.files - {Lock} == old(dir.files) - {Lock}
    ensures dir.reliable && !emulatorRunning && Lock !in old(dir.files) && CecRollback.Rollbackable(old(dir.files))
      && CecRollback.Recoverable(old(dir.files), CecRollback.ManifestIn(old(dir.files)))
      ==> (f.None? <==> !CecRollback.Stuck(old(dir.files), CecRollback.ManifestIn(old(dir.files))))
    ensures CecRollback.Rollbackable(old(dir.files))
      && !CecRollback.Recognized(old(dir.files), CecRollback.ManifestIn(old(dir.files)))
      ==> f.Some? && dir.files - {Lock} == old(dir.files) - {Lock}
  {
    dir.visited := {dir.files};
    ghost var before := dir.files;
    f := AcquireLock(dir);
    if f.Some? {
      return;
    }
    ghost var locked := dir.files;
    ghost var earlier := dir.visited;
    assert locked - {Lock} == before;
    f := CecRollback.RollbackUnderLock(dir, emulatorRunning);
    forall d | d in dir.visited ensures RollbackStage(before, d) && RollbackStage(before, d - {Lock}) {
      StageWithoutLock(before, d);
    }
    dir.visited := dir.visited + earlier;
    var ignored := dir.RemoveIfRegularFile(Lock);
    if f.None? {
      RestoredWithoutLock(before);
      RestoredIsUndone(before, dir.files);
    }
  }

  lemma UndoneImport(before: Disk, imported: Disk, d: Disk, c: CecPlan.CecConversion)
    requires Manifest !in before && Imported(before, imported, c) && Undone(imported, d, imported[Manifest].manifest)
    ensures SameFile(before, d, Target) && SameFile(before, d, Manifest)
    ensures forall n: Name :: !Touched(before, n) ==> SameFile(before, d, n)
  {
    var m := imported[Manifest].manifest;
    assert Binds(m, before, c);
    forall n: Name | !Touched(before, n) ensures SameFile(before, d, n) {
      assert SameFile(before, imported, n) && SameFile(imported, d, n);
    }
  }

  /** The disk after an import can be rolled back, and is not the stuck one. */
  lemma ImportIsRecoverable(before: Disk, d: Disk, c: CecPlan.CecConversion)
    requires Manifest !in before && Imported(before, d, c)
    ensures CecRollback.Rollbackable(d) && CecRollback.Recoverable(d, d[Manifest].manifest)
    ensures !CecRollback.Stuck(d, d[Manifest].manifest)
  {
    assert Binds(d[Manifest].manifest, before, c);
  }

  /** An import and then a rollback leave every file as it was, save the lock and the backup the import made or found;
      undisturbed, both go through whenever the import can. */
  method ImportThenRollBack(dir: CecDirectory, env: CecPlan.Environment, mailbox: seq<CecPlan.Message>,
                            requested: Option<nat>, expected: Expectations)
    returns (r: Result<CecPlan.CecConversion, InstallError>, f: Option<Failure>)
    requires CecPlan.ValidEnvironment(env)
    modifies dir
    ensures r.Ok? && f.None? ==> SameFile(old(dir.files), dir.files, Target) && Manifest !in dir.files
    ensures r.Ok? && f.None? ==>
      forall n: Name :: !Touched(old(dir.files), n) ==> SameFile(old(dir.files), dir.files, n)
    ensures dir.reliable && Installable(old(dir.files), env, mailbox, requested, expected, false) ==> r.Ok? && f.None?
  {
    ghost var before := dir.files;
    f := None;
    r := InstallCecFromSource(dir, env, mailbox, requested, expected, false);
    if r.Ok? {
      ghost var imported := dir.files;
      ImportIsRecoverable(before, imported, r.value);
      f := RollbackCec(dir, false);
      if f.None? {
        UndoneImport(before, imported, dir.files, r.value);
      }
    }
  }
}
