/** Any number of install and rollback processes on one `cec` directory, interleaved at the level of single file
    operations. What a process may write while it holds the lock, and how a live one may end, is what the commands
    were proved to do. */
module CecProtocol {
  import opened Base
  import opened CecFiles
  import opened CecInstall
  import opened CecRollback

  // ---------------------------------------------------------------- the processes

  datatype Process =
    | Idle
    | Locked(before: Disk)
    | Installing(before: Disk, t: Transaction, alive: bool)
    | RollingBack(before: Disk, m: CecInstallManifest, alive: bool)

  /** What happened to the target, in the order in which transactions finished. */
  datatype Event =
    | Began(prior: Option<File>, target: Option<File>)
    | PutBack
    | Ended

  datatype World = World(disk: Disk, processes: map<nat, Process>, log: seq<Event>)

  /** `lockLeft` is a lock file that could not be removed, or whose owner died before it began anything. */
  datatype Action =
    | TakeLock(p: nat)
    | Refuse(p: nat, lockLeft: bool)
    | BeginInstall(p: nat, t: Transaction)
    | BeginRollback(p: nat)
    | Write(p: nat, d: Disk)
    | Crash(p: nat)
    | EndInstall(p: nat, r: Result<CecInstallManifest, InstallError>, lockLeft: bool)
    | EndRollback(p: nat, f: Option<Failure>, lockLeft: bool)
    | ClearDeadLock(p: nat)
    | ClearLeftLock(p: nat)

  predicate Active(processes: map<nat, Process>, p: nat) {
    p in processes && !processes[p].Idle?
  }

  ghost predicate Nobody(processes: map<nat, Process>) {
    forall p :: !Active(processes, p)
  }

  ghost predicate MayWrite(process: Process, d: Disk) {
    match process
    case Installing(before, t, alive) => alive && CrashSafe(before, t, d)
    case RollingBack(before, m, alive) => alive && RollbackMid(before, m, d)
    case _ => false
  }

  /** Whether a transaction is under way in the process, alive or dead. */
  predicate Underway(process: Process, alive: bool) {
    (process.Installing? || process.RollingBack?) && process.alive == alive
  }

  ghost predicate Enabled(w: World, a: Action) {
    a.p in w.processes &&
    match a
    case TakeLock(p) => w.processes[p].Idle? && Lock !in w.disk
    case Refuse(p, _) => w.processes[p].Locked?
    case BeginInstall(p, t) => w.processes[p].Locked? && Started(w.disk, t)
    case BeginRollback(p) => w.processes[p].Locked? && Rollbackable(w.disk)
    case Write(p, d) => MayWrite(w.processes[p], d)
    case Crash(p) => Underway(w.processes[p], true)
    // A live transaction ends the way its command was proved to end.
    case EndInstall(p, r, _) =>
      w.processes[p].Installing? && w.processes[p].alive && Ends(w.processes[p].before, w.processes[p].t, r, w.disk)
    case EndRollback(p, f, _) =>
      w.processes[p].RollingBack? && w.processes[p].alive
      && (f.None? ==> w.disk == Restored(w.processes[p].before, w.processes[p].m))
    // Someone removes a lock that a dead or finished process has left.
    case ClearDeadLock(p) => Underway(w.processes[p], false)
    case ClearLeftLock(p) => Nobody(w.processes)
  }

  function Unlock(d: Disk, lockLeft: bool): Disk {
    if lockLeft then d else d - {Lock}
  }

  function InstallEvents(before: Disk, d: Disk): seq<Event> {
    if Manifest in d then [Began(FileAt(before, Target), FileAt(d, Target))] else []
  }

  function RollbackEvents(before: Disk, d: Disk): seq<Event> {
    if Manifest !in d then [Ended]
    else if FileAt(before, Target) != FileAt(d, Target) then [PutBack]
    else []
  }

  /** What a transaction that is over has done. */
  function EndEvents(process: Process, d: Disk): seq<Event> {
    match process
    case Installing(before, _, _) => InstallEvents(before, d)
    case RollingBack(before, _, _) => RollbackEvents(before, d)
    case _ => []
  }

  function Release(w: World, p: nat, lockLeft: bool): World
    requires p in w.processes
  {
    World(Unlock(w.disk, lockLeft), w.processes[p := Idle], w.log + EndEvents(w.processes[p], w.disk))
  }

  function Perform(w: World, a: Action): World
    requires Enabled(w, a)
  {
    match a
    case TakeLock(p) =>
      var d := w.disk[Lock := Data([])];
      w.(disk := d, processes := w.processes[p := Locked(d)])
    case Refuse(p, lockLeft) => Release(w, p, lockLeft)
    case BeginInstall(p, t) => w.(processes := w.processes[p := Installing(w.disk, t, true)])
    case BeginRollback(p) => w.(processes := w.processes[p := RollingBack(w.disk, ManifestIn(w.disk), true)])
    case Write(p, d) => w.(disk := d)
    case Crash(p) => w.(processes := w.processes[p := w.processes[p].(alive := false)])
    case EndInstall(p, _, lockLeft) => Release(w, p, lockLeft)
    case EndRollback(p, _, lockLeft) => Release(w, p, lockLeft)
    case ClearDeadLock(p) => Release(w, p, false)
    case ClearLeftLock(p) => w.(disk := Unlock(w.disk, false))
  }

  // ---------------------------------------------------------------- one transaction at a time

  /** The target, and what it was before the transaction that is still to be rolled back. */
  datatype Serial = Serial(target: Option<File>, outstanding: Option<Option<File>>)

  function After(s: Serial, e: Event): Serial {
    match e
    case Began(prior, target) => Serial(target, Some(prior))
    case PutBack => if s.outstanding.Some? then Serial(s.outstanding.value, s.outstanding) else s
    case Ended => if s.outstanding.Some? then Serial(s.outstanding.value, None) else s
  }

  /** Where the transactions of the log have left the target. */
  function History(start: Option<File>, log: seq<Event>): Serial {
    if |log| == 0 then Serial(start, None) else After(History(start, log[..|log| - 1]), log[|log| - 1])
  }

  /** A transaction begins only with none outstanding and on the target as it stands; a rollback needs one that is. */
  predicate Follows(s: Serial, e: Event) {
    match e
    case Began(prior, _) => s.outstanding.None? && s.target == prior
    case _ => s.outstanding.Some?
  }

  predicate IsSerial(start: Option<File>, log: seq<Event>) {
    |log| == 0
    || (IsSerial(start, log[..|log| - 1]) && Follows(History(start, log[..|log| - 1]), log[|log| - 1]))
  }

  /** A manifest is there exactly while a transaction is outstanding, names its prior target, and the target is the one
      that transaction left. */
  ghost predicate Tied(s: Serial, d: Disk) {
    && (s.outstanding.Some? <==> Manifest in d)
    && (Rollbackable(d) ==> s.outstanding == Some(PriorTarget(ManifestIn(d))))
    && (s.outstanding.Some? ==> s.target == FileAt(d, Target))
  }

  /** The disk the transaction under way has found; the disk itself when there is none. */
  ghost function Ground(w: World): Disk {
    if p :| Active(w.processes, p) then w.processes[p].before else w.disk
  }

  ghost predicate Consistent(process: Process, disk: Disk)
    requires !process.Idle?
  {
    && Lock in process.before && Lock in disk
    && match process
       case Locked(before) => disk == before
       case Installing(before, t, _) => Started(before, t) && CrashSafe(before, t, disk)
       case RollingBack(before, m, _) => Rollbackable(before) && m == ManifestIn(before) && RollbackMid(before, m, disk)
  }

  /** At most one process holds the lock, and what is on the disk is a stage of its transaction. */
  ghost predicate Exclusive(w: World) {
    && (forall p, q :: Active(w.processes, p) && Active(w.processes, q) ==> p == q)
    && (forall p :: Active(w.processes, p) ==> Consistent(w.processes[p], w.disk))
  }

  ghost predicate Inv(w: World, start: Option<File>) {
    Exclusive(w) && Tied(History(start, w.log), Ground(w))
  }

  /** The target is where the finished transactions have left it, apart from the one under way. */
  ghost predicate InStep(w: World, start: Option<File>) {
    History(start, w.log).target == FileAt(Ground(w), Target)
  }

  predicate EndsInstall(w: World, a: Action) {
    a.p in w.processes && w.processes[a.p].Installing? && (a.EndInstall? || a.ClearDeadLock?)
  }

  /** The command reported that neither restoring the target nor publishing the recovery manifest worked. */
  predicate ReportsTwoFailures(a: Action) {
    a.EndInstall? && a.r.Err? && TargetNotRestored in a.r.error.cleanup
      && RecoveryManifestNotPublished in a.r.error.cleanup
  }

  /** An install is given up half way: its command reported two failures, or it is dead and its lock is cleared, while
      there is no manifest and the target is not the one it found. */
  predicate HalfCommits(w: World, a: Action) {
    && EndsInstall(w, a) && (ReportsTwoFailures(a) || a.ClearDeadLock?)
    && Manifest !in w.disk && FileAt(w.disk, Target) != FileAt(w.processes[a.p].before, Target)
  }

  ghost predicate Initial(w: World) {
    Lock !in w.disk && Manifest !in w.disk && w.log == [] && Nobody(w.processes)
  }

  lemma GroundOf(w: World, p: nat)
    requires Exclusive(w) && Active(w.processes, p)
    ensures Ground(w) == w.processes[p].before
  {
  }

  lemma GroundOfNobody(w: World)
    requires Nobody(w.processes)
    ensures Ground(w) == w.disk
  {
  }

  lemma HistorySnoc(start: Option<File>, log: seq<Event>, e: Event)
    ensures History(start, log + [e]) == After(History(start, log), e)
    ensures IsSerial(start, log + [e]) <==> IsSerial(start, log) && Follows(History(start, log), e)
  {
    assert (log + [e])[..|log|] == log;
  }

  // ---------------------------------------------------------------- the end of a transaction

  lemma TiedWithoutLock(s: Serial, d: Disk, lockLeft: bool)
    ensures Tied(s, Unlock(d, lockLeft)) <==> Tied(s, d)
    ensures Tied(s, d[Lock := Data([])]) <==> Tied(s, d)
    ensures FileAt(Unlock(d, lockLeft), Target) == FileAt(d[Lock := Data([])], Target) == FileAt(d, Target)
  {
  }

  /** However an install ends, the history goes on; it is serial if the install began where the history stood, or left
      no manifest. */
  lemma InstallEnds(start: Option<File>, log: seq<Event>, before: Disk, t: Transaction, d: Disk)
    requires Tied(History(start, log), before) && Started(before, t) && CrashSafe(before, t, d)
    ensures var longer := log + InstallEvents(before, d);
      && Tied(History(start, longer), d)
      && (History(start, longer).target == FileAt(d, Target) <==>
            Manifest in d || History(start, log).target == FileAt(d, Target))
      && (IsSerial(start, longer) <==>
            IsSerial(start, log) && (Manifest in d ==> History(start, log).target == FileAt(before, Target)))
  {
    if Manifest in d {
      HistorySnoc(start, log, Began(FileAt(before, Target), FileAt(d, Target)));
    } else {
      assert log + [] == log;
    }
  }

  /** However a rollback ends, the history goes on, serial if it was, and the target is where it leaves it. */
  lemma RollbackEnds(start: Option<File>, log: seq<Event>, before: Disk, m: CecInstallManifest, d: Disk)
    requires Tied(History(start, log), before)
    requires Rollbackable(before) && m == ManifestIn(before) && RollbackMid(before, m, d)
    ensures var longer := log + RollbackEvents(before, d);
      && Tied(History(start, longer), d) && History(start, longer).target == FileAt(d, Target)
      && (IsSerial(start, longer) <==> IsSerial(start, log))
  {
    if Manifest !in d {
      HistorySnoc(start, log, Ended);
    } else if FileAt(before, Target) != FileAt(d, Target) {
      HistorySnoc(start, log, PutBack);
    } else {
      assert log + [] == log;
    }
  }

  // ---------------------------------------------------------------- every step

  lemma OneReplaced(processes: map<nat, Process>, updated: map<nat, Process>, p: nat, q: Process)
    requires updated == processes[p := q]
    requires forall r :: Active(processes, r) ==> r == p
    ensures forall r :: Active(updated, r) <==> r == p && !q.Idle?
  {
    forall r: nat ensures Active(updated, r) <==> r == p && !q.Idle? {
      assert r != p ==> !Active(processes, r);
    }
  }

  /** What a step does to the histories and to the disk the next transaction stands on. */
  ghost predicate Goes(w: World, v: World, start: Option<File>, endsInstall: bool) {
    && Inv(v, start)
    && (InStep(v, start) <==>
          if endsInstall then Manifest in w.disk || History(start, w.log).target == FileAt(w.disk, Target)
          else InStep(w, start))
    && (IsSerial(start, v.log) <==>
          IsSerial(start, w.log) && (endsInstall && Manifest in w.disk ==> InStep(w, start)))
  }

  lemma TakeLockGoes(w: World, start: Option<File>, a: Action)
    requires Inv(w, start) && Enabled(w, a) && a.TakeLock?
    ensures Goes(w, Perform(w, a), start, false)
  {
    forall p | Active(w.processes, p) ensures false {
    }
    var v := Perform(w, a);
    GroundOfNobody(w);
    OneReplaced(w.processes, v.processes, a.p, v.processes[a.p]);
    GroundOf(v, a.p);
    TiedWithoutLock(History(start, w.log), w.disk, true);
  }

  lemma ClearLeftLockGoes(w: World, start: Option<File>, a: Action)
    requires Inv(w, start) && Enabled(w, a) && a.ClearLeftLock?
    ensures Goes(w, Perform(w, a), start, false)
  {
    GroundOfNobody(w);
    GroundOfNobody(Perform(w, a));
    TiedWithoutLock(History(start, w.log), w.disk, false);
  }

  predicate Works(a: Action) { a.BeginInstall? || a.BeginRollback? || a.Write? || a.Crash? }

  lemma WorkGoes(w: World, start: Option<File>, a: Action)
    requires Inv(w, start) && Enabled(w, a) && Works(a)
    ensures Goes(w, Perform(w, a), start, false)
  {
    var v := Perform(w, a);
    assert Active(w.processes, a.p) && Consistent(w.processes[a.p], w.disk);
    OneReplaced(w.processes, w.processes[a.p := v.processes[a.p]], a.p, v.processes[a.p]);
    if a.BeginInstall? {
      StartIsSafe(w.disk, a.t);
    }
    if a.Write? {
      assert SameFile(w.processes[a.p].before, a.d, Lock);
    }
    assert v.processes == w.processes[a.p := v.processes[a.p]];
    assert Consistent(v.processes[a.p], v.disk);
    GroundOf(w, a.p);
    GroundOf(v, a.p);
  }

  predicate Releases(a: Action) { a.Refuse? || a.EndInstall? || a.EndRollback? || a.ClearDeadLock? }

  lemma ReleaseGoes(w: World, start: Option<File>, a: Action)
    requires Inv(w, start) && Enabled(w, a) && Releases(a)
    ensures Goes(w, Perform(w, a), start, EndsInstall(w, a))
  {
    var v, process := Perform(w, a), w.processes[a.p];
    assert Active(w.processes, a.p) && Consistent(process, w.disk);
    GroundOf(w, a.p);
    OneReplaced(w.processes, v.processes, a.p, Idle);
    GroundOfNobody(v);
    TiedWithoutLock(History(start, v.log), w.disk, true);
    TiedWithoutLock(History(start, v.log), w.disk, false);
    if process.Installing? {
      InstallEnds(start, w.log, process.before, process.t, w.disk);
    } else if process.RollingBack? {
      RollbackEnds(start, w.log, process.before, process.m, w.disk);
    } else {
      assert w.log + [] == w.log;
    }
  }

  /** Every step keeps the invariant, whatever has happened before, and only the end of an install can put the target
      and the history out of step or break the history. */
  lemma StepGoes(w: World, start: Option<File>, a: Action)
    requires Inv(w, start) && Enabled(w, a)
    ensures Goes(w, Perform(w, a), start, EndsInstall(w, a))
  {
    if a.TakeLock? {
      TakeLockGoes(w, start, a);
    } else if a.ClearLeftLock? {
      ClearLeftLockGoes(w, start, a);
    } else if Works(a) {
      WorkGoes(w, start, a);
    } else {
      ReleaseGoes(w, start, a);
    }
  }

  // ---------------------------------------------------------------- what damage is

  /** A command leaves another target than it found and no manifest only when it reports both failures. */
  lemma DamageNeedsTwoFailures(before: Disk, t: Transaction, r: Result<CecInstallManifest, InstallError>, d: Disk)
    requires Started(before, t) && Ends(before, t, r, d)
    requires Manifest !in d && FileAt(d, Target) != FileAt(before, Target)
    ensures r.Err? && TargetNotRestored in r.error.cleanup && RecoveryManifestNotPublished in r.error.cleanup
  {
  }

  /** A step keeps the invariant, and puts the target out of step with the history exactly when it gives an install up
      half way. */
  lemma StepKeeps(w: World, start: Option<File>, a: Action)
    requires Inv(w, start) && Enabled(w, a)
    ensures Inv(Perform(w, a), start)
    ensures InStep(w, start) ==> (InStep(Perform(w, a), start) <==> !HalfCommits(w, a))
  {
    StepGoes(w, start, a);
    if EndsInstall(w, a) && InStep(w, start) {
      var process := w.processes[a.p];
      assert Active(w.processes, a.p) && Consistent(process, w.disk);
      GroundOf(w, a.p);
      if a.EndInstall? && Manifest !in w.disk && FileAt(w.disk, Target) != FileAt(process.before, Target) {
        DamageNeedsTwoFailures(process.before, process.t, a.r, w.disk);
      }
    }
  }

  // ---------------------------------------------------------------- whole runs

  ghost predicate IsRun(worlds: seq<World>, actions: seq<Action>) {
    && |worlds| == |actions| + 1 && Initial(worlds[0])
    && forall i :: 0 <= i < |actions| ==>
      Enabled(worlds[i], actions[i]) && worlds[i + 1] == Perform(worlds[i], actions[i])
  }

  /** The target the run started with. */
  function Start(worlds: seq<World>): Option<File>
    requires |worlds| > 0
  {
    FileAt(worlds[0].disk, Target)
  }

  lemma {:induction false} RunKeeps(worlds: seq<World>, actions: seq<Action>, i: nat)
    requires IsRun(worlds, actions) && i < |worlds|
    ensures Inv(worlds[i], Start(worlds))
  {
    if i == 0 {
      GroundOfNobody(worlds[0]);
    } else {
      RunKeeps(worlds, actions, i - 1);
      StepKeeps(worlds[i - 1], Start(worlds), actions[i - 1]);
    }
  }

  /** In every run, damage or not, at most one process is inside a transaction. */
  lemma EveryRunIsExclusive(worlds: seq<World>, actions: seq<Action>, i: nat)
    requires IsRun(worlds, actions) && i < |worlds|
    ensures forall p, q :: Active(worlds[i].processes, p) && Active(worlds[i].processes, q) ==> p == q
  {
    RunKeeps(worlds, actions, i);
  }

  /** In every run, damage or not, a rollback that ends with its manifest gone leaves the target that the transaction it
      ends had found. */
  lemma RollbackReturnsPriorTarget(worlds: seq<World>, actions: seq<Action>, i: nat)
    requires IsRun(worlds, actions) && i < |actions| && (actions[i].EndRollback? || actions[i].ClearDeadLock?)
    requires worlds[i].processes[actions[i].p].RollingBack? && Manifest !in worlds[i].disk
    ensures History(Start(worlds), worlds[i].log).outstanding == Some(FileAt(worlds[i].disk, Target))
  {
    RunKeeps(worlds, actions, i);
    var w := worlds[i];
    assert Active(w.processes, actions[i].p) && Consistent(w.processes[actions[i].p], w.disk);
    GroundOf(w, actions[i].p);
  }

  // ---------------------------------------------------------------- when installs begin on a committed target

  ghost predicate HalfCommitsAt(worlds: seq<World>, actions: seq<Action>, k: nat) {
    k < |actions| && k < |worlds| && HalfCommits(worlds[k], actions[k])
  }

  predicate InstallBeginsAt(actions: seq<Action>, j: nat) {
    j < |actions| && actions[j].BeginInstall?
  }

  /** Nothing is outstanding and the target is where the finished transactions have left it. */
  ghost predicate Committed(w: World, start: Option<File>) {
    History(start, w.log) == Serial(FileAt(w.disk, Target), None)
  }

  lemma {:induction false} InStepUntilDamage(worlds: seq<World>, actions: seq<Action>, i: nat)
    requires IsRun(worlds, actions) && i < |worlds|
    requires forall k: nat :: k < i ==> !HalfCommitsAt(worlds, actions, k)
    ensures InStep(worlds[i], Start(worlds))
  {
    if i == 0 {
      GroundOfNobody(worlds[0]);
    } else {
      InStepUntilDamage(worlds, actions, i - 1);
      RunKeeps(worlds, actions, i - 1);
      assert !HalfCommitsAt(worlds, actions, i - 1);
      StepKeeps(worlds[i - 1], Start(worlds), actions[i - 1]);
    }
  }

  /** In every run, the target and the history get out of step exactly by a reported double failure, or by clearing a
      dead install's lock, while there is no manifest and the target is not the one the install found. */
  lemma DamageArises(worlds: seq<World>, actions: seq<Action>, k: nat)
    requires IsRun(worlds, actions) && k < |actions| && InStep(worlds[k], Start(worlds))
    ensures InStep(worlds[k + 1], Start(worlds)) <==> !HalfCommitsAt(worlds, actions, k)
  {
    RunKeeps(worlds, actions, k);
    StepKeeps(worlds[k], Start(worlds), actions[k]);
  }

  lemma CommittedIsInStep(worlds: seq<World>, actions: seq<Action>, j: nat)
    requires IsRun(worlds, actions) && InstallBeginsAt(actions, j)
    ensures Committed(worlds[j], Start(worlds)) <==> InStep(worlds[j], Start(worlds))
  {
    RunKeeps(worlds, actions, j);
    var w := worlds[j];
    assert Active(w.processes, actions[j].p) && Consistent(w.processes[actions[j].p], w.disk);
    GroundOf(w, actions[j].p);
  }

  /** Out of step, with nothing that could bring the target back: no manifest and no transaction under way. */
  ghost predicate Behind(w: World, start: Option<File>) {
    && !InStep(w, start) && Manifest !in w.disk
    && forall p :: Active(w.processes, p) ==> w.processes[p].Locked?
  }

  lemma DamageLeavesBehind(w: World, start: Option<File>, a: Action)
    requires Inv(w, start) && InStep(w, start) && Enabled(w, a) && HalfCommits(w, a)
    ensures Behind(Perform(w, a), start)
  {
    StepKeeps(w, start, a);
    assert Active(w.processes, a.p);
    OneReplaced(w.processes, Perform(w, a).processes, a.p, Idle);
  }

  lemma OnlyInstallsLeaveBehind(w: World, start: Option<File>, a: Action)
    requires Inv(w, start) && Behind(w, start) && Enabled(w, a) && !a.BeginInstall?
    ensures Behind(Perform(w, a), start)
  {
    assert Active(w.processes, a.p) ==> w.processes[a.p].Locked?;
    StepGoes(w, start, a);
  }

  lemma {:induction false} BehindUntilInstall(worlds: seq<World>, actions: seq<Action>, k: nat, j: nat)
    requires IsRun(worlds, actions) && k < j < |worlds| && HalfCommitsAt(worlds, actions, k)
    requires forall i: nat :: i < k ==> !HalfCommitsAt(worlds, actions, i)
    requires forall i: nat :: k < i < j ==> !InstallBeginsAt(actions, i)
    ensures Behind(worlds[j], Start(worlds))
    decreases j
  {
    RunKeeps(worlds, actions, j - 1);
    if j == k + 1 {
      InStepUntilDamage(worlds, actions, k);
      DamageLeavesBehind(worlds[k], Start(worlds), actions[k]);
    } else {
      BehindUntilInstall(worlds, actions, k, j - 1);
      assert !InstallBeginsAt(actions, j - 1);
      OnlyInstallsLeaveBehind(worlds[j - 1], Start(worlds), actions[j - 1]);
    }
  }

  /** In every run, the first install that begins after the first damage takes a target for its prior state that no
      finished transaction has left. */
  lemma FirstInstallAfterDamage(worlds: seq<World>, actions: seq<Action>, k: nat, j: nat)
    requires IsRun(worlds, actions) && k < j && HalfCommitsAt(worlds, actions, k) && InstallBeginsAt(actions, j)
    requires forall i: nat :: i < k ==> !HalfCommitsAt(worlds, actions, i)
    requires forall i: nat :: k < i < j ==> !InstallBeginsAt(actions, i)
    ensures History(Start(worlds), worlds[j].log).target != FileAt(worlds[j].disk, Target)
  {
    BehindUntilInstall(worlds, actions, k, j);
    CommittedIsInStep(worlds, actions, j);
    RunKeeps(worlds, actions, j);
    GroundOf(worlds[j], actions[j].p);
  }

  lemma {:induction false} FirstDamage(worlds: seq<World>, actions: seq<Action>, k: nat) returns (first: nat)
    requires HalfCommitsAt(worlds, actions, k)
    ensures first <= k && HalfCommitsAt(worlds, actions, first)
    ensures forall i: nat :: i < first ==> !HalfCommitsAt(worlds, actions, i)
  {
    if earlier: nat :| earlier < k && HalfCommitsAt(worlds, actions, earlier) {
      first := FirstDamage(worlds, actions, earlier);
    } else {
      first := k;
    }
  }

  lemma {:induction false} NextInstall(actions: seq<Action>, from: nat, j: nat) returns (next: nat)
    requires from < j && InstallBeginsAt(actions, j)
    ensures from < next <= j && InstallBeginsAt(actions, next)
    ensures forall i: nat :: from < i < next ==> !InstallBeginsAt(actions, i)
    decreases j
  {
    if earlier: nat :| from < earlier < j && InstallBeginsAt(actions, earlier) {
      next := NextInstall(actions, from, earlier);
    } else {
      next := j;
    }
  }

  /** Every install of a run begins on a committed target. */
  ghost predicate InstallsBeginCommitted(worlds: seq<World>, actions: seq<Action>)
    requires |worlds| == |actions| + 1
  {
    forall j: nat :: InstallBeginsAt(actions, j) ==> Committed(worlds[j], Start(worlds))
  }

  /** No install of a run begins after one was given up half way. */
  ghost predicate NoInstallAfterDamage(worlds: seq<World>, actions: seq<Action>) {
    forall k: nat, j: nat :: k < j && HalfCommitsAt(worlds, actions, k) ==> !InstallBeginsAt(actions, j)
  }

  /** The lock's promise, exactly: in every run, no install takes a half-committed target for its prior state if and
      only if none begins after an install was given up half way. */
  lemma InstallBeginsOnCommittedTarget(worlds: seq<World>, actions: seq<Action>)
    requires IsRun(worlds, actions)
    ensures InstallsBeginCommitted(worlds, actions) <==> NoInstallAfterDamage(worlds, actions)
  {
    if NoInstallAfterDamage(worlds, actions) {
      forall j: nat | InstallBeginsAt(actions, j) ensures Committed(worlds[j], Start(worlds)) {
        InStepUntilDamage(worlds, actions, j);
        CommittedIsInStep(worlds, actions, j);
      }
    } else {
      var k: nat, j: nat :| k < j && HalfCommitsAt(worlds, actions, k) && InstallBeginsAt(actions, j);
      var first := FirstDamage(worlds, actions, k);
      var next := NextInstall(actions, first, j);
      FirstInstallAfterDamage(worlds, actions, first, next);
    }
  }

  // ---------------------------------------------------------------- when the history is serial

  /** An install ends with a manifest, and enters the history. */
  ghost predicate PublishesAt(worlds: seq<World>, actions: seq<Action>, k: nat) {
    k < |actions| && k < |worlds| && EndsInstall(worlds[k], actions[k]) && Manifest in worlds[k].disk
  }

  /** Over every interleaving, crashes and cleared locks included, the finished transactions form a serial history
      exactly if every install that entered it stood on the target the history had left. */
  lemma {:induction false} EveryRunIsSerializable(worlds: seq<World>, actions: seq<Action>, i: nat)
    requires IsRun(worlds, actions) && i < |worlds|
    ensures IsSerial(Start(worlds), worlds[i].log) <==>
      forall k: nat :: k < i && PublishesAt(worlds, actions, k) ==> InStep(worlds[k], Start(worlds))
  {
    if i == 0 {
    } else {
      EveryRunIsSerializable(worlds, actions, i - 1);
      RunKeeps(worlds, actions, i - 1);
      StepGoes(worlds[i - 1], Start(worlds), actions[i - 1]);
      assert PublishesAt(worlds, actions, i - 1) <==>
        EndsInstall(worlds[i - 1], actions[i - 1]) && Manifest in worlds[i - 1].disk;
    }
  }

  /** It is serial as long as no install has entered it after one was given up half way. */
  lemma SerialUntilPublishedAfterDamage(worlds: seq<World>, actions: seq<Action>, i: nat)
    requires IsRun(worlds, actions) && i < |worlds|
    requires forall k: nat, d: nat :: d < k < i && PublishesAt(worlds, actions, k) ==>
      !HalfCommitsAt(worlds, actions, d)
    ensures IsSerial(Start(worlds), worlds[i].log)
  {
    forall k: nat | k < i && PublishesAt(worlds, actions, k) ensures InStep(worlds[k], Start(worlds)) {
      InStepUntilDamage(worlds, actions, k);
    }
    EveryRunIsSerializable(worlds, actions, i);
  }

  /** Out of step, an install comes back into step only by entering the history or by being given up half way. */
  lemma OutOfStepStays(w: World, start: Option<File>, a: Action)
    requires Inv(w, start) && !InStep(w, start) && Enabled(w, a)
    requires !HalfCommits(w, a) && !(EndsInstall(w, a) && Manifest in w.disk)
    ensures !InStep(Perform(w, a), start)
  {
    StepGoes(w, start, a);
    if EndsInstall(w, a) {
      var process := w.processes[a.p];
      assert Active(w.processes, a.p) && Consistent(process, w.disk);
      GroundOf(w, a.p);
      if a.EndInstall? && FileAt(w.disk, Target) != FileAt(process.before, Target) {
        DamageNeedsTwoFailures(process.before, process.t, a.r, w.disk);
      }
    }
  }

  lemma {:induction false} OutOfStepSince(worlds: seq<World>, actions: seq<Action>, d: nat, i: nat)
    requires IsRun(worlds, actions) && d < i < |worlds| && HalfCommitsAt(worlds, actions, d)
    requires forall k: nat :: k < i && k != d ==> !HalfCommitsAt(worlds, actions, k)
    requires forall k: nat :: d < k < i ==> !PublishesAt(worlds, actions, k)
    ensures !InStep(worlds[i], Start(worlds))
    decreases i
  {
    RunKeeps(worlds, actions, i - 1);
    if i == d + 1 {
      InStepUntilDamage(worlds, actions, d);
      StepKeeps(worlds[d], Start(worlds), actions[d]);
    } else {
      OutOfStepSince(worlds, actions, d, i - 1);
      assert !HalfCommitsAt(worlds, actions, i - 1) && !PublishesAt(worlds, actions, i - 1);
      OutOfStepStays(worlds[i - 1], Start(worlds), actions[i - 1]);
    }
  }

  lemma {:induction false} FirstPublished(worlds: seq<World>, actions: seq<Action>, d: nat, k: nat) returns (first: nat)
    requires d < k && PublishesAt(worlds, actions, k)
    ensures d < first <= k && PublishesAt(worlds, actions, first)
    ensures forall i: nat :: d < i < first ==> !PublishesAt(worlds, actions, i)
    decreases k
  {
    if earlier: nat :| d < earlier < k && PublishesAt(worlds, actions, earlier) {
      first := FirstPublished(worlds, actions, d, earlier);
    } else {
      first := k;
    }
  }

  /** After a single damage the history stays serial exactly until another install enters it. */
  lemma OneDamageBreaksHistory(worlds: seq<World>, actions: seq<Action>, d: nat, i: nat)
    requires IsRun(worlds, actions) && d < i < |worlds| && HalfCommitsAt(worlds, actions, d)
    requires forall k: nat :: k < i && k != d ==> !HalfCommitsAt(worlds, actions, k)
    ensures IsSerial(Start(worlds), worlds[i].log) <==> forall k: nat :: d < k < i ==> !PublishesAt(worlds, actions, k)
  {
    if k: nat :| d < k < i && PublishesAt(worlds, actions, k) {
      var first := FirstPublished(worlds, actions, d, k);
      OutOfStepSince(worlds, actions, d, first);
      EveryRunIsSerializable(worlds, actions, i);
    } else {
      assert !PublishesAt(worlds, actions, d);
      SerialUntilPublishedAfterDamage(worlds, actions, i);
    }
  }

  // ---------------------------------------------------------------- damage is reached

  /** How the first install is given up: by its own report, or by its death and a cleared lock. */
  function GivenUp(reported: bool): seq<Action> {
    if reported then
      [EndInstall(0, Err(InstallError(IoFailure, [TargetNotRestored, RecoveryManifestNotPublished])), false)]
    else [Crash(0), ClearDeadLock(0)]
  }

  function DamagedInstall(first: Transaction, halfCommitted: Disk, reported: bool): seq<Action> {
    [TakeLock(0), BeginInstall(0, first), Write(0, halfCommitted)] + GivenUp(reported)
  }

  /** Then a second install begins. */
  function DamagedRun(first: Transaction, second: Transaction, halfCommitted: Disk, reported: bool): seq<Action> {
    DamagedInstall(first, halfCommitted, reported) + [TakeLock(0)] + [BeginInstall(0, second)]
  }

  lemma HalfCommittedIsSafe(before: Disk, t: Transaction)
    requires Started(before, t)
    ensures var d := HalfCommitted(before, t);
      CrashSafe(before, t, d) && BackupHeld(t, d) && Manifest !in d && Holds(d, Target, Data(t.bytes))
  {
  }

  lemma RunSnoc(worlds: seq<World>, actions: seq<Action>, a: Action)
    requires IsRun(worlds, actions) && Enabled(worlds[|actions|], a)
    ensures IsRun(worlds + [Perform(worlds[|actions|], a)], actions + [a])
  {
  }

  lemma InstallRuns(first: Transaction, before: Disk, d: Disk) returns (worlds: seq<World>)
    requires Lock !in before && Started(before, first) && CrashSafe(before[Lock := Data([])], first, d)
    ensures IsRun(worlds, [TakeLock(0), BeginInstall(0, first), Write(0, d)]) && worlds[0].disk == before
    ensures var locked := before[Lock := Data([])];
      worlds[3] == World(d, map[0 := Installing(locked, first, true)], [])
  {
    var w0 := World(before, map[0 := Idle], []);
    var w1 := Perform(w0, TakeLock(0));
    var w2 := Perform(w1, BeginInstall(0, first));
    worlds := [w0, w1, w2, Perform(w2, Write(0, d))];
  }

  lemma ReportedInstallRuns(first: Transaction, before: Disk, d: Disk) returns (worlds: seq<World>)
    requires Lock !in before && Started(before, first)
    requires CrashSafe(before[Lock := Data([])], first, d) && BackupHeld(first, d) && Manifest !in d
    ensures IsRun(worlds, DamagedInstall(first, d, true)) && worlds[0].disk == before
    ensures worlds[|worlds| - 1] == World(d - {Lock}, map[0 := Idle], [])
  {
    worlds := InstallRuns(first, before, d);
    var ending := GivenUp(true)[0];
    RunSnoc(worlds, [TakeLock(0), BeginInstall(0, first), Write(0, d)], ending);
    worlds := worlds + [Perform(worlds[3], ending)];
  }

  lemma CrashedInstallRuns(first: Transaction, before: Disk, d: Disk) returns (worlds: seq<World>)
    requires Lock !in before && Started(before, first)
    requires CrashSafe(before[Lock := Data([])], first, d) && Manifest !in d
    ensures IsRun(worlds, DamagedInstall(first, d, false)) && worlds[0].disk == before
    ensures worlds[|worlds| - 1] == World(d - {Lock}, map[0 := Idle], [])
  {
    worlds := InstallRuns(first, before, d);
    var actions := [TakeLock(0), BeginInstall(0, first), Write(0, d)];
    RunSnoc(worlds, actions, Crash(0));
    worlds, actions := worlds + [Perform(worlds[3], Crash(0))], actions + [Crash(0)];
    RunSnoc(worlds, actions, ClearDeadLock(0));
    worlds := worlds + [Perform(worlds[4], ClearDeadLock(0))];
    assert actions + [ClearDeadLock(0)] == DamagedInstall(first, d, false);
  }

  lemma DamagedInstallRuns(first: Transaction, before: Disk, d: Disk, reported: bool) returns (worlds: seq<World>)
    requires Lock !in before && Started(before, first)
    requires CrashSafe(before[Lock := Data([])], first, d) && BackupHeld(first, d) && Manifest !in d
    ensures IsRun(worlds, DamagedInstall(first, d, reported)) && worlds[0].disk == before
    ensures worlds[|worlds| - 1] == World(d - {Lock}, map[0 := Idle], [])
  {
    if reported {
      worlds := ReportedInstallRuns(first, before, d);
    } else {
      worlds := CrashedInstallRuns(first, before, d);
    }
  }

  /** After damage of either kind the next install does take the half-committed bytes for its prior state. */
  lemma DamageLeadsToHalfCommittedPrior(first: Transaction, second: Transaction, before: Disk, reported: bool)
    returns (worlds: seq<World>)
    requires Lock !in before && Started(before, first) && first.previous != Some(first.bytes)
    requires second.previous == Some(first.bytes)
    ensures IsRun(worlds, DamagedRun(first, second, HalfCommitted(before[Lock := Data([])], first), reported))
    ensures worlds[0].disk == before
    ensures var last := worlds[|worlds| - 1];
      History(FileAt(before, Target), last.log) == Serial(FileAt(before, Target), None)
      && FileAt(last.disk, Target) == Some(Data(first.bytes)) != FileAt(before, Target)
  {
    var half := HalfCommitted(before[Lock := Data([])], first);
    HalfCommittedIsSafe(before[Lock := Data([])], first);
    worlds := DamagedInstallRuns(first, before, half, reported);
    var actions := DamagedInstall(first, half, reported);
    RunSnoc(worlds, actions, TakeLock(0));
    worlds, actions := worlds + [Perform(worlds[|actions|], TakeLock(0))], actions + [TakeLock(0)];
    RunSnoc(worlds, actions, BeginInstall(0, second));
    worlds := worlds + [Perform(worlds[|actions|], BeginInstall(0, second))];
  }

  /** The disk in that run is one an undisturbed install passes through, so that a crash can leave it. */
  method CrashReachesHalfCommittedPrior(first: Transaction, second: Transaction, before: Disk)
    returns (dir: CecDirectory, r: Result<CecInstallManifest, InstallError>, ghost worlds: seq<World>)
    requires Lock !in before && Started(before, first) && NoBackupConflict(before, first)
    requires first.previous != Some(first.bytes) && second.previous == Some(first.bytes)
    ensures fresh(dir) && r.Ok? && Installed(before[Lock := Data([])], first, dir.files)
    ensures exists d :: d in dir.visited && IsRun(worlds, DamagedRun(first, second, d, false))
    ensures |worlds| > 0 && worlds[0].disk == before
    ensures FileAt(worlds[|worlds| - 1].disk, Target) == Some(Data(first.bytes)) != FileAt(before, Target)
  {
    dir := new CecDirectory(before[Lock := Data([])], true);
    r := InstallCecTransaction(dir, first);
    worlds := DamageLeadsToHalfCommittedPrior(first, second, before, false);
    assert HalfCommitted(before[Lock := Data([])], first) in dir.visited;
  }

  // ---------------------------------------------------------------- the commands are processes of the protocol

  /** The process may come to rest on `d`, and may die there, after which its lock can be cleared. */
  ghost predicate MayPass(w: World, p: nat, d: Disk) {
    && Enabled(w, Write(p, d))
    && var v := Perform(w, Write(p, d));
      Enabled(v, Crash(p)) && Enabled(Perform(v, Crash(p)), ClearDeadLock(p))
  }

  /** The protocol leaves out nothing an install does: each disk the transaction passes through is a write its process
      may do and may die on, and however it ends is an end its process may come to, with or without its lock. */
  method InstallIsARun(dir: CecDirectory, ghost w: World, ghost p: nat, t: Transaction)
    returns (r: Result<CecInstallManifest, InstallError>, ghost v: World)
    requires p in w.processes && w.processes[p].Locked? && dir.files == w.disk && Started(w.disk, t)
    modifies dir
    ensures Enabled(w, Refuse(p, true)) && Enabled(w, Refuse(p, false)) && Enabled(w, BeginInstall(p, t))
    ensures v == Perform(w, BeginInstall(p, t)) && forall d :: d in dir.visited ==> MayPass(v, p, d)
    ensures MayPass(v, p, dir.files)
      && forall lockLeft :: Enabled(Perform(v, Write(p, dir.files)), EndInstall(p, r, lockLeft))
  {
    v := Perform(w, BeginInstall(p, t));
    r := InstallCecTransaction(dir, t);
  }

  /** Nor anything a rollback does. */
  method RollbackIsARun(dir: CecDirectory, ghost w: World, ghost p: nat) returns (f: Option<Failure>, ghost v: World)
    requires p in w.processes && w.processes[p].Locked? && dir.files == w.disk && Rollbackable(w.disk)
    modifies dir
    ensures Enabled(w, BeginRollback(p))
    ensures v == Perform(w, BeginRollback(p)) && forall d :: d in dir.visited ==> MayPass(v, p, d)
    ensures MayPass(v, p, dir.files)
      && forall lockLeft :: Enabled(Perform(v, Write(p, dir.files)), EndRollback(p, f, lockLeft))
  {
    v := Perform(w, BeginRollback(p));
    f := RollbackUnderLock(dir, false);
  }

  /** The lock is taken exactly when it is free, and can be cleared by hand exactly when nobody is at work. */
  lemma LockRules(w: World, p: nat)
    requires p in w.processes && w.processes[p].Idle?
    ensures Enabled(w, TakeLock(p)) <==> Lock !in w.disk
    ensures Enabled(w, TakeLock(p)) ==> var v := Perform(w, TakeLock(p));
      Lock in v.disk && v.processes[p] == Locked(v.disk) && forall q :: !Enabled(v, TakeLock(q))
    ensures Enabled(w, ClearLeftLock(p)) <==> forall q :: q in w.processes ==> w.processes[q].Idle?
  {
    if Nobody(w.processes) {
      forall q | q in w.processes ensures w.processes[q].Idle? {
        assert !Active(w.processes, q);
      }
    }
  }
}
