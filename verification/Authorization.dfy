/** The Windows front end's rules for when it may ask the converter to write the character slot. Every operation runs
    to its end before the next user event; what the disk holds and what the converter answers are inputs. */
module Authorization {
  import opened Base
  import opened Merge

  type Text = string

  // ---------------------------------------------------------------- fingerprints

  /** The state of a file when it is looked at; an unreadable one makes the operation fail. */
  datatype FileState = Absent | Present(sha256: Text) | Unreadable

  type Files = Text -> FileState

  datatype FileFingerprint = FileFingerprint(path: Text, present: bool, sha256: Option<Text>)

  const MISSING_HASH: Text := "<missing>"

  function Folded(s: Text): Text {
    if |s| == 0 then []
      else Folded(s[..|s| - 1]) + [if 'A' <= s[|s| - 1] <= 'Z' then s[|s| - 1] - 'A' + 'a' else s[|s| - 1]]
  }

  function HashText(f: FileFingerprint): Text { if f.sha256.Some? then f.sha256.value else MISSING_HASH }

  /** Same path, presence and hash, letter case aside. */
  predicate Matches(f: FileFingerprint, g: FileFingerprint) {
    Folded(f.path) == Folded(g.path) && f.present == g.present && Folded(HashText(f)) == Folded(HashText(g))
  }

  function Capture(files: Files, path: Text): Option<FileFingerprint> {
    match files(path)
    case Absent => Some(FileFingerprint(path, false, None))
    case Present(sha256) => Some(FileFingerprint(path, true, Some(sha256)))
    case Unreadable => None
  }

  datatype CoreSavePaths = CoreSavePaths(source: Text, current: Text, target: Text)

  /** The fingerprints of one look at the selected files; the reference save only counts in repair mode. */
  datatype Look = Look(source: FileFingerprint, current: Option<FileFingerprint>, target: FileFingerprint)

  /** A fingerprint taken from a file: a hash exactly when the file is there. */
  predicate Captured(f: FileFingerprint) { f.present <==> f.sha256.Some? }

  predicate CapturedLook(look: Look) {
    Captured(look.source) && Captured(look.target) && (look.current.Some? ==> Captured(look.current.value))
  }

  function CaptureAll(files: Files, paths: CoreSavePaths, repair: bool): (r: Option<Look>)
    ensures r.Some? ==> CapturedLook(r.value) && (r.value.current.Some? <==> repair)
  {
    var source, current, target := Capture(files, paths.source), Capture(files, paths.current),
        Capture(files, paths.target);
    if source.None? || target.None? || (repair && current.None?) then None
    else Some(Look(source.value, if repair then current else None, target.value))
  }

  predicate LooksMatch(a: Look, b: Look) {
    Matches(a.source, b.source) && Matches(a.target, b.target)
    && (a.current.Some? ==> b.current.Some? && Matches(a.current.value, b.current.value))
  }

  /** Both looks succeed and agree. */
  predicate Steady(before: Files, after: Files, paths: CoreSavePaths, repair: bool) {
    var a, b := CaptureAll(before, paths, repair), CaptureAll(after, paths, repair);
    a.Some? && b.Some? && LooksMatch(a.value, b.value)
  }

  // ---------------------------------------------------------------- what agreeing means

  /** Equal characters, or the two cases of one letter. */
  predicate SameLetter(a: char, b: char) {
    a == b || ('A' <= a <= 'Z' && b == a - 'A' + 'a') || ('A' <= b <= 'Z' && a == b - 'A' + 'a')
  }

  predicate Alike(a: Text, b: Text) {
    |a| == |b| && forall i :: 0 <= i < |a| ==> SameLetter(a[i], b[i])
  }

  function Lower(c: char): char { if 'A' <= c <= 'Z' then c - 'A' + 'a' else c }

  lemma {:induction false} FoldedAt(s: Text)
    ensures |Folded(s)| == |s| && forall i :: 0 <= i < |s| ==> Folded(s)[i] == Lower(s[i])
  {
    if |s| == 0 {
    } else {
      FoldedAt(s[..|s| - 1]);
    }
  }

  /** Folded texts are equal exactly when the texts have the same letters. */
  lemma FoldedMeaning(a: Text, b: Text)
    ensures Folded(a) == Folded(b) <==> Alike(a, b)
  {
    FoldedAt(a);
    FoldedAt(b);
    if Folded(a) == Folded(b) {
      assert |a| == |b|;
      forall i | 0 <= i < |a| ensures SameLetter(a[i], b[i]) {
        assert Lower(a[i]) == Folded(a)[i] == Folded(b)[i] == Lower(b[i]);
      }
    }
  }

  /** Two fingerprints name the same file in the same state, letter case aside. */
  predicate Agree(f: FileFingerprint, g: FileFingerprint) {
    && Alike(f.path, g.path) && f.present == g.present
    && (f.present ==> f.sha256.Some? && g.sha256.Some? && Alike(f.sha256.value, g.sha256.value))
  }

  /** The file at `path` is there, or not, as the fingerprint says, with the hash it says. */
  predicate FileAgrees(f: FileFingerprint, path: Text, state: FileState) {
    && Alike(f.path, path)
    && match state
       case Absent => !f.present
       case Present(hash) => f.present && f.sha256.Some? && Alike(f.sha256.value, hash)
       case Unreadable => false
  }

  /** Every file that counts is as the look found it. */
  predicate FilesAgree(look: Look, files: Files, paths: CoreSavePaths, repair: bool) {
    && FileAgrees(look.source, paths.source, files(paths.source))
    && FileAgrees(look.target, paths.target, files(paths.target))
    && (repair ==> look.current.Some? && FileAgrees(look.current.value, paths.current, files(paths.current)))
  }

  lemma MatchesMeaning(f: FileFingerprint, g: FileFingerprint)
    requires Captured(f) && Captured(g)
    ensures Matches(f, g) <==> Agree(f, g)
  {
    FoldedMeaning(f.path, g.path);
    FoldedMeaning(HashText(f), HashText(g));
  }

  lemma CaptureMeaning(f: FileFingerprint, files: Files, path: Text)
    requires Captured(f)
    ensures var g := Capture(files, path);
      FileAgrees(f, path, files(path)) <==> g.Some? && Matches(f, g.value)
  {
    var g := Capture(files, path);
    if g.Some? {
      MatchesMeaning(f, g.value);
    }
  }

  /** A look agrees with another one at the files exactly when the files themselves agree with it. */
  lemma LookMeaning(look: Look, files: Files, paths: CoreSavePaths, repair: bool)
    requires CapturedLook(look) && (look.current.Some? <==> repair)
    ensures var seen := CaptureAll(files, paths, repair);
      FilesAgree(look, files, paths, repair) <==> seen.Some? && LooksMatch(look, seen.value)
  {
    CaptureMeaning(look.source, files, paths.source);
    CaptureMeaning(look.target, files, paths.target);
    if repair {
      CaptureMeaning(look.current.value, files, paths.current);
    }
  }

  // ---------------------------------------------------------------- what is remembered

  datatype ConversionMode = NewConversion | RepairConverted

  datatype WorkflowStage = Input | Inspected | DryRunAuthorized | Writing | Written | RolledBack | Failed

  /** Everything the user has selected for the core operation. */
  datatype Selections = Selections(sourcePath: Text, currentPath: Text, targetPath: Text, slot: Text)

  datatype DryRunAuthorization = DryRunAuthorization(source: FileFingerprint, target: FileFingerprint,
      sourceReportHash: Text)

  datatype RepairDigests = RepairDigests(sourceSet: Text, currentSet: Text, outputSet: Text, preview: Text)

  datatype RepairDryRunAuthorization = RepairDryRunAuthorization(
    source: FileFingerprint, current: FileFingerprint, output: FileFingerprint,
    extDataSource: Option<Text>, fromVersion: Option<Revision>, digests: RepairDigests)

  /** What a converter Dry Run answers; None when it fails or its report lacks a field it must have. */
  datatype ConvertReport = ConvertReport(source: Option<Text>, targetBefore: Option<Text>)
  datatype RepairReport = RepairReport(digests: RepairDigests, ambiguous: bool)

  datatype WriteCommand =
    | Convert(source: Text, target: Text, expectedSource: Text, expectedTarget: Option<Text>)
    | Repair(
        sourceSave: Text, currentSave: Text, output: Text,
        extData: Option<Text>, fromVersion: Option<Revision>, expected: RepairDigests)

  /** The report of a conversion Dry Run names the hashes of the files just looked at. */
  predicate NamesHashes(report: ConvertReport, seen: Look) {
    seen.source.present && report.source.Some? && Folded(report.source.value) == Folded(HashText(seen.source))
    && (if seen.target.present
      then report.targetBefore.Some? && Folded(report.targetBefore.value) == Folded(HashText(seen.target))
        else report.targetBefore.None?)
  }

  /** The report of a conversion names the hash of the original, and that of the target or its absence. */
  predicate ReportNames(report: ConvertReport, source: FileState, target: FileState) {
    && source.Present? && report.source.Some? && Alike(report.source.value, source.sha256)
    && match target
       case Absent => report.targetBefore.None?
       case Present(hash) => report.targetBefore.Some? && Alike(report.targetBefore.value, hash)
       case Unreadable => false
  }

  lemma NamedHashes(report: ConvertReport, seen: Look, files: Files, paths: CoreSavePaths)
    requires CaptureAll(files, paths, false) == Some(seen)
    ensures NamesHashes(report, seen) <==> ReportNames(report, files(paths.source), files(paths.target))
  {
    if report.source.Some? {
      FoldedMeaning(report.source.value, HashText(seen.source));
    }
    if report.targetBefore.Some? {
      FoldedMeaning(report.targetBefore.value, HashText(seen.target));
    }
  }

  /** What a Dry Run has granted. */
  datatype Grant = CoreGrant(core: DryRunAuthorization) | RepairGrant(repair: RepairDryRunAuthorization)

  /** A write handed to the converter, with the look taken right before it and what was selected at that moment. */
  datatype Issued = Issued(
    command: WriteCommand, seen: Look, guildCards: Option<Text>, revision: Option<Revision>,
    authorization: Grant)

  /** The look agrees with the live authorization; exactly one is live. */
  predicate MatchesAuthorization(
      seen: Look, core: Option<DryRunAuthorization>, repair: Option<RepairDryRunAuthorization>)
  {
    match repair
    case Some(a) =>
      Matches(a.source, seen.source) && Matches(a.output, seen.target) && seen.current.Some?
        && Matches(a.current, seen.current.value)
    case None => core.Some? && Matches(core.value.source, seen.source) && Matches(core.value.target, seen.target)
  }

  /** The files just looked at are the ones the write was authorized for, its paths are theirs, and its hashes are the
      ones the authorization holds: for a conversion those of the files, for a repair those of whole sets, with the
      guild-card scope and the release that are selected. */
  predicate Justified(w: Issued) {
    match w.command
    case Convert(source, target, expectedSource, expectedTarget) =>
      w.seen.source.path == source && w.seen.target.path == target && CapturedLook(w.seen)
      && w.seen.source.present && Alike(expectedSource, w.seen.source.sha256.value)
      && (if w.seen.target.present
        then expectedTarget.Some? && Alike(expectedTarget.value, w.seen.target.sha256.value)
          else expectedTarget.None?)
      && w.authorization.CoreGrant? && Agree(w.authorization.core.source, w.seen.source)
      && Agree(w.authorization.core.target, w.seen.target) && expectedSource == w.authorization.core.sourceReportHash
    case Repair(source, current, output, extData, fromVersion, expected) =>
      w.seen.source.path == source && w.seen.target.path == output
      && w.seen.current.Some? && w.seen.current.value.path == current
      && extData == w.guildCards && fromVersion == w.revision
      && w.authorization.RepairGrant? && Agree(w.authorization.repair.source, w.seen.source)
      && Agree(w.authorization.repair.current, w.seen.current.value) && w.seen.current.value.present
      && Agree(w.authorization.repair.output, w.seen.target) && expected == w.authorization.repair.digests
  }

  /** The conversion Dry Run found these files before and after, and its report names their hashes. */
  predicate ConvertGranted(
    a: DryRunAuthorization, paths: CoreSavePaths, before: Files, report: ConvertReport, after: Files)
  {
    && FilesAgree(Look(a.source, None, a.target), before, paths, false)
    && FilesAgree(Look(a.source, None, a.target), after, paths, false)
    && ReportNames(report, after(paths.source), after(paths.target)) && report.source == Some(a.sourceReportHash)
  }

  /** The repair Dry Run found these files before and after, and its report leaves no release to choose. */
  predicate RepairGranted(
    a: RepairDryRunAuthorization, paths: CoreSavePaths, before: Files, report: RepairReport, after: Files)
  {
    && FilesAgree(Look(a.source, Some(a.current), a.output), before, paths, true)
    && FilesAgree(Look(a.source, Some(a.current), a.output), after, paths, true)
    && a.digests == report.digests && !(report.ambiguous && a.fromVersion.None?)
  }

  predicate Granted(
    g: Grant, paths: CoreSavePaths, before: Files, convert: Option<ConvertReport>, repair: Option<RepairReport>,
        after: Files)
  {
    match g
    case CoreGrant(a) => convert.Some? && ConvertGranted(a, paths, before, convert.value, after)
    case RepairGrant(a) => repair.Some? && RepairGranted(a, paths, before, repair.value, after)
  }

  /** When a Dry Run authorizes: the files are the inspected ones before and after it, and the report is complete, names
      their hashes or, for a repair, leaves no release to choose. */
  predicate DryRunGrants(
    seen: Look, mode: ConversionMode, fromVersion: Option<Revision>, paths: CoreSavePaths,
    before: Files, convert: Option<ConvertReport>, repair: Option<RepairReport>, after: Files)
  {
    Steady(before, after, paths, mode == RepairConverted)
    && LooksMatch(seen, CaptureAll(before, paths, mode == RepairConverted).value)
    && if mode == RepairConverted then repair.Some? && !(repair.value.ambiguous && fromVersion.None?)
       else convert.Some? && NamesHashes(convert.value, CaptureAll(after, paths, false).value)
  }

  /** The files are steady exactly when what is found after is what was there before. */
  lemma SteadyMeaning(before: Files, after: Files, paths: CoreSavePaths, repair: bool)
    ensures var found := CaptureAll(after, paths, repair);
      Steady(before, after, paths, repair) <==> found.Some? && FilesAgree(found.value, before, paths, repair)
    ensures var found := CaptureAll(after, paths, repair);
      found.Some? ==> FilesAgree(found.value, after, paths, repair)
  {
    var found := CaptureAll(after, paths, repair);
    if found.Some? {
      LookMeaning(found.value, before, paths, repair);
      LookMeaning(found.value, after, paths, repair);
    }
  }

  lemma FoldedAgree(look: Look, a: Look, b: Look)
    requires LooksMatch(look, a)
    requires look.current.Some? ==> a.current.Some?
    requires a.current.Some? ==> look.current.Some?
    ensures LooksMatch(a, b) <==> LooksMatch(look, b)
  {
  }

  /** The report of a Dry Run leaves nothing open: that of a conversion names the hashes of the files, that of a repair
      is not ambiguous unless a release is selected. */
  predicate Complete(
    mode: ConversionMode, fromVersion: Option<Revision>, paths: CoreSavePaths,
    convert: Option<ConvertReport>, repair: Option<RepairReport>, after: Files)
  {
    if mode == RepairConverted then repair.Some? && (repair.value.ambiguous ==> fromVersion.Some?)
    else convert.Some? && ReportNames(convert.value, after(paths.source), after(paths.target))
  }

  /** A Dry Run authorizes exactly when every file is, before and after it, as it was inspected, and the report is
      complete. */
  lemma GrantMeaning(
    seen: Look, mode: ConversionMode, fromVersion: Option<Revision>, paths: CoreSavePaths,
    before: Files, convert: Option<ConvertReport>, repair: Option<RepairReport>, after: Files)
    requires CapturedLook(seen) && (seen.current.Some? <==> mode == RepairConverted)
    ensures DryRunGrants(seen, mode, fromVersion, paths, before, convert, repair, after) <==>
      FilesAgree(seen, before, paths, mode == RepairConverted)
        && FilesAgree(seen, after, paths, mode == RepairConverted)
      && Complete(mode, fromVersion, paths, convert, repair, after)
  {
    var isRepair := mode == RepairConverted;
    LookMeaning(seen, before, paths, isRepair);
    LookMeaning(seen, after, paths, isRepair);
    var first, second := CaptureAll(before, paths, isRepair), CaptureAll(after, paths, isRepair);
    if first.Some? && LooksMatch(seen, first.value) && second.Some? {
      FoldedAgree(seen, first.value, second.value);
      if !isRepair && convert.Some? {
        NamedHashes(convert.value, second.value, after, paths);
      }
    }
  }

  lemma ConvertIsGranted(
    paths: CoreSavePaths, before: Files, first: Look, report: ConvertReport, after: Files, second: Look)
    requires CaptureAll(before, paths, false) == Some(first) && CaptureAll(after, paths, false) == Some(second)
    requires LooksMatch(first, second) && NamesHashes(report, second)
    ensures ConvertGranted(DryRunAuthorization(second.source, second.target, report.source.value),
      paths, before, report, after)
  {
    assert second == Look(second.source, None, second.target);
    LookMeaning(second, before, paths, false);
    LookMeaning(second, after, paths, false);
    NamedHashes(report, second, after, paths);
  }

  lemma RepairIsGranted(
    a: RepairDryRunAuthorization, paths: CoreSavePaths, before: Files, first: Look, report: RepairReport, after: Files,
    second: Look)
    requires CaptureAll(before, paths, true) == Some(first) && CaptureAll(after, paths, true) == Some(second)
    requires LooksMatch(first, second) && first == Look(a.source, Some(a.current), a.output)
    requires a.digests == report.digests && !(report.ambiguous && a.fromVersion.None?)
    ensures RepairGranted(a, paths, before, report, after)
  {
    LookMeaning(first, before, paths, true);
    LookMeaning(first, after, paths, true);
  }

  /** The files an authorization was granted for are there as they were then. */
  predicate AuthorizedFiles(
    core: Option<DryRunAuthorization>, repair: Option<RepairDryRunAuthorization>, paths: CoreSavePaths, now: Files)
  {
    match repair
    case Some(a) =>
      && FileAgrees(a.source, paths.source, now(paths.source))
        && FileAgrees(a.current, paths.current, now(paths.current))
      && FileAgrees(a.output, paths.target, now(paths.target))
    case None =>
      && core.Some? && FileAgrees(core.value.source, paths.source, now(paths.source))
      && FileAgrees(core.value.target, paths.target, now(paths.target))
  }

  /** When a write is handed over: an authorization is live and a fresh look finds the authorized files. */
  predicate WriteAllowed(
    mode: ConversionMode, core: Option<DryRunAuthorization>, repair: Option<RepairDryRunAuthorization>,
    paths: Option<CoreSavePaths>, now: Files)
  {
    (core.Some? || repair.Some?) && paths.Some?
    && CaptureAll(now, paths.value, mode == RepairConverted).Some?
    && MatchesAuthorization(CaptureAll(now, paths.value, mode == RepairConverted).value, core, repair)
  }

  /** A write is handed over exactly when every file the live authorization was granted for is there as it was then. */
  lemma WriteMeaning(
    mode: ConversionMode, core: Option<DryRunAuthorization>, repair: Option<RepairDryRunAuthorization>,
    paths: CoreSavePaths, now: Files)
    requires core.Some? ==> mode == NewConversion && Captured(core.value.source) && Captured(core.value.target)
    requires repair.Some? ==> mode == RepairConverted && Captured(repair.value.source)
    requires repair.Some? ==> Captured(repair.value.current) && Captured(repair.value.output)
    ensures WriteAllowed(mode, core, repair, Some(paths), now) <==> AuthorizedFiles(core, repair, paths, now)
  {
    if repair.Some? {
      CaptureMeaning(repair.value.source, now, paths.source);
      CaptureMeaning(repair.value.current, now, paths.current);
      CaptureMeaning(repair.value.output, now, paths.target);
    } else if core.Some? {
      CaptureMeaning(core.value.source, now, paths.source);
      CaptureMeaning(core.value.target, now, paths.target);
    }
  }

  /** Every write was justified, and its authorization was granted. */
  ghost predicate AllJustified(issued: seq<Issued>, granted: set<Grant>) {
    forall w :: w in issued ==> Justified(w) && w.authorization in granted
  }

  lemma OneMoreJustified(issued: seq<Issued>, granted: set<Grant>, write: Issued)
    requires AllJustified(issued, granted)
    requires Justified(write) && write.authorization in granted
    ensures AllJustified(issued + [write], granted)
  {
  }

  lemma MoreGranted(issued: seq<Issued>, granted: set<Grant>, g: Grant)
    requires AllJustified(issued, granted)
    ensures AllJustified(issued, granted + {g})
  {
  }

  predicate SameLetters(a: Text, b: Text) { Folded(a) == Folded(b) }

  predicate SameText(a: Option<Text>, b: Option<Text>) {
    (a.None? && b.None?) || (a.Some? && b.Some? && SameLetters(a.value, b.value))
  }

  function ConvertCommand(paths: CoreSavePaths, a: DryRunAuthorization): WriteCommand {
    Convert(paths.source, paths.target, a.sourceReportHash, if a.target.present then a.target.sha256 else None)
  }

  lemma ConvertIsJustified(a: DryRunAuthorization, paths: CoreSavePaths, now: Files, w: Issued)
    requires CaptureAll(now, paths, false) == Some(w.seen) && MatchesAuthorization(w.seen, Some(a), None)
    requires a.source.present && Folded(a.sourceReportHash) == Folded(HashText(a.source))
    requires Captured(a.source) && Captured(a.target)
    requires w.command == ConvertCommand(paths, a) && w.authorization == CoreGrant(a)
    ensures Justified(w)
  {
    MatchesMeaning(a.source, w.seen.source);
    MatchesMeaning(a.target, w.seen.target);
    FoldedMeaning(a.sourceReportHash, HashText(w.seen.source));
  }

  function RepairCommand(paths: CoreSavePaths, a: RepairDryRunAuthorization): WriteCommand {
    Repair(paths.source, paths.current, paths.target, a.extDataSource, a.fromVersion, a.digests)
  }

  lemma CapturedPaths(now: Files, paths: CoreSavePaths)
    requires CaptureAll(now, paths, true).Some?
    ensures var seen := CaptureAll(now, paths, true).value;
      seen.source.path == paths.source && seen.target.path == paths.target
      && seen.current.Some? && seen.current.value.path == paths.current
  {
  }

  lemma RepairIsJustified(a: RepairDryRunAuthorization, paths: CoreSavePaths, now: Files, seen: Look)
    requires CaptureAll(now, paths, true) == Some(seen) && MatchesAuthorization(seen, None, Some(a))
    requires Captured(a.source) && Captured(a.current) && Captured(a.output) && a.current.present
    ensures Justified(Issued(RepairCommand(paths, a), seen, a.extDataSource, a.fromVersion, RepairGrant(a)))
  {
    CapturedPaths(now, paths);
    MatchesMeaning(a.source, seen.source);
    MatchesMeaning(a.current, seen.current.value);
    MatchesMeaning(a.output, seen.target);
  }

  /** The command is the one the live authorization calls for. */
  predicate IsAuthorizedCommand(
    command: WriteCommand, mode: ConversionMode, paths: CoreSavePaths,
    core: Option<DryRunAuthorization>, repair: Option<RepairDryRunAuthorization>)
  {
    if mode == RepairConverted then repair.Some? && command == RepairCommand(paths, repair.value)
    else core.Some? && command == ConvertCommand(paths, core.value)
  }

  class MainViewModel {
    var mode: ConversionMode
    var selections: Selections
    var repairFromVersion: Option<Revision>
    var repairGuildCardSource: Option<Text>
    var inspected: Option<Look>
    var coreAuthorization: Option<DryRunAuthorization>
    var repairAuthorization: Option<RepairDryRunAuthorization>
    var revisionSelectionRequired: bool
    var stage: WorkflowStage
    /** What was selected when the live authorization was granted. */
    ghost var authorizedFor: Selections
    /** Every authorization granted so far. */
    ghost var granted: set<Grant>
    /** Every write handed to the converter so far. */
    var issued: seq<Issued>

    /** The files an authorization was granted for are the inspected ones. */
    ghost predicate CoreHolds()
      reads this
    {
      coreAuthorization.Some? ==>
        var a := coreAuthorization.value;
        CoreGrant(a) in granted && mode == NewConversion && authorizedFor == selections
        && inspected.Some? && Matches(inspected.value.source, a.source) && Matches(inspected.value.target, a.target)
        && a.source.present && Folded(a.sourceReportHash) == Folded(HashText(a.source))
        && Captured(a.source) && Captured(a.target)
    }

    ghost predicate RepairHolds()
      reads this
    {
      repairAuthorization.Some? ==>
        var a := repairAuthorization.value;
        RepairGrant(a) in granted && mode == RepairConverted && authorizedFor == selections
          && !revisionSelectionRequired
        && inspected.Some? && inspected.value.current.Some?
        && Matches(inspected.value.source, a.source) && Matches(inspected.value.current.value, a.current)
        && Matches(inspected.value.target, a.output)
        && Captured(a.source) && Captured(a.current) && Captured(a.output) && a.current.present
        && a.extDataSource == repairGuildCardSource && a.fromVersion == repairFromVersion
    }

    ghost predicate Valid()
      reads this
    {
      CoreHolds() && RepairHolds()
      && (inspected.Some? ==> CapturedLook(inspected.value))
      && (inspected.Some? ==> (inspected.value.current.Some? <==> mode == RepairConverted))
      && AllJustified(issued, granted)
    }

    /** The authorizations that are live. */
    ghost function Live(): set<Grant>
      reads this
    {
      (if coreAuthorization.Some? then {CoreGrant(coreAuthorization.value)} else {})
      + (if repairAuthorization.Some? then {RepairGrant(repairAuthorization.value)} else {})
    }

    predicate Authorized()
      reads this
    {
      coreAuthorization.Some? || repairAuthorization.Some?
    }

    constructor ()
      ensures Valid() && issued == [] && granted == {} && !Authorized() && mode == NewConversion
    {
      mode := NewConversion;
      selections := Selections("", "", "", "");
      repairFromVersion, repairGuildCardSource, inspected := None, None, None;
      coreAuthorization, repairAuthorization := None, None;
      revisionSelectionRequired := false;
      stage := Input;
      authorizedFor := Selections("", "", "", "");
      issued := [];
      granted := {};
    }

    method InvalidateCoreAuthorization()
      modifies this
      ensures !Authorized() && inspected.None?
      ensures unchanged(`mode, `selections, `repairFromVersion, `repairGuildCardSource, `revisionSelectionRequired,
          `issued, `granted)
      ensures stage == old(stage) || stage == Input
    {
      inspected, coreAuthorization, repairAuthorization := None, None, None;
      if stage != Written && stage != RolledBack {
        stage := Input;
      }
    }

    /** Revokes an authorization but keeps a complete inspection. */
    method InvalidatePreservingInspection()
      requires Valid()
      modifies this
      ensures Valid() && !Authorized()
      ensures unchanged(`mode, `selections, `repairFromVersion, `repairGuildCardSource, `issued, `granted)
      ensures inspected == if old(inspected).Some?
        && (mode == RepairConverted ==> old(inspected).value.current.value.present)
        then old(inspected) else None
      ensures inspected.Some? ==> stage == Inspected
    {
      coreAuthorization, repairAuthorization := None, None;
      revisionSelectionRequired := false;
      if inspected.None? || (mode == RepairConverted && !inspected.value.current.value.present) {
        InvalidateCoreAuthorization();
        return;
      }
      stage := Inspected;
    }

    method SetRepairFromVersion(revision: Option<Revision>)
      requires Valid()
      modifies this
      ensures Valid() && repairFromVersion == revision
      ensures revision != old(repairFromVersion) ==> repairAuthorization.None?
      ensures unchanged(`mode, `selections, `repairGuildCardSource, `inspected, `coreAuthorization, `issued, `granted)
    {
      if repairFromVersion == revision {
        return;
      }
      repairFromVersion := revision;
      repairAuthorization := None;
      revisionSelectionRequired := false;
    }

    method SetConversionMode(next: ConversionMode)
      requires Valid()
      modifies this
      ensures Valid() && mode == next && unchanged(`selections, `issued, `granted)
      ensures next != old(mode) ==>
        !Authorized() && inspected.None? && repairGuildCardSource.None? && repairFromVersion.None?
    {
      if mode == next {
        return;
      }
      mode := next;
      repairGuildCardSource, repairFromVersion := None, None;
      revisionSelectionRequired := false;
      InvalidateCoreAuthorization();
    }

    /** The setters of the three paths and of the slot. */
    method Select(next: Selections)
      requires Valid()
      modifies this
      ensures Valid() && selections == next
        && unchanged(`mode, `repairFromVersion, `repairGuildCardSource, `issued, `granted)
      ensures next != old(selections) ==> !Authorized() && inspected.None?
    {
      if selections != next {
        selections := next;
        InvalidateCoreAuthorization();
      }
    }

    predicate CanRunCoreDryRun()
      reads this
    {
      inspected.Some?
        && (mode == RepairConverted ==> inspected.value.current.Some? && inspected.value.current.value.present)
    }

    /** Commits the guild-card choice; `resolved` is what its draft path resolves to, None if it does not. */
    method CommitRepairOptionalScope(
        skip: bool, includeGuildCards: bool, resolved: Option<Text>)
    returns (committed: bool)
      requires Valid()
      modifies this
      ensures Valid() && unchanged(`mode, `selections, `repairFromVersion, `issued, `granted)
      ensures repairGuildCardSource != old(repairGuildCardSource) ==> !Authorized()
      ensures repairGuildCardSource != old(repairGuildCardSource) ==>
        inspected == if old(CanRunCoreDryRun()) then old(inspected) else None
      ensures committed <==> skip || mode != RepairConverted || !includeGuildCards || resolved.Some?
      ensures committed ==>
        var next := if !skip && mode == RepairConverted && includeGuildCards then resolved else None;
        SameText(repairGuildCardSource, next)
        && repairGuildCardSource == if SameText(old(repairGuildCardSource), next) then old(repairGuildCardSource)
          else next
      ensures !committed ==> repairGuildCardSource == old(repairGuildCardSource)
      ensures repairGuildCardSource == old(repairGuildCardSource) ==>
        unchanged(`inspected, `coreAuthorization, `repairAuthorization)
    {
      var next := None;
      if !skip && mode == RepairConverted && includeGuildCards {
        if resolved.None? {
          stage := Failed;
          return false;
        }
        next := resolved;
      }
      if !SameText(repairGuildCardSource, next) {
        repairGuildCardSource := next;
        coreAuthorization, repairAuthorization := None, None;
        InvalidatePreservingInspection();
      }
      return true;
    }

    /** Looks at the files before and after the converter inspects them. */
    method InspectCore(paths: Option<CoreSavePaths>, before: Files, inspectionSucceeds: bool, after: Files)
      requires Valid()
      modifies this
      ensures Valid() && unchanged(`mode, `selections, `repairFromVersion, `repairGuildCardSource, `issued, `granted)
      ensures paths.Some? ==> !Authorized()
      ensures paths.Some? ==>
        inspected == if inspectionSucceeds && Steady(before, after, paths.value, mode == RepairConverted)
        then CaptureAll(after, paths.value, mode == RepairConverted) else None
      ensures paths.Some? && inspected.Some? ==>
        FilesAgree(inspected.value, before, paths.value, mode == RepairConverted)
        && FilesAgree(inspected.value, after, paths.value, mode == RepairConverted)
      ensures paths.Some? ==> stage == if inspected.Some? then Inspected else Failed
    {
      if paths.Some? {
        SteadyMeaning(before, after, paths.value, mode == RepairConverted);
      }
      if paths.None? {
        stage := Failed;
        return;
      }
      InvalidateCoreAuthorization();
      var first := CaptureAll(before, paths.value, mode == RepairConverted);
      if first.None? || !inspectionSucceeds {
        stage := Failed;
        return;
      }
      var second := CaptureAll(after, paths.value, mode == RepairConverted);
      if second.None? || !LooksMatch(first.value, second.value) {
        stage := Failed;
        return;
      }
      inspected := second;
      stage := Inspected;
    }

    method AuthorizeConversion(a: DryRunAuthorization)
      requires Valid() && !Authorized() && mode == NewConversion
      requires inspected.Some? && LooksMatch(inspected.value, Look(a.source, inspected.value.current, a.target))
      requires a.source.present && SameLetters(a.sourceReportHash, HashText(a.source))
      requires Captured(a.source) && Captured(a.target)
      modifies this
      ensures Valid() && coreAuthorization == Some(a) && repairAuthorization.None? && stage == DryRunAuthorized
      ensures unchanged(`mode, `selections, `repairFromVersion, `repairGuildCardSource, `inspected, `issued)
      ensures granted == old(granted) + {CoreGrant(a)}
    {
      MoreGranted(issued, granted, CoreGrant(a));
      granted := granted + {CoreGrant(a)};
      coreAuthorization, authorizedFor, stage := Some(a), selections, DryRunAuthorized;
    }

    method AuthorizeRepair(a: RepairDryRunAuthorization)
      requires Valid() && !Authorized() && mode == RepairConverted && !revisionSelectionRequired
      requires inspected.Some? && LooksMatch(inspected.value, Look(a.source, Some(a.current), a.output))
      requires Captured(a.source) && Captured(a.current) && Captured(a.output) && a.current.present
      requires a.extDataSource == repairGuildCardSource && a.fromVersion == repairFromVersion
      modifies this
      ensures Valid() && repairAuthorization == Some(a) && coreAuthorization.None? && stage == DryRunAuthorized
      ensures unchanged(`mode, `selections, `repairFromVersion, `repairGuildCardSource, `inspected, `issued)
      ensures granted == old(granted) + {RepairGrant(a)}
    {
      MoreGranted(issued, granted, RepairGrant(a));
      granted := granted + {RepairGrant(a)};
      repairAuthorization, authorizedFor, stage := Some(a), selections, DryRunAuthorized;
    }

    method DryRunConvert(
        paths: CoreSavePaths, ghost before: Files, first: Look, report: Option<ConvertReport>, after: Files)
      requires Valid() && !Authorized() && mode == NewConversion && CaptureAll(before, paths, false) == Some(first)
      requires inspected.Some? && LooksMatch(inspected.value, first)
      modifies this
      ensures Valid() && unchanged(`mode, `selections, `repairFromVersion, `repairGuildCardSource, `inspected, `issued)
      ensures repairAuthorization.None?
      ensures coreAuthorization.Some? <==>
        report.Some? && CaptureAll(after, paths, false).Some?
          && LooksMatch(first, CaptureAll(after, paths, false).value)
        && NamesHashes(report.value, CaptureAll(after, paths, false).value)
      ensures coreAuthorization.Some? ==> ConvertGranted(coreAuthorization.value, paths, before, report.value, after)
      ensures granted == old(granted) + Live()
      ensures stage == if coreAuthorization.Some? then DryRunAuthorized else Failed
    {
      var second := CaptureAll(after, paths, false);
      if report.None? || second.None? || !LooksMatch(first, second.value) {
        stage := Failed;
        return;
      }
      var source, target := second.value.source, second.value.target;
      var reported, reportedTarget := report.value.source, report.value.targetBefore;
      var targetMatches := if target.present
        then reportedTarget.Some? && SameLetters(target.sha256.value, reportedTarget.value)
        else reportedTarget.None?;
      if !source.present || reported.None? || !SameLetters(source.sha256.value, reported.value) || !targetMatches {
        stage := Failed;
        return;
      }
      ConvertIsGranted(paths, before, first, report.value, after, second.value);
      AuthorizeConversion(DryRunAuthorization(source, target, reported.value));
    }

    method DryRunRepair(
        paths: CoreSavePaths, ghost before: Files, first: Look, report: Option<RepairReport>, after: Files)
      requires Valid() && !Authorized() && mode == RepairConverted && CaptureAll(before, paths, true) == Some(first)
      requires inspected.Some? && LooksMatch(inspected.value, first) && inspected.value.current.value.present
      modifies this
      ensures Valid() && unchanged(`mode, `selections, `repairFromVersion, `repairGuildCardSource, `inspected, `issued)
      ensures coreAuthorization.None?
      ensures repairAuthorization.Some? <==>
        report.Some? && CaptureAll(after, paths, true).Some? && LooksMatch(first, CaptureAll(after, paths, true).value)
        && !(report.value.ambiguous && repairFromVersion.None?)
      ensures repairAuthorization.Some? ==> RepairGranted(repairAuthorization.value, paths, before, report.value, after)
      ensures granted == old(granted) + Live()
      ensures stage == DryRunAuthorized <==> repairAuthorization.Some?
    {
      if report.None? {
        stage := Failed;
        return;
      }
      revisionSelectionRequired := report.value.ambiguous && repairFromVersion.None?;
      var authorization := RepairDryRunAuthorization(
        first.source, first.current.value, first.target, repairGuildCardSource, repairFromVersion,
            report.value.digests);
      var second := CaptureAll(after, paths, true);
      if second.None? || !LooksMatch(first, second.value) {
        stage := Failed;
        return;
      }
      if revisionSelectionRequired {
        stage := Inspected;
        return;
      }
      RepairIsGranted(authorization, paths, before, first, report.value, after, second.value);
      AuthorizeRepair(authorization);
    }

    /** The converter's Dry Run, once the files are found as they were inspected. */
    method DryRunMatching(
        paths: CoreSavePaths, ghost before: Files, first: Look, convert: Option<ConvertReport>,
        repair: Option<RepairReport>, after: Files)
      requires Valid() && !Authorized() && CaptureAll(before, paths, mode == RepairConverted) == Some(first)
      requires inspected.Some? && LooksMatch(inspected.value, first)
      requires mode == RepairConverted ==> inspected.value.current.value.present
      modifies this
      ensures Valid() && unchanged(`mode, `selections, `repairFromVersion, `repairGuildCardSource, `inspected, `issued)
      ensures Authorized() ==
        DryRunGrants(inspected.value, mode, repairFromVersion, paths, before, convert, repair, after)
      ensures coreAuthorization.Some? ==>
        convert.Some? && ConvertGranted(coreAuthorization.value, paths, before, convert.value, after)
      ensures repairAuthorization.Some? ==>
        repair.Some? && RepairGranted(repairAuthorization.value, paths, before, repair.value, after)
      ensures granted == old(granted) + Live()
      ensures stage == DryRunAuthorized <==> Authorized()
    {
      if mode == RepairConverted {
        DryRunRepair(paths, before, first, repair, after);
      } else {
        DryRunConvert(paths, before, first, convert, after);
      }
    }

    /** Looks at the files, compares them with the inspected ones, and lets the converter do its Dry Run. */
    method StartDryRun(
        paths: CoreSavePaths, before: Files, convert: Option<ConvertReport>, repair: Option<RepairReport>,
        after: Files)
      requires Valid() && CanRunCoreDryRun()
      modifies this
      ensures Valid() && unchanged(`mode, `selections, `repairFromVersion, `repairGuildCardSource, `issued)
      ensures Authorized() ==
        DryRunGrants(old(inspected).value, mode, repairFromVersion, paths, before, convert, repair, after)
      ensures Authorized() ==> inspected == old(inspected)
      ensures coreAuthorization.Some? ==>
        convert.Some? && ConvertGranted(coreAuthorization.value, paths, before, convert.value, after)
      ensures repairAuthorization.Some? ==>
        repair.Some? && RepairGranted(repairAuthorization.value, paths, before, repair.value, after)
      ensures granted == old(granted) + Live()
      ensures stage == DryRunAuthorized <==> Authorized()
    {
      coreAuthorization, repairAuthorization := None, None;
      var first := CaptureAll(before, paths, mode == RepairConverted);
      if first.None? {
        stage := Failed;
        return;
      }
      if !LooksMatch(inspected.value, first.value) {
        InvalidateCoreAuthorization();
        stage := Failed;
        return;
      }
      DryRunMatching(paths, before, first.value, convert, repair, after);
    }

    /** Authorizes a write when the inspected files are unchanged before and after the converter's Dry Run and its
        report names their hashes. */
    method RunCoreDryRun(
        paths: Option<CoreSavePaths>, before: Files, convert: Option<ConvertReport>,
        repair: Option<RepairReport>, after: Files)
      requires Valid()
      modifies this
      ensures Valid() && unchanged(`mode, `selections, `repairFromVersion, `repairGuildCardSource, `issued)
      ensures old(CanRunCoreDryRun()) && paths.Some? ==>
        Authorized() ==
          DryRunGrants(old(inspected).value, mode, repairFromVersion, paths.value, before, convert, repair, after)
      ensures old(CanRunCoreDryRun()) && paths.Some? ==>
        (Authorized() <==>
          FilesAgree(old(inspected).value, before, paths.value, mode == RepairConverted)
          && FilesAgree(old(inspected).value, after, paths.value, mode == RepairConverted)
          && Complete(mode, repairFromVersion, paths.value, convert, repair, after))
      ensures Authorized() && old(CanRunCoreDryRun()) && paths.Some? ==> inspected == old(inspected)
      ensures old(CanRunCoreDryRun()) && paths.Some? && coreAuthorization.Some? ==>
        convert.Some? && ConvertGranted(coreAuthorization.value, paths.value, before, convert.value, after)
      ensures old(CanRunCoreDryRun()) && paths.Some? && repairAuthorization.Some? ==>
        repair.Some? && RepairGranted(repairAuthorization.value, paths.value, before, repair.value, after)
      ensures granted == old(granted) + Live()
      ensures old(CanRunCoreDryRun()) && paths.Some? ==> (stage == DryRunAuthorized <==> Authorized())
      ensures !(old(CanRunCoreDryRun()) && paths.Some?) ==>
        unchanged(`inspected, `coreAuthorization, `repairAuthorization)
    {
      if !CanRunCoreDryRun() || paths.None? {
        stage := Failed;
        return;
      }
      GrantMeaning(inspected.value, mode, repairFromVersion, paths.value, before, convert, repair, after);
      StartDryRun(paths.value, before, convert, repair, after);
    }

    /** Builds the command line of the authorized write. */
    method PrepareWrite(paths: CoreSavePaths, look: Look, now: Files) returns (write: Issued)
      requires CoreHolds() && RepairHolds() && Authorized()
        && CaptureAll(now, paths, mode == RepairConverted) == Some(look)
      requires MatchesAuthorization(look, coreAuthorization, repairAuthorization)
      ensures Justified(write) && write.authorization in granted
      ensures IsAuthorizedCommand(write.command, mode, paths, coreAuthorization, repairAuthorization)
    {
      if mode == RepairConverted {
        RepairIsJustified(repairAuthorization.value, paths, now, look);
        return Issued(RepairCommand(paths, repairAuthorization.value), look, repairGuildCardSource, repairFromVersion,
          RepairGrant(repairAuthorization.value));
      }
      write := Issued(ConvertCommand(paths, coreAuthorization.value), look, repairGuildCardSource, repairFromVersion,
        CoreGrant(coreAuthorization.value));
      ConvertIsJustified(coreAuthorization.value, paths, now, write);
    }

    /** Hands a write to the converter and uses up the authorization. */
    method HandOver(write: Issued, succeeds: bool)
      requires AllJustified(issued + [write], granted)
      modifies this
      ensures AllJustified(issued, granted) && !Authorized() && issued == old(issued) + [write]
      ensures unchanged(`mode, `selections, `repairFromVersion, `repairGuildCardSource, `inspected, `granted)
      ensures stage == if succeeds then Written else Failed
    {
      issued := issued + [write];
      coreAuthorization, repairAuthorization := None, None;
      stage := if succeeds then Written else Failed;
    }

    /** Looks at the files once more and writes only if they are the authorized ones. `succeeds` is the converter's
        answer. An authorization is used up by a write, and revoked by a failed one. */
    method WriteCore(paths: Option<CoreSavePaths>, now: Files, succeeds: bool)
      requires Valid()
      modifies this
      ensures Valid() && unchanged(`mode, `selections, `repairFromVersion, `repairGuildCardSource, `granted)
      ensures issued == old(issued)
        || (old(Authorized()) && !Authorized() && |issued| == |old(issued)| + 1 && old(issued) <= issued)
      ensures issued != old(issued) <==>
        WriteAllowed(mode, old(coreAuthorization), old(repairAuthorization), paths, now)
      ensures issued != old(issued) ==>
        IsAuthorizedCommand(issued[|old(issued)|].command, mode, paths.value, old(coreAuthorization),
            old(repairAuthorization))
      // A write on files of which one is not as authorized is not handed over, and revokes the authorization.
      ensures issued != old(issued) <==>
        paths.Some? && AuthorizedFiles(old(coreAuthorization), old(repairAuthorization), paths.value, now)
      ensures paths.Some? ==> !Authorized()
      ensures stage == if issued != old(issued) && succeeds then Written else Failed
    {
      if paths.Some? {
        WriteMeaning(mode, coreAuthorization, repairAuthorization, paths.value, now);
      }
      if (if mode == RepairConverted then repairAuthorization.None? else coreAuthorization.None?) || paths.None? {
        stage := Failed;
        return;
      }
      var look := CaptureAll(now, paths.value, mode == RepairConverted);
      if look.None? {
        coreAuthorization, repairAuthorization := None, None;
        stage := Failed;
        return;
      }
      if !MatchesAuthorization(look.value, coreAuthorization, repairAuthorization) {
        InvalidateCoreAuthorization();
        stage := Failed;
        return;
      }
      var write := PrepareWrite(paths.value, look.value, now);
      OneMoreJustified(issued, granted, write);
      HandOver(write, succeeds);
    }

    method RollbackCore(succeeds: bool)
      requires Valid()
      modifies this
      ensures Valid()
        && unchanged(`mode, `selections, `repairFromVersion, `repairGuildCardSource, `inspected, `issued, `granted)
      ensures succeeds ==> stage == RolledBack && unchanged(`coreAuthorization, `repairAuthorization)
      ensures !succeeds ==> stage == Failed && !Authorized()
    {
      if succeeds {
        stage := RolledBack;
      } else {
        coreAuthorization, repairAuthorization := None, None;
        stage := Failed;
      }
    }
  }

  // ---------------------------------------------------------------- runs

  datatype UserEvent =
    | ChooseRevision(revision: Option<Revision>)
    | ChooseMode(mode: ConversionMode)
    | Select(selections: Selections)
    | CommitScope(skip: bool, includeGuildCards: bool, resolved: Option<Text>)
    | Inspect(paths: Option<CoreSavePaths>, before: Files, succeeds: bool, after: Files)
    | DryRun(paths: Option<CoreSavePaths>, before: Files, convert: Option<ConvertReport>, repair: Option<RepairReport>,
        after: Files)
    | Write(paths: Option<CoreSavePaths>, now: Files, succeeds: bool)
    | Rollback(succeeds: bool)

  /** The event is the Dry Run that granted the authorization. */
  predicate GrantedBy(e: UserEvent, g: Grant) {
    e.DryRun? && e.paths.Some? && Granted(g, e.paths.value, e.before, e.convert, e.repair, e.after)
  }

  method Handle(vm: MainViewModel, e: UserEvent)
    requires vm.Valid()
    modifies vm
    ensures vm.Valid() && |vm.issued| <= |old(vm.issued)| + 1 && old(vm.issued) <= vm.issued
    ensures vm.issued != old(vm.issued) ==> e.Write? && old(vm.Authorized()) && !vm.Authorized()
    ensures old(vm.granted) <= vm.granted && forall g :: g in vm.granted ==> g in old(vm.granted) || GrantedBy(e, g)
  {
    match e
    case ChooseRevision(revision) => vm.SetRepairFromVersion(revision);
    case ChooseMode(mode) => vm.SetConversionMode(mode);
    case Select(selections) => vm.Select(selections);
    case CommitScope(skip, includeGuildCards, resolved) =>
      var _ := vm.CommitRepairOptionalScope(skip, includeGuildCards, resolved);
    case Inspect(paths, before, succeeds, after) => vm.InspectCore(paths, before, succeeds, after);
    case DryRun(paths, before, convert, repair, after) => vm.RunCoreDryRun(paths, before, convert, repair, after);
    case Write(paths, now, succeeds) => vm.WriteCore(paths, now, succeeds);
    case Rollback(succeeds) => vm.RollbackCore(succeeds);
  }

  /** Over any sequence of user events: every write handed to the converter is of the files looked at right before it,
      and was authorized by a Dry Run among the events that found the same files and reported the hashes it carries;
      the invariant of live authorizations holds throughout. */
  method Session(events: seq<UserEvent>) returns (vm: MainViewModel)
    ensures fresh(vm) && vm.Valid()
    ensures forall w :: w in vm.issued ==> Justified(w)
    ensures forall w :: w in vm.issued ==> exists i :: 0 <= i < |events| && GrantedBy(events[i], w.authorization)
    ensures |vm.issued| <= |events|
  {
    vm := new MainViewModel();
    for i := 0 to |events|
      invariant fresh(vm) && vm.Valid() && |vm.issued| <= i
      invariant forall g :: g in vm.granted ==> exists k :: 0 <= k < i && GrantedBy(events[k], g)
    {
      Handle(vm, events[i]);
    }
  }

  lemma LookAgainMatches(look: Look)
    ensures LooksMatch(look, look)
  {
  }

  /** The rules do not stand in the way of an undisturbed conversion: inspect, Dry Run and write on files that stay
      as they are hand exactly one write to the converter. */
  method UndisturbedConversion(
      selections: Selections, paths: CoreSavePaths, files: Files, report: ConvertReport)
    returns (vm: MainViewModel)
    requires CaptureAll(files, paths, false).Some? && NamesHashes(report, CaptureAll(files, paths, false).value)
    ensures fresh(vm) && |vm.issued| == 1
  {
    vm := new MainViewModel();
    vm.Select(selections);
    var look := CaptureAll(files, paths, false).value;
    LookAgainMatches(look);
    vm.InspectCore(Some(paths), files, true, files);
    vm.RunCoreDryRun(Some(paths), files, Some(report), None, files);
    vm.WriteCore(Some(paths), files, true);
  }

  /** Dry Run and write of a repair whose files have been inspected and stay as they are. */
  method RepairInspected(vm: MainViewModel, paths: CoreSavePaths, files: Files, report: RepairReport)
    requires vm.Valid() && vm.mode == RepairConverted && CaptureAll(files, paths, true).Some?
    requires vm.inspected == CaptureAll(files, paths, true) && vm.inspected.value.current.value.present
    requires !(report.ambiguous && vm.repairFromVersion.None?)
    modifies vm
    ensures vm.Valid() && |vm.issued| == |old(vm.issued)| + 1
    ensures vm.issued[|old(vm.issued)|].command ==
      Repair(paths.source, paths.current, paths.target, old(vm.repairGuildCardSource), old(vm.repairFromVersion),
          report.digests)
  {
    LookAgainMatches(CaptureAll(files, paths, true).value);
    vm.RunCoreDryRun(Some(paths), files, None, Some(report), files);
    vm.WriteCore(Some(paths), files, true);
  }

  method ChooseRepair(selections: Selections, guildCards: Option<Text>, revision: Option<Revision>)
    returns (vm: MainViewModel)
    ensures fresh(vm) && vm.Valid() && vm.issued == []
    ensures vm.mode == RepairConverted && vm.repairGuildCardSource == guildCards && vm.repairFromVersion == revision
  {
    vm := new MainViewModel();
    vm.SetConversionMode(RepairConverted);
    vm.Select(selections);
    if guildCards.Some? {
      var committed := vm.CommitRepairOptionalScope(false, true, guildCards);
    }
    vm.SetRepairFromVersion(revision);
  }

  /** Nor of an undisturbed repair: its one command carries the digests the Dry Run reported. */
  method UndisturbedRepair(
      selections: Selections, paths: CoreSavePaths, files: Files, report: RepairReport,
      guildCards: Option<Text>, revision: Option<Revision>)
    returns (vm: MainViewModel)
    requires CaptureAll(files, paths, true).Some? && CaptureAll(files, paths, true).value.current.value.present
    requires !(report.ambiguous && revision.None?)
    ensures fresh(vm) && |vm.issued| == 1
    ensures vm.issued[0].command ==
      Repair(paths.source, paths.current, paths.target, guildCards, revision, report.digests)
  {
    vm := ChooseRepair(selections, guildCards, revision);
    LookAgainMatches(CaptureAll(files, paths, true).value);
    vm.InspectCore(Some(paths), files, true, files);
    RepairInspected(vm, paths, files, report);
  }
}
