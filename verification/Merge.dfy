/** The three-way merge that brings a component converted by an old release up to date
    without losing what was changed since. */
module Merge {
  import opened Base
  import opened Profile
  import opened RepairFields

  datatype Revision = V0_0_3 | V0_0_4 | V0_0_5 | V0_0_6

  const ALL_REVISIONS: seq<Revision> := [V0_0_3, V0_0_4, V0_0_5, V0_0_6]

  datatype RepairError =
    | UnknownComponent
    | WrongSlotProfile
    | InvalidContainer
    | ConversionFailure(reason: nat)
    | ContradictedRevision
    | NoCandidate
    | AmbiguousRevision
    | UnrecognizedComponent

  // ---------------------------------------------------------------- merging fields

  function FieldBytes(b: Bytes, f: FieldSpec): (r: Bytes)
    requires f.offset + f.width <= |b|
    ensures |r| == f.width
  {
    b[f.offset..f.offset + f.width]
  }

  /** Three versions of one component whose repair fields all lie behind the header. */
  predicate Comparable(current: Bytes, past: Bytes, latest: Bytes, fields: seq<FieldSpec>) {
    |past| == |current| && |latest| == |current| && Within(fields, CEMU_HEADER_SIZE, |current|)
  }

  predicate InField(f: FieldSpec, i: nat) {
    f.offset <= i < f.offset + f.width
  }

  predicate Covered(fields: seq<FieldSpec>, i: nat) {
    exists k :: 0 <= k < |fields| && InField(fields[k], i)
  }

  function Choice(current: Bytes, past: Bytes, latest: Bytes, f: FieldSpec): Bytes
    requires |past| == |current| && |latest| == |current| && f.offset + f.width <= |current|
  {
    if FieldBytes(current, f) == FieldBytes(past, f) then FieldBytes(latest, f) else FieldBytes(current, f)
  }

  /** What a three-way merge means: a field still holding its historical value takes the latest one, any
      other field is kept whole, and bytes outside the fields stay. */
  predicate ThreeWay(current: Bytes, past: Bytes, latest: Bytes, fields: seq<FieldSpec>, merged: Bytes)
    requires Comparable(current, past, latest, fields)
  {
    |merged| == |current|
    && (forall k :: 0 <= k < |fields| ==> FieldBytes(merged, fields[k]) == Choice(current, past, latest, fields[k]))
    && (forall i :: 0 <= i < |current| && !Covered(fields, i) ==> merged[i] == current[i])
  }

  predicate Replaced(current: Bytes, past: Bytes, latest: Bytes, f: FieldSpec)
    requires |past| == |current| && |latest| == |current| && f.offset + f.width <= |current|
  {
    FieldBytes(past, f) != FieldBytes(latest, f) && FieldBytes(current, f) == FieldBytes(past, f)
  }

  function Merged(current: Bytes, past: Bytes, latest: Bytes, fields: seq<FieldSpec>): (r: Bytes)
    requires Comparable(current, past, latest, fields)
    ensures |r| == |current|
  {
    if |fields| == 0 then current
    else
      var n := |fields| - 1;
      var before := Merged(current, past, latest, fields[..n]);
      if Replaced(current, past, latest, fields[n]) then Splice(before, fields[n].offset, FieldBytes(latest, fields[n]))
      else before
  }

  lemma NotCoveredBefore(fields: seq<FieldSpec>, i: nat)
    requires |fields| > 0 && !Covered(fields, i)
    ensures !Covered(fields[..|fields| - 1], i)
    ensures !InField(fields[|fields| - 1], i)
  {
    var before := fields[..|fields| - 1];
    forall k | 0 <= k < |before| ensures !InField(before[k], i) {
      assert before[k] == fields[k];
    }
  }

  /** The last field's bytes are as they were while only the fields before it have been written. */
  lemma UntouchedSoFar(current: Bytes, fields: seq<FieldSpec>, before: Bytes)
    requires |fields| > 0 && PairwiseApart(fields) && Within(fields, 0, |current|) && |before| == |current|
    requires forall i :: 0 <= i < |current| && !Covered(fields[..|fields| - 1], i) ==> before[i] == current[i]
    ensures FieldBytes(before, fields[|fields| - 1]) == FieldBytes(current, fields[|fields| - 1])
  {
    var n := |fields| - 1;
    forall i | fields[n].offset <= i < fields[n].offset + fields[n].width ensures before[i] == current[i] {
      forall k | 0 <= k < n ensures !InField(fields[..n][k], i) {
        assert Apart(fields[k], fields[n]);
      }
    }
  }

  /** Splicing field `f` leaves a field that is apart from it as it is. */
  lemma SpliceApart(before: Bytes, f: FieldSpec, patch: Bytes, g: FieldSpec)
    requires f.offset + f.width <= |before| && g.offset + g.width <= |before| && |patch| == f.width
    requires Apart(g, f) || g == f
    ensures FieldBytes(Splice(before, f.offset, patch), g) == if g == f then patch else FieldBytes(before, g)
  {
    SpliceRange(before, f.offset, patch, g.offset, g.offset + g.width);
  }

  /** The last field of a merge takes its choice; the fields before it keep theirs. */
  lemma FieldsAfterLast(current: Bytes, past: Bytes, latest: Bytes, fields: seq<FieldSpec>, k: nat)
    requires Comparable(current, past, latest, fields) && PairwiseApart(fields) && k < |fields|
    requires ThreeWay(current, past, latest, fields[..|fields| - 1],
        Merged(current, past, latest, fields[..|fields| - 1]))
    ensures FieldBytes(Merged(current, past, latest, fields), fields[k]) == Choice(current, past, latest, fields[k])
  {
    var n := |fields| - 1;
    var f, g, before := fields[n], fields[k], Merged(current, past, latest, fields[..n]);
    UntouchedSoFar(current, fields, before);
    assert k < n ==> fields[..n][k] == g && Apart(g, f);
    if Replaced(current, past, latest, f) {
      SpliceApart(before, f, FieldBytes(latest, f), g);
    }
  }

  /** Writing field after field gives the three-way merge, because no field overlaps another. */
  lemma {:induction false} MergedIsThreeWay(current: Bytes, past: Bytes, latest: Bytes, fields: seq<FieldSpec>)
    requires Comparable(current, past, latest, fields) && PairwiseApart(fields)
    ensures ThreeWay(current, past, latest, fields, Merged(current, past, latest, fields))
  {
    if |fields| == 0 {
    } else {
      var n := |fields| - 1;
      MergedIsThreeWay(current, past, latest, fields[..n]);
      var merged := Merged(current, past, latest, fields);
      forall k | 0 <= k < |fields| ensures FieldBytes(merged, fields[k]) == Choice(current, past, latest, fields[k]) {
        FieldsAfterLast(current, past, latest, fields, k);
      }
      forall i | 0 <= i < |current| && !Covered(fields, i) ensures merged[i] == current[i] {
        NotCoveredBefore(fields, i);
      }
    }
  }

  /** The three versions and the fields leave no freedom: any two three-way merges are equal. */
  lemma ThreeWayIsUnique(current: Bytes, past: Bytes, latest: Bytes, fields: seq<FieldSpec>, a: Bytes, b: Bytes)
    requires Comparable(current, past, latest, fields)
    requires ThreeWay(current, past, latest, fields, a) && ThreeWay(current, past, latest, fields, b)
    ensures a == b
  {
    forall i | 0 <= i < |a| ensures a[i] == b[i] {
      if Covered(fields, i) {
        var k :| 0 <= k < |fields| && InField(fields[k], i);
        assert FieldBytes(a, fields[k])[i - fields[k].offset] == FieldBytes(b, fields[k])[i - fields[k].offset];
      }
    }
  }

  function StatusOf(current: Bytes, past: Bytes, latest: Bytes, f: FieldSpec): FieldStatus
    requires |past| == |current| && |latest| == |current| && f.offset + f.width <= |current|
  {
    if FieldBytes(current, f) == FieldBytes(past, f) then Repaired
    else if FieldBytes(current, f) == FieldBytes(latest, f) then AlreadyCurrent
    else PreservedConflict
  }

  /** One entry for each field the two conversions disagree on. */
  function Changes(current: Bytes, past: Bytes, latest: Bytes, fields: seq<FieldSpec>): seq<MergeField>
    requires Comparable(current, past, latest, fields)
  {
    if |fields| == 0 then []
    else
      var n := |fields| - 1;
      var before := Changes(current, past, latest, fields[..n]);
      if FieldBytes(past, fields[n]) == FieldBytes(latest, fields[n]) then before
      else before + [MergeField(fields[n], StatusOf(current, past, latest, fields[n]))]
  }

  function CountStatus(changes: seq<MergeField>, status: FieldStatus): nat {
    if |changes| == 0 then 0
    else CountStatus(changes[..|changes| - 1], status) + (if changes[|changes| - 1].status == status then 1 else 0)
  }

  lemma {:induction false} NothingReplaced(current: Bytes, past: Bytes, latest: Bytes, fields: seq<FieldSpec>)
    requires Comparable(current, past, latest, fields)
    requires forall k :: 0 <= k < |fields| ==> !Replaced(current, past, latest, fields[k])
    ensures Merged(current, past, latest, fields) == current
    ensures CountStatus(Changes(current, past, latest, fields), Repaired) == 0
  {
    if |fields| == 0 {
    } else {
      NothingReplaced(current, past, latest, fields[..|fields| - 1]);
    }
  }

  /** No repair field is rewritten by a second merge, and none is reported as repaired by it. */
  lemma MergeIsIdempotent(current: Bytes, past: Bytes, latest: Bytes, fields: seq<FieldSpec>)
    requires Comparable(current, past, latest, fields) && PairwiseApart(fields)
    ensures var merged := Merged(current, past, latest, fields);
      Merged(merged, past, latest, fields) == merged
      && CountStatus(Changes(merged, past, latest, fields), Repaired) == 0
  {
    var merged := Merged(current, past, latest, fields);
    MergedIsThreeWay(current, past, latest, fields);
    forall k | 0 <= k < |fields| ensures !Replaced(merged, past, latest, fields[k]) {
      assert FieldBytes(merged, fields[k]) == Choice(current, past, latest, fields[k]);
    }
    NothingReplaced(merged, past, latest, fields);
  }

  /** When no field is missing its historical value, the merge puts the latest conversion into every field. */
  lemma FullMatchIsFullyRepaired(current: Bytes, past: Bytes, latest: Bytes, fields: seq<FieldSpec>)
    requires Comparable(current, past, latest, fields) && PairwiseApart(fields)
    requires forall k :: 0 <= k < |fields| ==> FieldBytes(current, fields[k]) == FieldBytes(past, fields[k])
    ensures ThreeWay(current, current, latest, fields, Merged(current, past, latest, fields))
    ensures forall k :: 0 <= k < |fields| ==>
      FieldBytes(Merged(current, past, latest, fields), fields[k]) == FieldBytes(latest, fields[k])
  {
    MergedIsThreeWay(current, past, latest, fields);
  }

  // ---------------------------------------------------------------- reporting

  datatype FieldStatus = Repaired | AlreadyCurrent | PreservedConflict

  datatype MergeField = MergeField(field: FieldSpec, status: FieldStatus)

  lemma CountSnoc(changes: seq<MergeField>, change: MergeField, status: FieldStatus)
    ensures CountStatus(changes + [change], status) ==
      CountStatus(changes, status) + (if change.status == status then 1 else 0)
  {
    assert (changes + [change])[..|changes|] == changes;
  }

  /** Writes the merge and the list of changes in one pass over the fields. */
  method MergeFields(current: Bytes, historical: Bytes, latest: Bytes, fields: seq<FieldSpec>)
    returns (bytes: Bytes, changes: seq<MergeField>)
    requires Comparable(current, historical, latest, fields)
    ensures bytes == Merged(current, historical, latest, fields)
    ensures changes == Changes(current, historical, latest, fields)
  {
    bytes, changes := current, [];
    assert fields[..0] == [];
    for i := 0 to |fields|
      invariant bytes == Merged(current, historical, latest, fields[..i])
      invariant changes == Changes(current, historical, latest, fields[..i])
    {
      var field := fields[i];
      assert fields[..i + 1][..i] == fields[..i];
      var past := FieldBytes(historical, field);
      var fixed := FieldBytes(latest, field);
      if past == fixed {
        continue;
      }
      var observed := FieldBytes(current, field);
      var status;
      if observed == past {
        bytes := Splice(bytes, field.offset, fixed);
        status := Repaired;
      } else if observed == fixed {
        status := AlreadyCurrent;
      } else {
        status := PreservedConflict;
      }
      changes := changes + [MergeField(field, status)];
    }
    assert fields[..|fields|] == fields;
  }

  /** The same bytes without the report, as detection computes them to compare tied revisions. */
  method MergedCandidateBytes(
      current: Bytes, candidate: Bytes, latest: Bytes, fields: seq<FieldSpec>)
    returns (merged: Bytes)
    requires Comparable(current, candidate, latest, fields)
    ensures merged == Merged(current, candidate, latest, fields)
  {
    merged := current;
    assert fields[..0] == [];
    for i := 0 to |fields|
      invariant merged == Merged(current, candidate, latest, fields[..i])
    {
      var field := fields[i];
      assert fields[..i + 1][..i] == fields[..i];
      var past := FieldBytes(candidate, field);
      var fixed := FieldBytes(latest, field);
      if past != fixed && FieldBytes(current, field) == past {
        merged := Splice(merged, field.offset, fixed);
      }
    }
    assert fields[..|fields|] == fields;
  }

  // ---------------------------------------------------------------- components

  /** The converters, as functions of a component and the bytes of its Nintendo 3DS original. */
  datatype Converters = Converters(
    replay: (Component, Bytes, Revision) -> Result<Bytes, RepairError>,
    latest: (Component, Bytes) -> Result<Bytes, RepairError>)

  predicate ValidComponent(bytes: Bytes, c: Component) {
    if IsUserSlot(c) then IsJpCemuSlot(bytes) else ValidExternal(bytes, c)
  }

  /** Every conversion that succeeds gives a container of the component it was asked for. */
  ghost predicate Sound(converters: Converters) {
    (forall c, source, r :: converters.replay(c, source, r).Ok? ==>
      ValidComponent(converters.replay(c, source, r).value, c))
    && (forall c, source :: converters.latest(c, source).Ok? ==> ValidComponent(converters.latest(c, source).value, c))
  }

  function ConvertForRevision(
      converters: Converters, source: Bytes, c: Component, r: Revision): Result<Bytes, RepairError>
  {
    if c.OtherFile? then Err(UnknownComponent) else converters.replay(c, source, r)
  }

  function ConvertCurrent(converters: Converters, source: Bytes, c: Component): Result<Bytes, RepairError> {
    if c.OtherFile? then Err(UnknownComponent) else converters.latest(c, source)
  }

  /** None when `source` and `current` may be merged as component `c`, the refusal otherwise. */
  function PairProblem(converters: Converters, source: Bytes, current: Bytes, c: Component): Option<RepairError> {
    if IsUserSlot(c) then
      if IsJp3dsSlot(source) && IsJpCemuSlot(current) then None else Some(WrongSlotProfile)
    else if IsExternal(c) then
      match ConvertCurrent(converters, source, c)
      case Err(e) => Some(e)
      case Ok(_) => if ValidExternal(current, c) then None else Some(InvalidContainer)
    else Some(UnknownComponent)
  }

  /** The validated inputs of one component: both conversions succeed and all three versions line up. */
  ghost predicate Mergeable(converters: Converters, source: Bytes, current: Bytes, c: Component, r: Revision) {
    PairProblem(converters, source, current, c).None?
    && ConvertForRevision(converters, source, c, r).Ok?
    && ConvertCurrent(converters, source, c).Ok?
  }

  lemma ValidComponentSize(bytes: Bytes, c: Component)
    requires ValidComponent(bytes, c)
    ensures |bytes| == ComponentSize(c) && !c.OtherFile?
  {
  }

  lemma PairIsValid(converters: Converters, source: Bytes, current: Bytes, c: Component)
    requires PairProblem(converters, source, current, c).None?
    ensures ValidComponent(current, c) && !c.OtherFile?
  {
  }

  /** Validated versions of one component can be merged field by field. */
  lemma ComponentsAreComparable(current: Bytes, past: Bytes, latest: Bytes, c: Component)
    requires ValidComponent(current, c) && ValidComponent(past, c) && ValidComponent(latest, c)
    ensures PairwiseApart(FieldsOf(c)) && Comparable(current, past, latest, FieldsOf(c))
  {
    ValidComponentSize(current, c);
    ValidComponentSize(past, c);
    ValidComponentSize(latest, c);
    FieldsAreApartAndInBounds(c);
  }

  lemma HeaderIsKept(current: Bytes, past: Bytes, latest: Bytes, fields: seq<FieldSpec>)
    requires Comparable(current, past, latest, fields) && PairwiseApart(fields) && CEMU_HEADER_SIZE <= |current|
    ensures Merged(current, past, latest, fields)[..CEMU_HEADER_SIZE] == current[..CEMU_HEADER_SIZE]
  {
    MergedIsThreeWay(current, past, latest, fields);
    assert forall i :: 0 <= i < CEMU_HEADER_SIZE ==> !Covered(fields, i);
  }

  lemma SameHeaderSameValidity(a: Bytes, b: Bytes, c: Component)
    requires ValidComponent(a, c) && |b| == |a| && |a| >= CEMU_HEADER_SIZE
    requires b[..CEMU_HEADER_SIZE] == a[..CEMU_HEADER_SIZE]
    ensures ValidComponent(b, c)
  {
    if IsUserSlot(c) {
      assert b[..20] == b[..CEMU_HEADER_SIZE][..20] && a[..20] == a[..CEMU_HEADER_SIZE][..20];
      assert b[24..40] == b[..CEMU_HEADER_SIZE][24..40] && a[24..40] == a[..CEMU_HEADER_SIZE][24..40];
    }
  }

  lemma ValidSizeAboveHeader(bytes: Bytes, c: Component)
    requires ValidComponent(bytes, c)
    ensures |bytes| >= CEMU_HEADER_SIZE
  {
  }

  /** The check of the merged bytes at the end of a merge never fails: a merge of validated
      components is again a container of the same component. */
  lemma MergeStaysValid(current: Bytes, past: Bytes, latest: Bytes, c: Component)
    requires ValidComponent(current, c) && ValidComponent(past, c) && ValidComponent(latest, c)
    ensures Comparable(current, past, latest, FieldsOf(c))
    ensures ValidComponent(Merged(current, past, latest, FieldsOf(c)), c)
  {
    ComponentsAreComparable(current, past, latest, c);
    ValidSizeAboveHeader(current, c);
    HeaderIsKept(current, past, latest, FieldsOf(c));
    SameHeaderSameValidity(current, Merged(current, past, latest, FieldsOf(c)), c);
  }

  datatype CompatibilityMerge = CompatibilityMerge(
    component: Component, assumedRevision: Revision,
    sourceSha256: Digest, currentSha256: Digest, mergedSha256: Digest,
    repairedFields: nat, alreadyCurrentFields: nat, preservedConflicts: nat,
    fields: seq<MergeField>, bytes: Bytes)

  /** The report that belongs to a merge of valid inputs. */
  ghost predicate IsMergeOf(
      m: CompatibilityMerge, source: Bytes, current: Bytes, past: Bytes, latest: Bytes, c: Component,
      r: Revision)
    requires Comparable(current, past, latest, FieldsOf(c))
  {
    m.component == c && m.assumedRevision == r
    && m.sourceSha256 == Sha256(source) && m.currentSha256 == Sha256(current) && m.mergedSha256 == Sha256(m.bytes)
    && ThreeWay(current, past, latest, FieldsOf(c), m.bytes) && ValidComponent(m.bytes, c)
    && m.bytes == Merged(current, past, latest, FieldsOf(c))
    && m.fields == Changes(current, past, latest, FieldsOf(c))
    && m.repairedFields == CountStatus(m.fields, Repaired)
    && m.alreadyCurrentFields == CountStatus(m.fields, AlreadyCurrent)
    && m.preservedConflicts == CountStatus(m.fields, PreservedConflict)
  }

  method MergeValidated(
      source: Bytes, current: Bytes, historical: Bytes, latest: Bytes, c: Component, assumed: Revision)
    returns (m: CompatibilityMerge)
    requires ValidComponent(current, c) && ValidComponent(historical, c) && ValidComponent(latest, c)
    ensures Comparable(current, historical, latest, FieldsOf(c))
    ensures IsMergeOf(m, source, current, historical, latest, c, assumed)
  {
    ComponentsAreComparable(current, historical, latest, c);
    ValidComponentSize(current, c);
    var fields := RepairFields.RepairFields(c);
    var bytes, changes := MergeFields(current, historical, latest, fields.value);
    MergedIsThreeWay(current, historical, latest, fields.value);
    MergeStaysValid(current, historical, latest, c);
    return CompatibilityMerge(c, assumed, Sha256(source), Sha256(current), Sha256(bytes),
      CountStatus(changes, Repaired), CountStatus(changes, AlreadyCurrent), CountStatus(changes, PreservedConflict),
      changes, bytes);
  }

  ghost predicate IsMergeUnder(
      m: CompatibilityMerge, converters: Converters, source: Bytes, current: Bytes, c: Component, r: Revision)
  {
    var past := converters.replay(c, source, r);
    var latest := converters.latest(c, source);
    past.Ok? && latest.Ok? && Comparable(current, past.value, latest.value, FieldsOf(c))
    && IsMergeOf(m, source, current, past.value, latest.value, c, r)
  }

  /** An original and a component that belong together: two character slots, or a container of the external component,
      whose original is judged by its conversion alone. */
  predicate Acceptable(source: Bytes, current: Bytes, c: Component) {
    match c
    case User1 => IsJp3dsSlot(source) && IsJpCemuSlot(current)
    case User2 => IsJp3dsSlot(source) && IsJpCemuSlot(current)
    case User3 => IsJp3dsSlot(source) && IsJpCemuSlot(current)
    case OtherFile => false
    case _ => ValidExternal(current, c)
  }

  lemma AcceptedPairs(converters: Converters, source: Bytes, current: Bytes, c: Component)
    requires converters.latest(c, source).Ok?
    ensures PairProblem(converters, source, current, c).None? <==> Acceptable(source, current, c)
    ensures PairProblem(converters, source, current, c).Some? ==>
      PairProblem(converters, source, current, c).value ==
        if c == OtherFile then UnknownComponent else if IsUserSlot(c) then WrongSlotProfile else InvalidContainer
  {
  }

  lemma MergeablePairs(converters: Converters, source: Bytes, current: Bytes, c: Component, r: Revision)
    ensures Mergeable(converters, source, current, c, r) <==>
      Acceptable(source, current, c) && converters.replay(c, source, r).Ok? && converters.latest(c, source).Ok?
  {
    if converters.latest(c, source).Ok? {
      AcceptedPairs(converters, source, current, c);
    }
  }

  /** Succeeds exactly on a valid pair whose two conversions succeed. */
  method MergeComponent(converters: Converters, source: Bytes, current: Bytes, c: Component, assumed: Revision)
    returns (r: Result<CompatibilityMerge, RepairError>)
    requires Sound(converters)
    ensures r.Ok? <==> Mergeable(converters, source, current, c, assumed)
    ensures r.Ok? <==>
      Acceptable(source, current, c) && converters.replay(c, source, assumed).Ok? && converters.latest(c, source).Ok?
    ensures r.Ok? ==> IsMergeUnder(r.value, converters, source, current, c, assumed)
    ensures PairProblem(converters, source, current, c).Some? ==>
      r == Err(PairProblem(converters, source, current, c).value)
  {
    MergeablePairs(converters, source, current, c, assumed);
    var problem := PairProblem(converters, source, current, c);
    if problem.Some? {
      return Err(problem.value);
    }
    PairIsValid(converters, source, current, c);
    var historical := ConvertForRevision(converters, source, c, assumed);
    if historical.Err? {
      return Err(historical.error);
    }
    var latest := ConvertCurrent(converters, source, c);
    if latest.Err? {
      return Err(latest.error);
    }
    var m := MergeValidated(source, current, historical.value, latest.value, c, assumed);
    return Ok(m);
  }
}
