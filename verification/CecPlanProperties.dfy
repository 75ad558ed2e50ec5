/** What a CEC plan depends on, keeps, and completes. */
module CecPlanProperties {
  import opened Base
  import opened Profile
  import opened CecPlan
  import Canonical

  // ---------------------------------------------------------------- only the set of records matters

  ghost predicate Ranked(env: Environment, x: seq<Digest>) {
    forall i, j :: 0 <= i < j < |x| ==> env.rank(x[i]) < env.rank(x[j])
  }

  ghost function DigestsOf(s: seq<CecRecordSource>): (x: seq<Digest>)
    ensures |x| == |s| && forall i :: 0 <= i < |s| ==> x[i] == s[i].sha256
  {
    seq(|s|, i requires 0 <= i < |s| => s[i].sha256)
  }

  lemma SameMembersBothEmpty(x: seq<Digest>, y: seq<Digest>)
    requires forall d :: d in x <==> d in y
    ensures |x| == 0 <==> |y| == 0
  {
    if |x| > 0 { assert x[0] in y; }
    if |y| > 0 { assert y[0] in x; }
  }

  lemma TailOfRanked(env: Environment, x: seq<Digest>, d: Digest)
    requires Ranked(env, x) && |x| > 0
    ensures d in x[1..] <==> d in x && d != x[0]
  {
    assert x == [x[0]] + x[1..];
  }

  lemma RankedHeadsAgree(env: Environment, x: seq<Digest>, y: seq<Digest>)
    requires Ranked(env, x) && Ranked(env, y) && |x| > 0 && |y| > 0
    requires x[0] in y && y[0] in x
    ensures x[0] == y[0]
  {
    var j :| 0 <= j < |y| && y[j] == x[0];
    var i :| 0 <= i < |x| && x[i] == y[0];
  }

  /** Two ascending lists of the same digests are the same list. */
  lemma {:induction false} RankedListsAgree(env: Environment, x: seq<Digest>, y: seq<Digest>)
    requires Ranked(env, x) && Ranked(env, y)
    requires forall d :: d in x <==> d in y
    ensures x == y
  {
    SameMembersBothEmpty(x, y);
    if |x| == 0 {
    } else {
      assert x[0] in x && y[0] in y;
      RankedHeadsAgree(env, x, y);
      forall d ensures d in x[1..] <==> d in y[1..] {
        TailOfRanked(env, x, d);
        TailOfRanked(env, y, d);
      }
      RankedListsAgree(env, x[1..], y[1..]);
      assert x == [x[0]] + x[1..] && y == [y[0]] + y[1..];
    }
  }

  ghost predicate RankedRecords(env: Environment, s: seq<CecRecordSource>) {
    forall i, j :: 0 <= i < j < |s| ==> env.rank(s[i].sha256) < env.rank(s[j].sha256)
  }

  lemma {:induction false} InsertRanked(env: Environment, r: CecRecordSource, s: seq<CecRecordSource>)
    requires RankedRecords(env, s)
    requires forall i :: 0 <= i < |s| ==> env.rank(s[i].sha256) != env.rank(r.sha256)
    ensures RankedRecords(env, InsertByHash(env, r, s))
  {
    if |s| > 0 && env.rank(r.sha256) > env.rank(s[0].sha256) {
      var rest := InsertByHash(env, r, s[1..]);
      InsertRanked(env, r, s[1..]);
      forall k | 0 <= k < |rest| ensures env.rank(s[0].sha256) < env.rank(rest[k].sha256) {
        assert rest[k] == r || rest[k] in s[1..];
      }
    }
  }

  lemma {:induction false} SortRanked(env: Environment, s: seq<CecRecordSource>)
    requires ValidEnvironment(env) && Collected(s)
    ensures RankedRecords(env, SortByHash(env, s))
  {
    if |s| == 0 {
    } else {
      var rest := SortByHash(env, s[1..]);
      SortRanked(env, s[1..]);
      forall k | 0 <= k < |rest| ensures env.rank(rest[k].sha256) != env.rank(s[0].sha256) {
        assert rest[k] in s[1..];
      }
      InsertRanked(env, s[0], rest);
    }
  }

  /** The same records and digests in the same places; only the mailbox file names may differ. */
  ghost predicate Alike(a: seq<CecRecordSource>, b: seq<CecRecordSource>) {
    && |a| == |b|
    && forall i :: 0 <= i < |a| ==> a[i].record == b[i].record && a[i].sha256 == b[i].sha256
  }

  /** Any rearrangement `s` of `a` keeps each source's digest, and lists exactly the digests whose
      preimages are records of `a`. */
  lemma SortedDigests(s: seq<CecRecordSource>, a: seq<CecRecordSource>)
    requires Collected(a) && forall r :: r in s <==> r in a
    ensures forall i :: 0 <= i < |s| ==> s[i].sha256 == Sha256(s[i].record)
    ensures forall d: Digest :: d in DigestsOf(s) <==> d.preimage in RecordSet(a)
  {
    forall i | 0 <= i < |s| ensures s[i].sha256 == Sha256(s[i].record) && s[i].record in RecordSet(a) {
      assert s[i] in a;
    }
    forall d: Digest | d.preimage in RecordSet(a) ensures d in DigestsOf(s) {
      var i :| 0 <= i < |a| && a[i].record == d.preimage;
      assert a[i] in s;
      var k :| 0 <= k < |s| && s[k] == a[i];
      assert DigestsOf(s)[k] == d;
    }
    forall d | d in DigestsOf(s) ensures d.preimage in RecordSet(a) {
      var k :| 0 <= k < |s| && DigestsOf(s)[k] == d;
      assert s[k].sha256 == d;
    }
  }

  lemma SortedSetsAlike(env: Environment, a: seq<CecRecordSource>, b: seq<CecRecordSource>)
    requires ValidEnvironment(env) && Collected(a) && Collected(b) && RecordSet(a) == RecordSet(b)
    ensures Alike(SortByHash(env, a), SortByHash(env, b))
  {
    var s, t := SortByHash(env, a), SortByHash(env, b);
    SortRanked(env, a);
    SortRanked(env, b);
    SortedDigests(s, a);
    SortedDigests(t, b);
    RankedListsAgree(env, DigestsOf(s), DigestsOf(t));
    forall i | 0 <= i < |s| ensures s[i].record == t[i].record && s[i].sha256 == t[i].sha256 {
      assert DigestsOf(s)[i] == DigestsOf(t)[i];
    }
  }

  lemma {:induction false} PendingAlike(env: Environment, b: Bytes, s: seq<CecRecordSource>, t: seq<CecRecordSource>)
    requires Alike(s, t)
    ensures Alike(Pending(env, b, s), Pending(env, b, t))
  {
    if |s| == 0 {
    } else {
      PendingAlike(env, b, s[..|s| - 1], t[..|t| - 1]);
    }
  }

  lemma {:induction false} PlaceAlike(b: Bytes, s: seq<CecRecordSource>, t: seq<CecRecordSource>, slots: seq<nat>)
    requires |b| == CEC_SIZE && RecordSized(s) && RecordSized(t) && Alike(s, t)
    requires SlotList(slots) && |s| <= |slots|
    ensures Place(b, s, slots) == Place(b, t, slots)
  {
    if |s| == 0 {
    } else {
      PlaceAlike(b, s[..|s| - 1], t[..|t| - 1], slots);
    }
  }

  lemma {:induction false} InsertDigestRanked(env: Environment, d: Digest, s: seq<Digest>)
    requires ValidEnvironment(env) && Ranked(env, s)
    ensures Ranked(env, InsertDigest(env, d, s))
  {
    if |s| > 0 && env.rank(d) >= env.rank(s[0]) && d != s[0] {
      InsertDigestRanked(env, d, s[1..]);
      var rest := InsertDigest(env, d, s[1..]);
      forall k | 0 <= k < |rest| ensures env.rank(s[0]) < env.rank(rest[k]) {
        assert rest[k] in s[1..] || rest[k] == d;
      }
    }
  }

  lemma {:induction false} DigestTreeRanked(env: Environment, s: seq<CecRecordSource>)
    requires ValidEnvironment(env)
    ensures Ranked(env, DigestTree(env, s))
  {
    if |s| == 0 {
    } else {
      DigestTreeRanked(env, s[1..]);
      InsertDigestRanked(env, s[0].sha256, DigestTree(env, s[1..]));
    }
  }

  lemma SameSpelling(env: Environment, x: seq<Digest>, y: seq<Digest>)
    requires ValidEnvironment(env) && SpelledOut(env, x) == SpelledOut(env, y)
    ensures x == y
  {
    assert |x| == |SpelledOut(env, x)| == |SpelledOut(env, y)| == |y|;
    forall i | 0 <= i < |x| ensures x[i] == y[i] {
      assert SpelledOut(env, x)[i] == SpelledOut(env, y)[i];
    }
  }

  /** The record-set fingerprint and the set of digests determine each other: order, duplicates and
      file names do not enter it, and nothing else can produce it. */
  lemma RecordSetFingerprint(env: Environment, a: seq<CecRecordSource>, b: seq<CecRecordSource>)
    requires ValidEnvironment(env)
    ensures SourceRecordSetSha256(env, a) == SourceRecordSetSha256(env, b) <==> Hashes(a) == Hashes(b)
  {
    var x, y := DigestTree(env, a), DigestTree(env, b);
    forall d ensures (d in x <==> d in Hashes(a)) && (d in y <==> d in Hashes(b)) {
    }
    if Hashes(a) == Hashes(b) {
      DigestTreeRanked(env, a);
      DigestTreeRanked(env, b);
      RankedListsAgree(env, x, y);
    }
    if SourceRecordSetSha256(env, a) == SourceRecordSetSha256(env, b) {
      Canonical.SameTail(RecordSetDomain(),
        Canonical.Concat(Canonical.Terminated, SpelledOut(env, x)),
            Canonical.Concat(Canonical.Terminated, SpelledOut(env, y)));
      Canonical.TerminatedIsPrefixCode();
      Canonical.ConcatDecodes(Canonical.Terminated, Canonical.NulFree, SpelledOut(env, x), SpelledOut(env, y));
      SameSpelling(env, x, y);
    }
  }

  /** Nor is the fingerprint ever taken of the bytes another kind of digest is taken of. */
  lemma FingerprintIsItsOwnKind(
      env: Environment, records: seq<CecRecordSource>, sha: Bytes -> Bytes, parts: seq<Bytes>,
      components: seq<(Bytes, Bytes)>, states: seq<(Bytes, Option<Bytes>)>)
    ensures SourceRecordSetSha256(env, records) !in
      {Sha256(Canonical.SnapshotBytes(parts)), Sha256(Canonical.ComponentSetBytes(sha, components)),
       Sha256(Canonical.OutputStateBytes(sha, states))}
  {
    Canonical.AsciiAt("mh3g-cec-source-record-set-v1", 2, 51);
    Canonical.AsciiAt("mh3g-cec-source-record-set-v1", 6, 101);
    Canonical.AsciiAt("mh-save-sync/snapshot-id/v1", 2, 45);
    Canonical.AsciiAt("mh3g-compatibility-component-set-v1", 6, 111);
    Canonical.AsciiAt("mh3g-compatibility-output-state-v1", 6, 111);
    var fingerprint := SourceRecordSetSha256(env, records).preimage;
    assert fingerprint[2] == 51 && fingerprint[6] == 101;
    assert Canonical.SnapshotBytes(parts)[2] == 45;
    assert Canonical.ComponentSetBytes(sha, components)[6] == 111;
    assert Canonical.OutputStateBytes(sha, states)[6] == 111;
  }

  /** Two plans that differ at most in the file names kept for the report. */
  ghost predicate SamePlan(p: Result<CecConversion, PlanError>, q: Result<CecConversion, PlanError>) {
    match (p, q)
    case (Ok(c), Ok(d)) =>
      c.bytes == d.bytes && c.slots == d.slots && Alike(c.records, d.records)
      && c.sourceRecordSetSha256 == d.sourceRecordSetSha256
      && c.beforeSha256 == d.beforeSha256 && c.afterSha256 == d.afterSha256
    case (Err(e), Err(f)) => e == f
    case _ => false
  }

  lemma SameHashes(s: seq<CecRecordSource>, t: seq<CecRecordSource>)
    requires Alike(s, t)
    ensures Hashes(s) == Hashes(t)
  {
    forall d | d in Hashes(s) ensures d in Hashes(t) {
      var i :| 0 <= i < |s| && s[i].sha256 == d;
      assert t[i].sha256 == d;
    }
    forall d | d in Hashes(t) ensures d in Hashes(s) {
      var i :| 0 <= i < |t| && t[i].sha256 == d;
      assert s[i].sha256 == d;
    }
  }

  lemma PlanOfAlike(
      env: Environment, s: seq<CecRecordSource>, t: seq<CecRecordSource>, target: Bytes, requested: Option<nat>)
    requires ValidEnvironment(env) && RecordSized(s) && RecordSized(t) && Alike(s, t) && |target| == CEC_SIZE
    ensures SamePlan(PlanSorted(env, s, target, requested), PlanSorted(env, t, target, requested))
  {
    PendingAlike(env, target, s, t);
    PendingSized(env, target, s);
    PendingSized(env, target, t);
    SameHashes(s, t);
    RecordSetFingerprint(env, s, t);
    var empty := EmptySlots(target, FirstSlot(requested), CEMU_RECORD_SLOT_COUNT);
    var p := Pending(env, target, s);
    if |p| <= |empty| {
      PlaceAlike(target, p, Pending(env, target, t), empty[..|p|]);
    }
  }

  /** The plan depends only on the set of received records, the target bytes and the requested
      slot: mailbox names, order and duplicates have no influence. */
  lemma PlanDependsOnRecordSetOnly(
      env: Environment, a: seq<CecRecordSource>, b: seq<CecRecordSource>, target: Bytes, requested: Option<nat>)
    requires ValidEnvironment(env) && Collected(a) && Collected(b) && RecordSet(a) == RecordSet(b)
    ensures SamePlan(Plan(env, a, target, requested), Plan(env, b, target, requested))
  {
    SortedSetsAlike(env, a, b);
    SortKeepsSizes(env, a);
    SortKeepsSizes(env, b);
    if ValidCec(target) {
      PlanOfAlike(env, SortByHash(env, a), SortByHash(env, b), target, requested);
    }
  }

  // ---------------------------------------------------------------- what a plan keeps

  ghost predicate BlankAndEligible(target: Bytes, slots: seq<nat>, from: nat)
    requires |target| == CEC_SIZE && SlotList(slots)
  {
    forall i :: 0 <= i < |slots| ==> from <= slots[i] && AllZero(SlotBytes(target, slots[i]))
  }

  /** `bytes` differs from `target` only in the listed slots, which ascend, were blank and are not
      before `from`; each of them holds its record. */
  ghost predicate FillsBlankSlotsOnly(
      bytes: Bytes, records: seq<CecRecordSource>, slots: seq<nat>, target: Bytes, from: nat)
    requires |target| == CEC_SIZE
  {
    && |bytes| == CEC_SIZE && bytes[..RecordStart(0)] == target[..RecordStart(0)]
    && SlotList(slots) && |slots| == |records| && BlankAndEligible(target, slots, from)
    && (forall i :: 0 <= i < |slots| ==> SlotBytes(bytes, slots[i]) == records[i].record)
    && forall slot :: 0 <= slot < CEMU_RECORD_SLOT_COUNT && slot !in slots
        ==> SlotBytes(bytes, slot) == SlotBytes(target, slot)
  }

  lemma PlaceFills(target: Bytes, records: seq<CecRecordSource>, slots: seq<nat>, from: nat)
    requires |target| == CEC_SIZE && RecordSized(records) && SlotList(slots) && |records| == |slots|
    requires BlankAndEligible(target, slots, from)
    ensures FillsBlankSlotsOnly(Place(target, records, slots), records, slots, target, from)
  {
    PlaceWrites(target, records, slots);
    assert slots[..|records|] == slots;
  }

  lemma SortedPlanKeeps(env: Environment, s: seq<CecRecordSource>, target: Bytes, requested: Option<nat>)
    requires ValidEnvironment(env) && RecordSized(s) && |target| == CEC_SIZE
    requires PlanSorted(env, s, target, requested).Ok?
    ensures var c := PlanSorted(env, s, target, requested).value;
      FillsBlankSlotsOnly(c.bytes, c.records, c.slots, target, FirstSlot(requested))
  {
    PendingSized(env, target, s);
    var pending := Pending(env, target, s);
    var empty := EmptySlots(target, FirstSlot(requested), CEMU_RECORD_SLOT_COUNT);
    PlaceFills(target, pending, empty[..|pending|], FirstSlot(requested));
  }

  lemma HeaderKept(bytes: Bytes, target: Bytes)
    requires |bytes| == CEC_SIZE && ValidCec(target) && bytes[..RecordStart(0)] == target[..RecordStart(0)]
    ensures ValidCec(bytes)
  {
    assert bytes[..RecordStart(0)][..CEMU_HEADER_SIZE] == bytes[..CEMU_HEADER_SIZE];
    assert target[..RecordStart(0)][..CEMU_HEADER_SIZE] == target[..CEMU_HEADER_SIZE];
  }

  /** A plan never touches the header, the bytes before the record area or an occupied slot. */
  lemma PlanKeepsEverythingElse(env: Environment, a: seq<CecRecordSource>, target: Bytes, requested: Option<nat>)
    requires ValidEnvironment(env) && RecordSized(a) && Plan(env, a, target, requested).Ok?
    ensures var c := Plan(env, a, target, requested).value;
      ValidCec(c.bytes) && FillsBlankSlotsOnly(c.bytes, c.records, c.slots, target, FirstSlot(requested))
  {
    SortKeepsSizes(env, a);
    SortedPlanKeeps(env, SortByHash(env, a), target, requested);
    HeaderKept(Plan(env, a, target, requested).value.bytes, target);
  }

  // ---------------------------------------------------------------- what a plan completes

  /** A pending source is a converted source whose record the container lacks, and conversely. */
  lemma PendingMeaning(env: Environment, b: Bytes, s: seq<CecRecordSource>, r: CecRecordSource)
    requires r in s
    ensures Present(b, Correct(env, r.record)) || Converted(env, r) in Pending(env, b, s)
  {
    FilterMapMembers(NeedsSlot(env, b), s);
    if !Present(b, Correct(env, r.record)) {
      var i :| 0 <= i < |s| && s[i] == r;
      assert NeedsSlot(env, b)(s[i]) == Some(Converted(env, r));
      assert Converted(env, r) in SomeValues(NeedsSlot(env, b), s);
    }
  }

  /** What was in an occupied slot is still there, and what was placed is there. */
  lemma FilledKeepsAndHolds(
      bytes: Bytes, records: seq<CecRecordSource>, slots: seq<nat>, target: Bytes, from: nat, record: Bytes)
    requires |target| == CEC_SIZE && FillsBlankSlotsOnly(bytes, records, slots, target, from) && !AllZero(record)
    requires Present(target, record) || exists k :: 0 <= k < |records| && records[k].record == record
    ensures Present(bytes, record)
  {
    if Present(target, record) {
      var slot :| 0 <= slot < CEMU_RECORD_SLOT_COUNT && SlotBytes(target, slot) == record;
      assert slot !in slots;
      assert SlotBytes(bytes, slot) == record;
    } else {
      var k :| 0 <= k < |records| && records[k].record == record;
      assert SlotBytes(bytes, slots[k]) == record;
    }
  }

  lemma PlannedRecords(env: Environment, a: seq<CecRecordSource>, target: Bytes, requested: Option<nat>)
    requires ValidEnvironment(env) && RecordSized(a) && Plan(env, a, target, requested).Ok?
    ensures Plan(env, a, target, requested).value.records == Pending(env, target, SortByHash(env, a))
  {
    SortKeepsSizes(env, a);
  }

  /** Every converted record that is not blank ends up in some slot of the planned container. */
  lemma PlanCompletes(
      env: Environment, a: seq<CecRecordSource>, target: Bytes, requested: Option<nat>, r: CecRecordSource)
    requires ValidEnvironment(env) && RecordSized(a) && Plan(env, a, target, requested).Ok?
    requires r in a && !AllZero(Correct(env, r.record))
    ensures Present(Plan(env, a, target, requested).value.bytes, Correct(env, r.record))
  {
    var c := Plan(env, a, target, requested).value;
    PlanKeepsEverythingElse(env, a, target, requested);
    PlannedRecords(env, a, target, requested);
    PendingMeaning(env, target, SortByHash(env, a), r);
    FilledKeepsAndHolds(c.bytes, c.records, c.slots, target, FirstSlot(requested), Correct(env, r.record));
  }

  // ---------------------------------------------------------------- when a plan fails

  /** The received records, by digest, whose converted form the container lacks. */
  ghost function MissingDigests(env: Environment, b: Bytes, a: seq<CecRecordSource>): set<Digest> {
    set i | 0 <= i < |a| && !Present(b, Correct(env, a[i].record)) :: a[i].sha256
  }

  ghost function BlankSlots(b: Bytes, from: nat): set<nat>
    requires |b| == CEC_SIZE
  {
    set slot | from <= slot < CEMU_RECORD_SLOT_COUNT && AllZero(SlotBytes(b, slot))
  }

  lemma BlankSlotCount(b: Bytes, from: nat)
    requires |b| == CEC_SIZE
    ensures |EmptySlots(b, from, CEMU_RECORD_SLOT_COUNT)| == |BlankSlots(b, from)|
  {
    var s := EmptySlots(b, from, CEMU_RECORD_SLOT_COUNT);
    forall x ensures x in s <==> x in BlankSlots(b, from) {
    }
    DistinctCount(s, BlankSlots(b, from));
  }

  ghost function DigestIfMissing(env: Environment, b: Bytes): CecRecordSource -> Option<Digest> {
    (r: CecRecordSource) => if Present(b, Correct(env, r.record)) then None else Some(r.sha256)
  }

  lemma {:induction false} PendingDigests(env: Environment, b: Bytes, s: seq<CecRecordSource>)
    ensures |Pending(env, b, s)| == |FilterMap(DigestIfMissing(env, b), s)|
  {
    if |s| == 0 {
    } else {
      PendingDigests(env, b, s[..|s| - 1]);
    }
  }

  lemma PendingCount(env: Environment, b: Bytes, s: seq<CecRecordSource>)
    requires forall i, j :: 0 <= i < j < |s| ==> s[i].sha256 != s[j].sha256
    ensures |Pending(env, b, s)| == |MissingDigests(env, b, s)|
  {
    var f := DigestIfMissing(env, b);
    PendingDigests(env, b, s);
    FilterMapDistinct(f, s);
    FilterMapMembers(f, s);
    forall d ensures d in SomeValues(f, s) <==> d in MissingDigests(env, b, s) {
    }
    DistinctCount(FilterMap(f, s), MissingDigests(env, b, s));
  }

  lemma MissingDigestsOfSameMembers(env: Environment, b: Bytes, s: seq<CecRecordSource>, t: seq<CecRecordSource>)
    requires forall r :: r in s <==> r in t
    ensures MissingDigests(env, b, s) == MissingDigests(env, b, t)
  {
    forall i | 0 <= i < |s| ensures s[i] in t {
      assert s[i] in s;
    }
    forall i | 0 <= i < |t| ensures t[i] in s {
      assert t[i] in t;
    }
  }

  /** With a recognized container, some records and a slot in range, planning fails exactly when more
      records are missing from the container than blank slots remain from the requested one on. */
  lemma PlanFailsExactlyWhenShort(env: Environment, a: seq<CecRecordSource>, target: Bytes, requested: Option<nat>)
    requires ValidEnvironment(env) && Collected(a) && |a| > 0 && ValidCec(target)
    requires FirstSlot(requested) < CEMU_RECORD_SLOT_COUNT
    ensures var p := Plan(env, a, target, requested);
      && (p.Err? ==> p.error == NotEnoughEmptySlots)
      && (p.Err? <==> |MissingDigests(env, target, a)| > |BlankSlots(target, FirstSlot(requested))|)
  {
    var s := SortByHash(env, a);
    SortKeepsSizes(env, a);
    SortRanked(env, a);
    MissingDigestsOfSameMembers(env, target, s, a);
    PendingCount(env, target, s);
    BlankSlotCount(target, FirstSlot(requested));
  }

  // ---------------------------------------------------------------- planning again

  lemma NothingPendingWhenAllPresent(env: Environment, b: Bytes, s: seq<CecRecordSource>)
    ensures |Pending(env, b, s)| == 0 <==> forall r :: r in s ==> Present(b, Correct(env, r.record))
  {
    FilterMapMembers(NeedsSlot(env, b), s);
    if |Pending(env, b, s)| == 0 {
      forall r | r in s ensures Present(b, Correct(env, r.record)) {
        PendingMeaning(env, b, s, r);
      }
    } else {
      assert Pending(env, b, s)[0] in SomeValues(NeedsSlot(env, b), s);
      var i :| 0 <= i < |s| && NeedsSlot(env, b)(s[i]).Some?;
      assert s[i] in s && !Present(b, Correct(env, s[i].record));
    }
  }

  lemma BlankRecordPresent(b: Bytes, record: Bytes)
    requires |b| == CEC_SIZE && |record| == CEMU_RECORD_SLOT_SIZE && AllZero(record)
    ensures Present(b, record) <==> BlankSlots(b, 0) != {}
  {
    if BlankSlots(b, 0) != {} {
      var slot :| slot in BlankSlots(b, 0);
      assert SlotBytes(b, slot) == record;
    }
    if Present(b, record) {
      var slot :| 0 <= slot < CEMU_RECORD_SLOT_COUNT && SlotBytes(b, slot) == record;
      assert slot in BlankSlots(b, 0);
    }
  }

  /** Whether planning the same records into an already planned container leaves it alone: no record
      converts to all zeros, or a blank slot is left to stand for it. */
  ghost predicate ReplanHarmless(env: Environment, a: seq<CecRecordSource>, planned: Bytes)
    requires |planned| == CEC_SIZE
  {
    (forall r :: r in a ==> !AllZero(Correct(env, r.record))) || BlankSlots(planned, 0) != {}
  }

  lemma RecordPresentAfterPlan(
      env: Environment, a: seq<CecRecordSource>, target: Bytes, requested: Option<nat>, r: CecRecordSource)
    requires ValidEnvironment(env) && Collected(a) && Plan(env, a, target, requested).Ok? && r in a
    ensures var b := Plan(env, a, target, requested).value.bytes;
      |b| == CEC_SIZE
      && (Present(b, Correct(env, r.record)) <==> !AllZero(Correct(env, r.record)) || BlankSlots(b, 0) != {})
  {
    PlanKeepsEverythingElse(env, a, target, requested);
    CorrectSized(env, r.record);
    if AllZero(Correct(env, r.record)) {
      BlankRecordPresent(Plan(env, a, target, requested).value.bytes, Correct(env, r.record));
    } else {
      PlanCompletes(env, a, target, requested, r);
    }
  }

  lemma ReplanPending(env: Environment, a: seq<CecRecordSource>, target: Bytes, requested: Option<nat>)
    requires ValidEnvironment(env) && Collected(a) && Plan(env, a, target, requested).Ok?
    ensures var b := Plan(env, a, target, requested).value.bytes;
      ValidCec(b) && (|Pending(env, b, SortByHash(env, a))| == 0 <==> ReplanHarmless(env, a, b))
  {
    var b := Plan(env, a, target, requested).value.bytes;
    PlanKeepsEverythingElse(env, a, target, requested);
    NothingPendingWhenAllPresent(env, b, SortByHash(env, a));
    forall r | r in a ensures Present(b, Correct(env, r.record)) <==>
      !AllZero(Correct(env, r.record)) || BlankSlots(b, 0) != {}
    {
      RecordPresentAfterPlan(env, a, target, requested, r);
    }
  }

  lemma PlanWhenNothingOrNoRoom(env: Environment, a: seq<CecRecordSource>, b: Bytes, requested: Option<nat>)
    requires ValidEnvironment(env) && Collected(a) && |a| > 0 && ValidCec(b)
    requires FirstSlot(requested) < CEMU_RECORD_SLOT_COUNT
    ensures var p := Plan(env, a, b, requested);
      var pending := Pending(env, b, SortByHash(env, a));
      && (|pending| == 0 ==> p.Ok? && p.value.bytes == b && p.value.slots == [])
      && (|pending| > 0 && BlankSlots(b, 0) == {} ==> p == Err(NotEnoughEmptySlots))
  {
    SortKeepsSizes(env, a);
    BlankSlotCount(b, FirstSlot(requested));
    assert BlankSlots(b, 0) == {} ==> BlankSlots(b, FirstSlot(requested)) == {};
  }

  /** Planning the same records again into the planned container is a no-op exactly when
      `ReplanHarmless` holds; otherwise the second planning fails for want of a slot. */
  lemma ReplanIsNoOp(
      env: Environment, a: seq<CecRecordSource>, target: Bytes, requested: Option<nat>, again: Option<nat>)
    requires ValidEnvironment(env) && Collected(a) && Plan(env, a, target, requested).Ok?
    requires FirstSlot(again) < CEMU_RECORD_SLOT_COUNT
    ensures var c := Plan(env, a, target, requested).value;
      var second := Plan(env, a, c.bytes, again);
      |c.bytes| == CEC_SIZE
      && (ReplanHarmless(env, a, c.bytes) <==> second.Ok? && second.value.bytes == c.bytes && second.value.slots == [])
      && (!ReplanHarmless(env, a, c.bytes) <==> second == Err(NotEnoughEmptySlots))
  {
    ReplanPending(env, a, target, requested);
    PlanWhenNothingOrNoRoom(env, a, Plan(env, a, target, requested).value.bytes, again);
  }

  // ---------------------------------------------------------------- planning again can fail

  lemma BlankBefore(
      bytes: Bytes, records: seq<CecRecordSource>, slots: seq<nat>, target: Bytes, from: nat, slot: nat)
    requires |target| == CEC_SIZE && FillsBlankSlotsOnly(bytes, records, slots, target, from)
    requires slot in BlankSlots(bytes, 0)
    ensures slot in BlankSlots(target, 0)
  {
    if slot in slots {
      var i :| 0 <= i < |slots| && slots[i] == slot;
    } else {
      assert SlotBytes(bytes, slot) == SlotBytes(target, slot);
    }
  }

  lemma OnlyMember(s: set<nat>, x: nat, y: nat)
    requires |s| == 1 && x in s && y in s
    ensures x == y
  {
    assert |s - {x}| == 0;
  }

  /** The one blank slot is the one that got a record which is not blank. */
  lemma LastBlankFilled(
      bytes: Bytes, records: seq<CecRecordSource>, slots: seq<nat>, target: Bytes, from: nat, record: Bytes)
    requires |target| == CEC_SIZE && FillsBlankSlotsOnly(bytes, records, slots, target, from)
    requires |BlankSlots(target, 0)| == 1
    requires Present(bytes, record) && !Present(target, record) && !AllZero(record)
    ensures BlankSlots(bytes, 0) == {}
  {
    var filled :| 0 <= filled < CEMU_RECORD_SLOT_COUNT && SlotBytes(bytes, filled) == record;
    assert SlotBytes(target, filled) != record;
    assert filled in slots;
    assert filled in BlankSlots(target, 0);
    forall slot: nat ensures slot !in BlankSlots(bytes, 0) {
      if slot in BlankSlots(bytes, 0) {
        BlankBefore(bytes, records, slots, target, from, slot);
        OnlyMember(BlankSlots(target, 0), filled, slot);
      }
    }
  }

  /** A record that converts to all zeros counts as present while a blank slot is left. Once another record takes the
      last one, planning the same two records again is refused. */
  lemma ReplanFails(env: Environment, blank: CecRecordSource, filler: CecRecordSource, target: Bytes)
    requires ValidEnvironment(env) && Collected([blank, filler]) && ValidCec(target) && |BlankSlots(target, 0)| == 1
    requires AllZero(Correct(env, blank.record)) && !AllZero(Correct(env, filler.record))
    requires !Present(target, Correct(env, filler.record))
    ensures var first := Plan(env, [blank, filler], target, None);
      first.Ok? && Plan(env, [blank, filler], first.value.bytes, None) == Err(NotEnoughEmptySlots)
  {
    var a := [blank, filler];
    assert blank in a && filler in a;
    CorrectSized(env, blank.record);
    BlankRecordPresent(target, Correct(env, blank.record));
    assert MissingDigests(env, target, a) == {filler.sha256};
    PlanFailsExactlyWhenShort(env, a, target, None);
    var first := Plan(env, a, target, None).value;
    PlanKeepsEverythingElse(env, a, target, None);
    PlanCompletes(env, a, target, None, filler);
    LastBlankFilled(first.bytes, first.records, first.slots, target, 0, Correct(env, filler.record));
    ReplanIsNoOp(env, a, target, None, None);
  }

  /** The converter's crown byte: four bits are moved and the others dropped. */
  function Crown(state: Byte): Byte {
    ((state & 0x01) << 7) | ((state & 0x02) << 4) | ((state & 0x04) << 4) | (state & 0x08)
  }

  /** The crown bytes of a guild card: byte 8 of each of the 50 monster-log rows. */
  predicate IsCrown(at: nat) {
    0x7C0 <= at < 0x7C0 + 50 * 10 && (at - 0x7C0) % 10 == 8
  }

  /** The part of the guild-card correction that concerns crowns. */
  function CorrectCrowns(card: Bytes): (c: Bytes)
    ensures |c| == |card|
  {
    seq(|card|, i requires 0 <= i < |card| => if IsCrown(i) then Crown(card[i]) else card[i])
  }

  /** A card record that is blank but for one crown state the conversion drops. */
  function DroppedCrownRecord(): Bytes {
    Zeros(CEMU_RECORD_SLOT_SIZE)[0x7C8 := 0x10]
  }

  function Filled(n: nat, b: Byte): (r: Bytes)
    ensures |r| == n && forall i :: 0 <= i < n ==> r[i] == b
  {
    seq(n, _ => b)
  }

  function SourceOf(record: Bytes): CecRecordSource {
    CecRecordSource("", record, Sha256(record))
  }

  /** A container with one blank slot, the last. */
  function OneBlankCec(): (b: Bytes)
    ensures |b| == CEC_SIZE && ValidCec(b)
    ensures forall i :: RecordStart(0) <= i < RecordStart(CEMU_RECORD_SLOT_COUNT - 1) ==> b[i] == 2
    ensures forall i :: RecordStart(CEMU_RECORD_SLOT_COUNT - 1) <= i < CEC_SIZE ==> b[i] == 0
  {
    CecHeader() + Filled(RecordStart(CEMU_RECORD_SLOT_COUNT - 1) - CEMU_HEADER_SIZE, 2) + Zeros(CEMU_RECORD_SLOT_SIZE)
  }

  lemma FirstByteOfSlot(slot: nat)
    requires slot < CEMU_RECORD_SLOT_COUNT
    ensures SlotBytes(OneBlankCec(), slot)[0] == if slot == CEMU_RECORD_SLOT_COUNT - 1 then 0 else 2
  {
  }

  lemma OneBlankSlot()
    ensures BlankSlots(OneBlankCec(), 0) == {CEMU_RECORD_SLOT_COUNT - 1}
  {
    forall slot | 0 <= slot < CEMU_RECORD_SLOT_COUNT
      ensures AllZero(SlotBytes(OneBlankCec(), slot)) <==> slot == CEMU_RECORD_SLOT_COUNT - 1
    {
      FirstByteOfSlot(slot);
    }
  }

  lemma OneIsAbsent(record: Bytes)
    requires |record| == CEMU_RECORD_SLOT_SIZE && record[0] == 1
    ensures !Present(OneBlankCec(), record) && !AllZero(record)
  {
    forall slot | 0 <= slot < CEMU_RECORD_SLOT_COUNT ensures SlotBytes(OneBlankCec(), slot) != record {
      FirstByteOfSlot(slot);
    }
  }

  lemma CrownsOfRecord(env: Environment, record: Bytes)
    requires env.card == CorrectCrowns && |record| == CEMU_RECORD_SLOT_SIZE
    ensures record == DroppedCrownRecord() ==> AllZero(Correct(env, record))
    ensures Correct(env, record)[0] == record[0]
  {
    assert IsCrown(0x7C8) && Crown(0x10) == 0 && Crown(0) == 0;
  }

  lemma CrownPair() returns (a: seq<CecRecordSource>)
    ensures |a| == 2 && Collected(a) && forall r :: r in a ==> !AllZero(r.record)
    ensures a[0].record == DroppedCrownRecord() && a[1].record[0] == 1
  {
    var blank, filler := SourceOf(DroppedCrownRecord()), SourceOf(Filled(CEMU_RECORD_SLOT_SIZE, 1));
    a := [blank, filler];
    assert blank.record[0x7C8] == 0x10 && filler.record[0x7C8] == 1 && filler.record[0] == 1;
  }

  /** Such a pair of records exists: with the converter's crown bytes and any spelling and order of digests, planning
      succeeds once and is then refused for the same mailbox. */
  lemma DroppedCrownBlocksReplan(env: Environment) returns (a: seq<CecRecordSource>)
    requires ValidEnvironment(env) && env.card == CorrectCrowns
    ensures Collected(a) && forall r :: r in a ==> !AllZero(r.record)
    ensures var first := Plan(env, a, OneBlankCec(), None);
      first.Ok? && Plan(env, a, first.value.bytes, None) == Err(NotEnoughEmptySlots)
  {
    a := CrownPair();
    CrownsOfRecord(env, a[0].record);
    CrownsOfRecord(env, a[1].record);
    OneBlankSlot();
    CorrectSized(env, a[1].record);
    OneIsAbsent(Correct(env, a[1].record));
    assert a == [a[0], a[1]];
    ReplanFails(env, a[0], a[1], OneBlankCec());
  }

  // ---------------------------------------------------------------- the Dry Run binds the write

  /** The container a missing target stands for. */
  function TargetBytes(target: Option<Bytes>): Bytes {
    match target case Some(b) => b case None => EmptyCec()
  }

  function ObservedTargetSha256(target: Option<Bytes>): Digest {
    Sha256(TargetBytes(target))
  }

  lemma HashesDetermineRecords(a: seq<CecRecordSource>, b: seq<CecRecordSource>)
    requires Collected(a) && Collected(b) && Hashes(a) == Hashes(b)
    ensures RecordSet(a) == RecordSet(b)
  {
    forall i | 0 <= i < |a| ensures a[i].record in RecordSet(b) {
      assert a[i].sha256 in Hashes(b);
      var j :| 0 <= j < |b| && b[j].sha256 == a[i].sha256;
      assert b[j].record in RecordSet(b);
    }
    forall i | 0 <= i < |b| ensures b[i].record in RecordSet(a) {
      assert b[i].sha256 in Hashes(a);
      var j :| 0 <= j < |a| && a[j].sha256 == b[i].sha256;
      assert a[j].record in RecordSet(a);
    }
  }

  /** A write that sees the two fingerprints of a Dry Run and the same slot plans the same bytes the
      Dry Run reported, whatever happened to the mailbox files in between. */
  lemma DryRunBindsWrite(env: Environment, dry: seq<CecRecordSource>, dryTarget: Option<Bytes>,
                         now: seq<CecRecordSource>, nowTarget: Option<Bytes>, requested: Option<nat>)
    requires ValidEnvironment(env) && Collected(dry) && Collected(now)
    requires SourceRecordSetSha256(env, dry) == SourceRecordSetSha256(env, now)
    requires ObservedTargetSha256(dryTarget) == ObservedTargetSha256(nowTarget)
    ensures SamePlan(Plan(env, dry, TargetBytes(dryTarget), requested),
        Plan(env, now, TargetBytes(nowTarget), requested))
  {
    RecordSetFingerprint(env, dry, now);
    HashesDetermineRecords(dry, now);
    PlanDependsOnRecordSetOnly(env, dry, now, TargetBytes(dryTarget), requested);
  }
}
