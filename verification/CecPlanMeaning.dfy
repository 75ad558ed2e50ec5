/** What a CEC plan means for the bytes of the messages, of the container it starts from and of the one it makes: which
    cards end up where, which slots are taken, and when there is no plan. */
module CecPlanMeaning {
  import opened Base
  import opened Words
  import opened Profile
  import opened CecPlan
  import opened CecPlanProperties

  // ---------------------------------------------------------------- cards and slots as bytes

  /** The guild card stored from `at` on. */
  function CardAt(b: Bytes, at: nat): (c: Bytes)
    requires at + 0xE00 <= |b|
    ensures |c| == 0xE00
  {
    b[at..at + 0xE00]
  }

  /** Byte `at` of the container lies in slot `slot`. */
  predicate InSlot(slot: nat, at: int) {
    0x224 + slot * 0x2A00 <= at < 0x224 + (slot + 1) * 0x2A00
  }

  /** The slot holds the three cards of a packed record, each corrected on its own and in its own place. */
  ghost predicate HoldsCards(env: Environment, b: Bytes, slot: nat, record: Bytes)
    requires |b| == CEC_SIZE && slot < 50 && |record| == 0x2A00
  {
    forall j :: 0 <= j < 3 ==> CardAt(b, 0x224 + slot * 0x2A00 + j * 0xE00) == env.card(CardAt(record, j * 0xE00))
  }

  ghost predicate HeldSomewhere(env: Environment, b: Bytes, record: Bytes)
    requires |b| == CEC_SIZE && |record| == 0x2A00
  {
    exists slot :: 0 <= slot < 50 && HoldsCards(env, b, slot, record)
  }

  /** All three cards of the record are corrected to zeros. */
  ghost predicate BlankCards(env: Environment, record: Bytes)
    requires |record| == 0x2A00
  {
    forall j :: 0 <= j < 3 ==> AllZero(env.card(CardAt(record, j * 0xE00)))
  }

  ghost predicate BlankSlot(b: Bytes, slot: nat)
    requires |b| == CEC_SIZE && slot < 50
  {
    forall at :: InSlot(slot, at) ==> b[at] == 0
  }

  lemma RangeOfRange(b: Bytes, at: nat, n: nat, lo: nat, hi: nat)
    requires at + n <= |b| && lo <= hi <= n
    ensures b[at..at + n][lo..hi] == b[at + lo..at + hi]
  {
    var s, t := b[at..at + n][lo..hi], b[at + lo..at + hi];
    forall i | 0 <= i < hi - lo ensures s[i] == t[i] {
      assert s[i] == b[at..at + n][lo + i];
    }
  }

  /** The three cards packed from `at` on make up the packed record there. */
  lemma PackedCards(b: Bytes, at: nat)
    requires at + 0x2A00 <= |b|
    ensures var s := b[at..at + 0x2A00];
      s[..0xE00] == CardAt(b, at) && s[0xE00..0x1C00] == CardAt(b, at + 0xE00)
      && s[0x1C00..] == CardAt(b, at + 0x1C00)
  {
    RangeOfRange(b, at, 0x2A00, 0xE00, 0x1C00);
    RangeOfRange(b, at, 0x2A00, 0x1C00, 0x2A00);
  }

  lemma CorrectedCards(env: Environment, record: Bytes)
    requires ValidEnvironment(env) && |record| == 0x2A00
    ensures var c := Correct(env, record);
      && |c| == 0x2A00 && CardAt(c, 0) == env.card(CardAt(record, 0))
      && CardAt(c, 0xE00) == env.card(CardAt(record, 0xE00)) && CardAt(c, 0x1C00) == env.card(CardAt(record, 0x1C00))
  {
    PackedCards(record, 0);
    assert record[0..0x2A00] == record;
  }

  lemma SameCards(s: Bytes, t: Bytes)
    requires |s| == 0x2A00 && |t| == 0x2A00
    ensures s == t <==>
      CardAt(s, 0) == CardAt(t, 0) && CardAt(s, 0xE00) == CardAt(t, 0xE00) && CardAt(s, 0x1C00) == CardAt(t, 0x1C00)
  {
    assert s == CardAt(s, 0) + CardAt(s, 0xE00) + CardAt(s, 0x1C00);
    assert t == CardAt(t, 0) + CardAt(t, 0xE00) + CardAt(t, 0x1C00);
  }

  lemma ThreeCards(env: Environment, b: Bytes, slot: nat, record: Bytes)
    requires |b| == CEC_SIZE && slot < 50 && |record| == 0x2A00
    ensures HoldsCards(env, b, slot, record) <==>
      CardAt(b, 0x224 + slot * 0x2A00) == env.card(CardAt(record, 0))
      && CardAt(b, 0x224 + slot * 0x2A00 + 0xE00) == env.card(CardAt(record, 0xE00))
      && CardAt(b, 0x224 + slot * 0x2A00 + 0x1C00) == env.card(CardAt(record, 0x1C00))
  {
    var start := 0x224 + slot * 0x2A00;
    assert start + 0 * 0xE00 == start && start + 1 * 0xE00 == start + 0xE00 && start + 2 * 0xE00 == start + 0x1C00;
  }

  lemma SlotHoldsCards(env: Environment, b: Bytes, slot: nat, record: Bytes)
    requires ValidEnvironment(env) && |b| == CEC_SIZE && slot < 50 && |record| == 0x2A00
    ensures HoldsCards(env, b, slot, record) <==> SlotBytes(b, slot) == Correct(env, record)
  {
    var s := SlotBytes(b, slot);
    PackedCards(b, 0x224 + slot * 0x2A00);
    CorrectedCards(env, record);
    SameCards(s, Correct(env, record));
    ThreeCards(env, b, slot, record);
  }

  lemma HeldIsPresent(env: Environment, b: Bytes, record: Bytes)
    requires ValidEnvironment(env) && |b| == CEC_SIZE && |record| == 0x2A00
    ensures HeldSomewhere(env, b, record) <==> Present(b, Correct(env, record))
  {
    forall slot: nat | slot < 50
      ensures HoldsCards(env, b, slot, record) <==> SlotBytes(b, slot) == Correct(env, record)
    {
      SlotHoldsCards(env, b, slot, record);
    }
  }

  lemma BlankCardsCorrect(env: Environment, record: Bytes)
    requires ValidEnvironment(env) && |record| == 0x2A00
    ensures BlankCards(env, record) <==> AllZero(Correct(env, record))
  {
    var c := Correct(env, record);
    CorrectedCards(env, record);
    assert CardAt(record, 0 * 0xE00) == CardAt(record, 0);
    assert CardAt(record, 1 * 0xE00) == CardAt(record, 0xE00) && CardAt(record, 2 * 0xE00) == CardAt(record, 0x1C00);
    assert c == CardAt(c, 0) + CardAt(c, 0xE00) + CardAt(c, 0x1C00);
    if AllZero(c) {
      assert AllZero(CardAt(c, 0)) && AllZero(CardAt(c, 0xE00)) && AllZero(CardAt(c, 0x1C00));
    }
  }

  lemma BlankSlotBytes(b: Bytes, slot: nat)
    requires |b| == CEC_SIZE && slot < 50
    ensures BlankSlot(b, slot) <==> AllZero(SlotBytes(b, slot))
  {
    var start := 0x224 + slot * 0x2A00;
    if AllZero(SlotBytes(b, slot)) {
      forall at | InSlot(slot, at) ensures b[at] == 0 {
        assert SlotBytes(b, slot)[at - start] == b[at];
      }
    }
    if BlankSlot(b, slot) {
      forall i | 0 <= i < 0x2A00 ensures SlotBytes(b, slot)[i] == 0 {
        assert InSlot(slot, start + i);
      }
    }
  }

  lemma SlotUnchanged(b: Bytes, out: Bytes, slot: nat)
    requires |b| == CEC_SIZE && |out| == CEC_SIZE && slot < 50 && SlotBytes(out, slot) == SlotBytes(b, slot)
    ensures forall at :: InSlot(slot, at) ==> out[at] == b[at]
  {
    var start := 0x224 + slot * 0x2A00;
    forall at | InSlot(slot, at) ensures out[at] == b[at] {
      assert SlotBytes(out, slot)[at - start] == out[at] && SlotBytes(b, slot)[at - start] == b[at];
    }
  }

  // ---------------------------------------------------------------- what is received

  /** A message with this content is a received card: the bytes at the offsets of its header, and a body that ends with
      the record. */
  ghost predicate Carries(b: Bytes, record: Bytes) {
    && |b| >= 0x70 && b[..2] == [0x60, 0x60] && |record| == 0x2A00
    && b[16..20] == [0x00, 0x81, 0x04, 0x00] && b[20..24] == [0, 0, 0, 0]
    && LittleWord(b, 4) as nat == |b| && LittleWord(b, 12) as nat == 8 + 0x2A00
    && var header := LittleWord(b, 8) as nat;
      0x70 <= header && header + 8 + 0x2A00 <= |b| && record == b[header + 8..header + 8 + 0x2A00]
  }

  /** Some readable message of the mailbox carries the record, and the record is not blank. */
  ghost predicate Received(mailbox: seq<Message>, record: Bytes) {
    !AllZero(record)
    && exists i :: 0 <= i < |mailbox| && mailbox[i].content.Some? && Carries(mailbox[i].content.value, record)
  }

  lemma HalfOf(p: Byte, q: Byte)
    ensures Word16(p, q) == 0x6060 <==> p == 0x60 && q == 0x60
  {
  }

  lemma LittleWordBytes(b: Bytes, at: nat, w: bv32)
    requires at + 4 <= |b|
    ensures LittleWord(b, at) == w <==> b[at..at + 4] == LittleEndian32(w)
  {
    Word32OfBytes(b[at], b[at + 1], b[at + 2], b[at + 3]);
    BytesOfWord32(w);
    assert b[at..at + 4] == [b[at], b[at + 1], b[at + 2], b[at + 3]];
  }

  lemma CarriedRecord(b: Bytes, record: Bytes)
    ensures Carries(b, record) <==> IsCardMessage(b) && CardRecord(b) == record
  {
    if |b| >= 0x70 {
      HalfOf(b[0], b[1]);
      assert b[..2] == [b[0], b[1]];
      LittleWordBytes(b, 16, MH3G_TITLE_ID);
      LittleWordBytes(b, 20, 0);
      assert LittleEndian32(MH3G_TITLE_ID) == [0x00, 0x81, 0x04, 0x00] && LittleEndian32(0) == [0, 0, 0, 0];
    }
  }

  /** The records read from a mailbox are those some message of it carries. */
  lemma ReceivedRecords(mailbox: seq<Message>, record: Bytes)
    ensures record in ReceivedSet(mailbox) <==> Received(mailbox, record)
  {
    forall i | 0 <= i < |mailbox| && mailbox[i].content.Some?
      ensures ReadMessage(mailbox[i]) == Some(record) <==>
        !AllZero(record) && Carries(mailbox[i].content.value, record)
    {
      CarriedRecord(mailbox[i].content.value, record);
    }
  }

  // ---------------------------------------------------------------- what a plan does

  /** The container the converter accepts: its exact size and its exact header. */
  predicate Recognized(b: Bytes) {
    |b| == 40 + 0x835FC && BuildJpCemuHeader([99, 101, 99], 0x835FC) == Ok(b[..40])
  }

  /** The blank slots a request allows, or all of them without a request. */
  ghost function Eligible(target: Bytes, requested: Option<nat>): set<nat>
    requires |target| == CEC_SIZE
  {
    set slot | 0 <= slot < 50 && (requested.Some? ==> requested.value <= slot) && BlankSlot(target, slot)
  }

  ghost predicate PackedRecords(records: set<Bytes>) {
    forall r :: r in records ==> |r| == 0x2A00
  }

  /** The received records whose cards no slot holds yet. */
  ghost function Missing(env: Environment, records: set<Bytes>, target: Bytes): set<Bytes>
    requires |target| == CEC_SIZE && PackedRecords(records)
  {
    set r | r in records && !HeldSomewhere(env, target, r)
  }

  /** The lowest of the eligible slots, ascending. */
  ghost predicate LowestOf(slots: seq<nat>, eligible: set<nat>) {
    && (forall i :: 0 <= i < |slots| ==> slots[i] in eligible)
    && (forall i, j :: 0 <= i < j < |slots| ==> slots[i] < slots[j])
    && forall i, slot :: 0 <= i < |slots| && slot in eligible && slot < slots[i] ==> slot in slots
  }

  /** The digests listed are those of exactly these records, in the string order of the digests. */
  ghost predicate ListsRecords(env: Environment, listed: seq<CecRecordSource>, records: set<Bytes>) {
    && (forall i :: 0 <= i < |listed| ==> listed[i].sha256.preimage in records)
    && (forall r :: r in records ==> exists i :: 0 <= i < |listed| && listed[i].sha256 == Sha256(r))
    && forall i, j :: 0 <= i < j < |listed| ==> env.rank(listed[i].sha256) < env.rank(listed[j].sha256)
  }

  /** Outside the listed slots nothing changes; each listed slot gets the cards of its own record. */
  ghost predicate Fills(env: Environment, target: Bytes, c: CecConversion)
    requires |target| == CEC_SIZE && |c.bytes| == CEC_SIZE && |c.slots| == |c.records|
    requires forall i :: 0 <= i < |c.slots| ==> c.slots[i] < 50 && |c.records[i].sha256.preimage| == 0x2A00
  {
    && c.bytes[..0x224] == target[..0x224]
    && (forall slot, at :: 0 <= slot < 50 && slot !in c.slots && InSlot(slot, at) ==> c.bytes[at] == target[at])
    && forall i :: 0 <= i < |c.slots| ==> HoldsCards(env, c.bytes, c.slots[i], c.records[i].sha256.preimage)
  }

  /** Planning these records into the container yields `c`. */
  ghost predicate Planned(env: Environment, records: set<Bytes>, target: Bytes, requested: Option<nat>,
                          c: CecConversion)
    requires |target| == CEC_SIZE && PackedRecords(records)
  {
    && |c.bytes| == CEC_SIZE && |c.slots| == |c.records|
    && LowestOf(c.slots, Eligible(target, requested))
    && ListsRecords(env, c.records, Missing(env, records, target))
    && Fills(env, target, c)
    && (forall r :: r in records ==> HeldSomewhere(env, c.bytes, r) || BlankCards(env, r))
    && c.beforeSha256 == Sha256(target) && c.afterSha256 == Sha256(c.bytes)
  }

  lemma RecognizedIsValid(b: Bytes)
    ensures Recognized(b) <==> ValidCec(b)
  {
    assert CecHeader() == BuildJpCemuHeader([99, 101, 99], 0x835FC).value;
    assert BuildJpCemuHeader([99, 101, 99], 0x835FC).Ok?;
  }

  lemma EligibleSlots(target: Bytes, requested: Option<nat>)
    requires |target| == CEC_SIZE
    ensures Eligible(target, requested) == BlankSlots(target, FirstSlot(requested))
  {
    forall slot: nat | slot < 50 ensures BlankSlot(target, slot) <==> AllZero(SlotBytes(target, slot)) {
      BlankSlotBytes(target, slot);
    }
  }

  lemma CollectedIsPacked(a: seq<CecRecordSource>)
    requires Collected(a)
    ensures PackedRecords(RecordSet(a)) && RecordSized(a)
    ensures forall i :: 0 <= i < |a| ==> a[i].sha256.preimage == a[i].record && a[i].record in RecordSet(a)
  {
  }

  lemma {:induction false} PendingKeepsOrder(env: Environment, b: Bytes, s: seq<CecRecordSource>)
    requires RankedRecords(env, s)
    ensures RankedRecords(env, Pending(env, b, s))
  {
    if |s| > 0 {
      var n := |s| - 1;
      var before := Pending(env, b, s[..n]);
      PendingKeepsOrder(env, b, s[..n]);
      FilterMapMembers(NeedsSlot(env, b), s[..n]);
      forall k | 0 <= k < |before| ensures env.rank(before[k].sha256) < env.rank(s[n].sha256) {
        assert before[k] in SomeValues(NeedsSlot(env, b), s[..n]);
      }
    }
  }

  /** What is pending is what is missing: the raw records behind the digests, and the corrected bytes. */
  lemma PendingIsMissing(env: Environment, b: Bytes, a: seq<CecRecordSource>, s: seq<CecRecordSource>)
    requires ValidEnvironment(env) && |b| == CEC_SIZE && Collected(a) && forall r :: r in s <==> r in a
    ensures PackedRecords(RecordSet(a))
    ensures var p := Pending(env, b, s);
      && (forall i :: 0 <= i < |p| ==> p[i].sha256.preimage in Missing(env, RecordSet(a), b))
      && (forall i :: 0 <= i < |p| ==> p[i].record == Correct(env, p[i].sha256.preimage))
      && forall r :: r in Missing(env, RecordSet(a), b) ==> exists i :: 0 <= i < |p| && p[i].sha256 == Sha256(r)
  {
    CollectedIsPacked(a);
    var p := Pending(env, b, s);
    FilterMapMembers(NeedsSlot(env, b), s);
    forall i | 0 <= i < |p|
      ensures p[i].sha256.preimage in Missing(env, RecordSet(a), b) && p[i].record == Correct(env, p[i].sha256.preimage)
    {
      assert p[i] in SomeValues(NeedsSlot(env, b), s);
      var k :| 0 <= k < |s| && NeedsSlot(env, b)(s[k]) == Some(p[i]);
      assert s[k] in a;
      HeldIsPresent(env, b, s[k].record);
    }
    forall r | r in Missing(env, RecordSet(a), b) ensures exists i :: 0 <= i < |p| && p[i].sha256 == Sha256(r) {
      var k :| 0 <= k < |a| && a[k].record == r;
      HeldIsPresent(env, b, r);
      assert a[k] in s;
      PendingMeaning(env, b, s, a[k]);
    }
  }

  ghost function PreimagesOf(s: seq<CecRecordSource>): (x: seq<Bytes>)
    ensures |x| == |s| && forall i :: 0 <= i < |s| ==> x[i] == s[i].sha256.preimage
  {
    seq(|s|, i requires 0 <= i < |s| => s[i].sha256.preimage)
  }

  lemma SortedPending(env: Environment, target: Bytes, a: seq<CecRecordSource>)
    requires ValidEnvironment(env) && |target| == CEC_SIZE && Collected(a)
    ensures PackedRecords(RecordSet(a))
    ensures var p := Pending(env, target, SortByHash(env, a));
      ListsRecords(env, p, Missing(env, RecordSet(a), target)) && |p| == |Missing(env, RecordSet(a), target)|
  {
    var s := SortByHash(env, a);
    var p, missing := Pending(env, target, s), Missing(env, RecordSet(a), target);
    SortRanked(env, a);
    PendingKeepsOrder(env, target, s);
    PendingIsMissing(env, target, a, s);
    var x := PreimagesOf(p);
    forall i, j | 0 <= i < j < |p| ensures x[i] != x[j] {
      assert env.rank(p[i].sha256) < env.rank(p[j].sha256);
    }
    forall r ensures r in x <==> r in missing {
      if r in missing {
        var i :| 0 <= i < |p| && p[i].sha256 == Sha256(r);
        assert x[i] == r;
      }
    }
    DistinctCount(x, missing);
  }

  /** Why there is no plan. */
  ghost predicate Refuses(env: Environment, records: set<Bytes>, target: Bytes, requested: Option<nat>, e: PlanError)
    requires PackedRecords(records)
  {
    var inRange := requested.Some? ==> requested.value < 50;
    match e
    case UnrecognizedContainer => !Recognized(target)
    case NoReceivedRecords => Recognized(target) && records == {}
    case SlotOutOfRange => Recognized(target) && records != {} && !inRange
    case NotEnoughEmptySlots =>
      Recognized(target) && records != {} && inRange
      && |Missing(env, records, target)| > |Eligible(target, requested)|
    case MessageUnreadable => false
  }

  lemma NoRecords(a: seq<CecRecordSource>)
    ensures RecordSet(a) == {} <==> |a| == 0
  {
    if |a| > 0 {
      assert a[0].record in RecordSet(a);
    }
  }

  /** The plan takes the first of the empty slots for what is pending. */
  ghost predicate TakesFirst(p: Result<CecConversion, PlanError>, pending: seq<CecRecordSource>, empty: seq<nat>,
                             target: Bytes)
  {
    && p.Ok? && |pending| <= |empty| && p.value.records == pending && p.value.slots == empty[..|pending|]
    && p.value.beforeSha256 == Sha256(target) && p.value.afterSha256 == Sha256(p.value.bytes)
  }

  lemma PlanRefusedEarly(env: Environment, a: seq<CecRecordSource>, target: Bytes, requested: Option<nat>)
    requires ValidEnvironment(env) && RecordSized(a)
    ensures var p := Plan(env, a, target, requested);
      && (!ValidCec(target) ==> p == Err(UnrecognizedContainer))
      && (ValidCec(target) && |a| == 0 ==> p == Err(NoReceivedRecords))
      && (ValidCec(target) && |a| > 0 && requested.Some? && requested.value >= 50 ==> p == Err(SlotOutOfRange))
  {
    SortKeepsSizes(env, a);
  }

  lemma PlanOutcome(env: Environment, a: seq<CecRecordSource>, target: Bytes, requested: Option<nat>)
    requires ValidEnvironment(env) && RecordSized(a) && ValidCec(target) && |a| > 0
    requires requested.Some? ==> requested.value < 50
    ensures var p := Plan(env, a, target, requested);
      var pending := Pending(env, target, SortByHash(env, a));
      var empty := EmptySlots(target, FirstSlot(requested), CEMU_RECORD_SLOT_COUNT);
      && (|pending| > |empty| ==> p == Err(NotEnoughEmptySlots))
      && (|pending| <= |empty| ==> TakesFirst(p, pending, empty, target))
  {
    SortKeepsSizes(env, a);
  }

  lemma PlanIfEnough(env: Environment, a: seq<CecRecordSource>, target: Bytes, requested: Option<nat>)
    requires ValidEnvironment(env) && Collected(a) && ValidCec(target) && |a| > 0
    requires requested.Some? ==> requested.value < 50
    ensures PackedRecords(RecordSet(a))
    ensures var p := Plan(env, a, target, requested);
      if |Missing(env, RecordSet(a), target)| > |Eligible(target, requested)|
      then p == Err(NotEnoughEmptySlots) else p.Ok?
  {
    CollectedIsPacked(a);
    PlanOutcome(env, a, target, requested);
    SortedPending(env, target, a);
    EligibleSlots(target, requested);
    BlankSlotCount(target, FirstSlot(requested));
  }

  /** There is no plan exactly when the container is not recognized, nothing was received, the requested slot is out of
      range, or more received records are missing from the container than eligible blank slots remain. */
  lemma PlanRefusals(env: Environment, a: seq<CecRecordSource>, target: Bytes, requested: Option<nat>, e: PlanError)
    requires ValidEnvironment(env) && Collected(a)
    ensures PackedRecords(RecordSet(a))
    ensures Plan(env, a, target, requested) == Err(e) <==> Refuses(env, RecordSet(a), target, requested, e)
  {
    CollectedIsPacked(a);
    NoRecords(a);
    RecognizedIsValid(target);
    PlanRefusedEarly(env, a, target, requested);
    if ValidCec(target) && |a| > 0 && (requested.Some? ==> requested.value < 50) {
      PlanIfEnough(env, a, target, requested);
    }
  }

  lemma TakeLowest(s: seq<nat>, n: nat, eligible: set<nat>)
    requires n <= |s| && (forall i, j :: 0 <= i < j < |s| ==> s[i] < s[j]) && forall x :: x in s <==> x in eligible
    ensures LowestOf(s[..n], eligible)
  {
    forall i, slot | 0 <= i < n && slot in eligible && slot < s[i] ensures slot in s[..n] {
      var k :| 0 <= k < |s| && s[k] == slot;
      assert k < i;
    }
  }

  lemma PlanFills(env: Environment, target: Bytes, missing: set<Bytes>, c: CecConversion, from: nat)
    requires ValidEnvironment(env) && |target| == CEC_SIZE
    requires FillsBlankSlotsOnly(c.bytes, c.records, c.slots, target, from)
    requires forall i :: 0 <= i < |c.records| ==> c.records[i].sha256.preimage in missing
    requires forall i :: 0 <= i < |c.records| ==> c.records[i].record == Correct(env, c.records[i].sha256.preimage)
    requires PackedRecords(missing)
    ensures Fills(env, target, c)
  {
    forall slot: nat, at | slot < 50 && slot !in c.slots && InSlot(slot, at) ensures c.bytes[at] == target[at] {
      SlotUnchanged(target, c.bytes, slot);
    }
    forall i | 0 <= i < |c.slots| ensures HoldsCards(env, c.bytes, c.slots[i], c.records[i].sha256.preimage) {
      SlotHoldsCards(env, c.bytes, c.slots[i], c.records[i].sha256.preimage);
    }
  }

  /** Every received record is in the planned container, card for card, or all its cards are corrected to zeros. */
  lemma EveryCardArrives(env: Environment, a: seq<CecRecordSource>, target: Bytes, requested: Option<nat>, r: Bytes)
    requires ValidEnvironment(env) && Collected(a) && Plan(env, a, target, requested).Ok? && r in RecordSet(a)
    ensures var b := Plan(env, a, target, requested).value.bytes;
      |r| == 0x2A00 && |b| == CEC_SIZE && (HeldSomewhere(env, b, r) || BlankCards(env, r))
  {
    var k :| 0 <= k < |a| && a[k].record == r;
    PlanKeepsEverythingElse(env, a, target, requested);
    BlankCardsCorrect(env, r);
    HeldIsPresent(env, Plan(env, a, target, requested).value.bytes, r);
    if !BlankCards(env, r) {
      PlanCompletes(env, a, target, requested, a[k]);
    }
  }

  lemma FirstSlotsAreLowest(target: Bytes, requested: Option<nat>, slots: seq<nat>, n: nat)
    requires |target| == CEC_SIZE
    requires var empty := EmptySlots(target, FirstSlot(requested), CEMU_RECORD_SLOT_COUNT);
      n <= |empty| && slots == empty[..n]
    ensures LowestOf(slots, Eligible(target, requested))
  {
    var empty := EmptySlots(target, FirstSlot(requested), CEMU_RECORD_SLOT_COUNT);
    EligibleSlots(target, requested);
    forall x ensures x in empty <==> x in Eligible(target, requested) {
    }
    TakeLowest(empty, n, Eligible(target, requested));
  }

  /** The slots of a plan. */
  lemma PlanSlots(env: Environment, a: seq<CecRecordSource>, target: Bytes, requested: Option<nat>)
    requires ValidEnvironment(env) && RecordSized(a) && Plan(env, a, target, requested).Ok?
    ensures var c := Plan(env, a, target, requested).value;
      |target| == CEC_SIZE && |c.slots| == |c.records| && LowestOf(c.slots, Eligible(target, requested))
      && c.records == Pending(env, target, SortByHash(env, a))
      && c.beforeSha256 == Sha256(target) && c.afterSha256 == Sha256(c.bytes)
  {
    PlanRefusedEarly(env, a, target, requested);
    PlanOutcome(env, a, target, requested);
    var c := Plan(env, a, target, requested).value;
    FirstSlotsAreLowest(target, requested, c.slots, |c.records|);
  }

  lemma PlanCards(env: Environment, a: seq<CecRecordSource>, target: Bytes, requested: Option<nat>)
    requires ValidEnvironment(env) && Collected(a) && Plan(env, a, target, requested).Ok?
    ensures |target| == CEC_SIZE && PackedRecords(RecordSet(a))
    ensures var c := Plan(env, a, target, requested).value;
      |c.bytes| == CEC_SIZE && |c.slots| == |c.records| && LowestOf(c.slots, Eligible(target, requested))
      && ListsRecords(env, c.records, Missing(env, RecordSet(a), target)) && Fills(env, target, c)
  {
    var c := Plan(env, a, target, requested).value;
    CollectedIsPacked(a);
    PlanSlots(env, a, target, requested);
    SortedPending(env, target, a);
    PendingIsMissing(env, target, a, SortByHash(env, a));
    PlanKeepsEverythingElse(env, a, target, requested);
    PlanFills(env, target, Missing(env, RecordSet(a), target), c, FirstSlot(requested));
  }

  lemma SortKeepsFingerprint(env: Environment, a: seq<CecRecordSource>)
    requires ValidEnvironment(env)
    ensures SourceRecordSetSha256(env, SortByHash(env, a)) == SourceRecordSetSha256(env, a)
  {
    var s := SortByHash(env, a);
    forall i | 0 <= i < |a| ensures a[i].sha256 in Hashes(s) {
      assert a[i] in s;
    }
    forall i | 0 <= i < |s| ensures s[i].sha256 in Hashes(a) {
      assert s[i] in a;
    }
    RecordSetFingerprint(env, s, a);
  }

  lemma PlanFingerprint(env: Environment, a: seq<CecRecordSource>, target: Bytes, requested: Option<nat>)
    requires ValidEnvironment(env) && RecordSized(a) && Plan(env, a, target, requested).Ok?
    ensures Plan(env, a, target, requested).value.sourceRecordSetSha256 == SourceRecordSetSha256(env, a)
  {
    SortKeepsSizes(env, a);
    SortKeepsFingerprint(env, a);
  }

  lemma CardsArrive(env: Environment, a: seq<CecRecordSource>, target: Bytes, requested: Option<nat>, c: CecConversion)
    requires ValidEnvironment(env) && Collected(a) && Plan(env, a, target, requested) == Ok(c)
    ensures |c.bytes| == CEC_SIZE && PackedRecords(RecordSet(a))
    ensures forall r :: r in RecordSet(a) ==> HeldSomewhere(env, c.bytes, r) || BlankCards(env, r)
  {
    CollectedIsPacked(a);
    PlanKeepsEverythingElse(env, a, target, requested);
    forall r | r in RecordSet(a) ensures HeldSomewhere(env, c.bytes, r) || BlankCards(env, r) {
      EveryCardArrives(env, a, target, requested, r);
    }
  }

  /** What a plan does, in bytes. */
  lemma PlanMeaning(env: Environment, a: seq<CecRecordSource>, target: Bytes, requested: Option<nat>, c: CecConversion)
    requires ValidEnvironment(env) && Collected(a) && Plan(env, a, target, requested) == Ok(c)
    ensures |target| == CEC_SIZE && PackedRecords(RecordSet(a)) && Planned(env, RecordSet(a), target, requested, c)
  {
    CollectedIsPacked(a);
    PlanSlots(env, a, target, requested);
    PlanCards(env, a, target, requested);
    CardsArrive(env, a, target, requested, c);
  }
}
