/** Planning a StreetPass (CEC) import: which received records go into which of the fifty fixed
    slots of the Cemu `cec` container. */
module CecPlan {
  import opened Base
  import opened Words
  import opened Profile
  import Canonical

  const MESSAGE_HEADER_SIZE: nat := 0x70
  const CEMU_CEC_PAYLOAD_SIZE: nat := 0x835FC
  const CEMU_RECORD_AREA_OFFSET: nat := 0x1FC
  const CEMU_RECORD_SLOT_SIZE: nat := 0x2A00
  const CEMU_RECORD_SLOT_COUNT: nat := 50
  const GUILD_CARD_SLOT_SIZE: nat := 0xE00
  const CEC_SOURCE_RECORD_PREFIX_SIZE: nat := 8
  const MH3G_TITLE_ID: bv32 := 0x00048100
  const MH3G_BODY_SIZE: nat := CEC_SOURCE_RECORD_PREFIX_SIZE + CEMU_RECORD_SLOT_SIZE
  const CEC_FILE_NAME: Bytes := [99, 101, 99]

  datatype PlanError =
    | MessageUnreadable
    | UnrecognizedContainer
    | NoReceivedRecords
    | SlotOutOfRange
    | NotEnoughEmptySlots

  /** One file of the inbox, as its directory listing yields it; `None` is a failed read. */
  datatype Message = Message(file: string, content: Option<Bytes>)

  datatype CecRecordSource = CecRecordSource(messageFile: string, record: Bytes, sha256: Digest)

  datatype CecConversion = CecConversion(
    bytes: Bytes,
    records: seq<CecRecordSource>,
    slots: seq<nat>,
    sourceRecordSetSha256: Digest,
    beforeSha256: Digest,
    afterSha256: Digest)

  /** What the planner is given and does not decide: the guild-card correction of one packed card,
      the hex spelling of a digest, and the position of that spelling in string order. */
  datatype Environment = Environment(card: Bytes -> Bytes, hex: Digest -> Bytes, rank: Digest -> nat)

  ghost predicate ValidEnvironment(env: Environment) {
    && (forall c: Bytes :: |c| == GUILD_CARD_SLOT_SIZE ==> |env.card(c)| == GUILD_CARD_SLOT_SIZE)
    && (forall d, e :: env.rank(d) == env.rank(e) ==> d == e)
    && (forall d, e :: env.hex(d) == env.hex(e) ==> d == e)
    && (forall d :: Canonical.NulFree(env.hex(d)))
  }

  // ---------------------------------------------------------------- received messages

  function U16At(b: Bytes, at: nat): Option<bv16> {
    if at + 2 <= |b| then Some(Word16(b[at], b[at + 1])) else None
  }

  function U32At(b: Bytes, at: nat): Option<bv32> {
    if at + 4 <= |b| then Some(LittleWord(b, at)) else None
  }

  /** A recorded size; a missing word counts as none. */
  function SizeAt(b: Bytes, at: nat): nat {
    if at + 4 <= |b| then LittleSize(b, at) else 0
  }

  /** A received MH3G card: magic, a recorded length that is the file's, a header that leaves room for the body, a body
      of exactly a prefix and a record, the game's title, and nothing in the reserved word. */
  predicate IsCardMessage(b: Bytes) {
    && |b| >= MESSAGE_HEADER_SIZE && U16At(b, 0) == Some(0x6060) && SizeAt(b, 4) == |b|
    && MESSAGE_HEADER_SIZE <= SizeAt(b, 8) && SizeAt(b, 8) + MH3G_BODY_SIZE <= |b| && SizeAt(b, 12) == MH3G_BODY_SIZE
    && U32At(b, 16) == Some(MH3G_TITLE_ID) && U32At(b, 20) == Some(0)
  }

  /** The last bytes of the body, behind the header and the prefix. */
  function CardRecord(b: Bytes): Bytes
    requires IsCardMessage(b)
  {
    var end := SizeAt(b, 8) + MH3G_BODY_SIZE;
    b[end - CEMU_RECORD_SLOT_SIZE..end]
  }

  /** Where the record of a well-formed MH3G card message starts. */
  function RecordOffset(b: Bytes): (r: Option<nat>)
    ensures r.Some? <==> IsCardMessage(b)
    ensures r.Some? ==> r.value + CEMU_RECORD_SLOT_SIZE == SizeAt(b, 8) + MH3G_BODY_SIZE
  {
    if |b| < MESSAGE_HEADER_SIZE || U16At(b, 0) != Some(0x6060) then None
    else
      var messageSize, headerSize, bodySize := SizeAt(b, 4), SizeAt(b, 8), SizeAt(b, 12);
      if messageSize != |b| || headerSize < MESSAGE_HEADER_SIZE || headerSize + bodySize > |b|
         || U32At(b, 20) != Some(0) then None
      else if U32At(b, 16) != Some(MH3G_TITLE_ID) || bodySize != MH3G_BODY_SIZE then None
      else Some(headerSize + CEC_SOURCE_RECORD_PREFIX_SIZE)
  }

  /** The record inside one received message, unless it is blank. */
  function ReadMh3gRecord(b: Bytes): (r: Option<Bytes>)
    ensures r.Some? <==> IsCardMessage(b) && !AllZero(CardRecord(b))
    ensures r.Some? ==> r.value == CardRecord(b) && |r.value| == CEMU_RECORD_SLOT_SIZE
  {
    match RecordOffset(b)
    case None => None
    case Some(start) =>
      var record := b[start..start + CEMU_RECORD_SLOT_SIZE];
      if AllZero(record) then None else Some(record)
  }

  function ReadMessage(m: Message): Option<Bytes> {
    if m.content.None? then None else ReadMh3gRecord(m.content.value)
  }

  /** The records a mailbox holds, whatever its files are called and in whatever order they come. */
  ghost function ReceivedSet(mailbox: seq<Message>): set<Bytes> {
    SomeValues(ReadMessage, mailbox)
  }

  ghost function RecordSet(records: seq<CecRecordSource>): set<Bytes> {
    set i | 0 <= i < |records| :: records[i].record
  }

  ghost function Hashes(records: seq<CecRecordSource>): set<Digest> {
    set i | 0 <= i < |records| :: records[i].sha256
  }

  /** Each record carries the digest of its own bytes, and no digest occurs twice. */
  ghost predicate Collected(records: seq<CecRecordSource>) {
    && (forall i :: 0 <= i < |records| ==>
          records[i].sha256 == Sha256(records[i].record) && |records[i].record| == CEMU_RECORD_SLOT_SIZE)
    && forall i, j :: 0 <= i < j < |records| ==> records[i].sha256 != records[j].sha256
  }

  lemma CollectOne(records: seq<CecRecordSource>, next: CecRecordSource)
    requires Collected(records) && next.sha256 == Sha256(next.record) && |next.record| == CEMU_RECORD_SLOT_SIZE
    ensures next.sha256 in Hashes(records) <==> next.record in RecordSet(records)
    ensures next.sha256 !in Hashes(records) ==> Collected(records + [next])
    ensures Hashes(records + [next]) == Hashes(records) + {next.sha256}
    ensures RecordSet(records + [next]) == RecordSet(records) + {next.record}
  {
    var all := records + [next];
    assert all[|records|] == next;
    forall i | 0 <= i < |records|
      ensures all[i] == records[i] && records[i].sha256 in Hashes(records) && records[i].record in RecordSet(records)
    {
    }
    forall x | x in Hashes(records) ensures x in Hashes(all) {
      var i :| 0 <= i < |records| && records[i].sha256 == x;
      assert all[i].sha256 == x;
    }
    forall x | x in RecordSet(records) ensures x in RecordSet(all) {
      var i :| 0 <= i < |records| && records[i].record == x;
      assert all[i].record == x;
    }
  }

  method KeepDistinct(before: seq<CecRecordSource>, hashes: set<Digest>, next: CecRecordSource)
    returns (records: seq<CecRecordSource>, seen: set<Digest>)
    requires Collected(before) && hashes == Hashes(before)
    requires next.sha256 == Sha256(next.record) && |next.record| == CEMU_RECORD_SLOT_SIZE
    ensures Collected(records) && seen == Hashes(records)
    ensures RecordSet(records) == RecordSet(before) + {next.record}
  {
    records, seen := before, hashes;
    CollectOne(records, next);
    if next.sha256 !in seen {
      seen := seen + {next.sha256};
      records := records + [next];
    }
  }

  /** Reads the inbox and keeps one source per distinct record. */
  method CollectReceivedMh3gRecords(mailbox: seq<Message>)
    returns (r: Result<seq<CecRecordSource>, PlanError>)
    ensures r.Err? <==> exists i :: 0 <= i < |mailbox| && mailbox[i].content.None?
    ensures r.Ok? ==> Collected(r.value) && RecordSet(r.value) == ReceivedSet(mailbox)
  {
    var records: seq<CecRecordSource> := [];
    var seen: set<Digest> := {};
    for k := 0 to |mailbox|
      invariant forall i :: 0 <= i < k ==> mailbox[i].content.Some?
      invariant Collected(records) && seen == Hashes(records)
      invariant RecordSet(records) == SomeValues(ReadMessage, mailbox[..k])
    {
      if mailbox[k].content.None? {
        return Err(MessageUnreadable);
      }
      SomeValuesSnoc(ReadMessage, mailbox, k);
      var record := ReadMessage(mailbox[k]);
      if record.Some? {
        var next := CecRecordSource(mailbox[k].file, record.value, Sha256(record.value));
        records, seen := KeepDistinct(records, seen, next);
      }
    }
    assert mailbox[..|mailbox|] == mailbox;
    return Ok(records);
  }

  // ---------------------------------------------------------------- the container

  const CEC_SIZE: nat := CEMU_HEADER_SIZE + CEMU_CEC_PAYLOAD_SIZE

  function RecordStart(slot: nat): nat {
    CEMU_HEADER_SIZE + CEMU_RECORD_AREA_OFFSET + slot * CEMU_RECORD_SLOT_SIZE
  }

  /** The byte range of a slot, or nothing past the last slot. */
  function CemuRecordRange(slot: nat): (r: Option<(nat, nat)>)
    ensures r.Some? <==> slot < CEMU_RECORD_SLOT_COUNT
    ensures r.Some? ==> CEMU_HEADER_SIZE + CEMU_RECORD_AREA_OFFSET <= r.value.0 < r.value.1 <= CEC_SIZE
  {
    if slot >= CEMU_RECORD_SLOT_COUNT then None
    else Some((RecordStart(slot), RecordStart(slot) + CEMU_RECORD_SLOT_SIZE))
  }

  /** The fifty slots fill the record area exactly: consecutive, disjoint, up to the last byte. */
  lemma RecordRangesTile(slot: nat, other: nat)
    requires slot < other < CEMU_RECORD_SLOT_COUNT
    ensures CemuRecordRange(slot).value.1 <= CemuRecordRange(other).value.0
    ensures CemuRecordRange(slot + 1).value.0 == CemuRecordRange(slot).value.1
    ensures CemuRecordRange(CEMU_RECORD_SLOT_COUNT - 1).value.1 == CEC_SIZE
  {
  }

  function SlotBytes(b: Bytes, slot: nat): (r: Bytes)
    requires |b| == CEC_SIZE && slot < CEMU_RECORD_SLOT_COUNT
    ensures |r| == CEMU_RECORD_SLOT_SIZE
  {
    b[RecordStart(slot)..RecordStart(slot) + CEMU_RECORD_SLOT_SIZE]
  }

  function CecHeader(): Bytes {
    BuildJpCemuHeader(CEC_FILE_NAME, CEMU_CEC_PAYLOAD_SIZE).value
  }

  predicate ValidCec(b: Bytes) {
    |b| == CEC_SIZE && b[..CEMU_HEADER_SIZE] == CecHeader()
  }

  function Zeros(n: nat): (b: Bytes)
    ensures |b| == n && AllZero(b)
  {
    seq(n, _ => 0)
  }

  function EmptyCec(): (b: Bytes)
    ensures ValidCec(b) && forall i :: CEMU_HEADER_SIZE <= i < |b| ==> b[i] == 0
    ensures forall slot :: 0 <= slot < CEMU_RECORD_SLOT_COUNT ==> AllZero(SlotBytes(b, slot))
  {
    CecHeader() + Zeros(CEMU_CEC_PAYLOAD_SIZE)
  }

  predicate Present(b: Bytes, record: Bytes) {
    |b| == CEC_SIZE && exists slot :: 0 <= slot < CEMU_RECORD_SLOT_COUNT && SlotBytes(b, slot) == record
  }

  // ---------------------------------------------------------------- the plan, as a function

  /** A packed record is three guild cards; each is corrected on its own. */
  function Correct(env: Environment, record: Bytes): Bytes {
    if |record| != CEMU_RECORD_SLOT_SIZE then record
    else
      env.card(record[..GUILD_CARD_SLOT_SIZE])
      + env.card(record[GUILD_CARD_SLOT_SIZE..2 * GUILD_CARD_SLOT_SIZE])
      + env.card(record[2 * GUILD_CARD_SLOT_SIZE..])
  }

  function Converted(env: Environment, r: CecRecordSource): CecRecordSource {
    r.(record := Correct(env, r.record))
  }

  /** The converted source, if the container does not hold its record yet. */
  function NeedsSlot(env: Environment, b: Bytes): CecRecordSource -> Option<CecRecordSource> {
    (r: CecRecordSource) => if Present(b, Correct(env, r.record)) then None else Some(Converted(env, r))
  }

  function InsertByHash(env: Environment, r: CecRecordSource, s: seq<CecRecordSource>): (t: seq<CecRecordSource>)
    ensures |t| == |s| + 1 && forall x :: x in t <==> x in s || x == r
  {
    if |s| == 0 || env.rank(r.sha256) <= env.rank(s[0].sha256) then [r] + s
    else
      assert s == [s[0]] + s[1..];
      [s[0]] + InsertByHash(env, r, s[1..])
  }

  function SortByHash(env: Environment, s: seq<CecRecordSource>): (t: seq<CecRecordSource>)
    ensures |t| == |s| && forall x :: x in t <==> x in s
  {
    if |s| == 0 then []
    else
      assert s == [s[0]] + s[1..];
      InsertByHash(env, s[0], SortByHash(env, s[1..]))
  }

  predicate RecordSized(records: seq<CecRecordSource>) {
    forall i :: 0 <= i < |records| ==> |records[i].record| == CEMU_RECORD_SLOT_SIZE
  }

  lemma SortKeepsSizes(env: Environment, s: seq<CecRecordSource>)
    requires RecordSized(s)
    ensures RecordSized(SortByHash(env, s))
  {
    var t := SortByHash(env, s);
    forall i | 0 <= i < |t| ensures |t[i].record| == CEMU_RECORD_SLOT_SIZE {
      assert t[i] in s;
    }
  }

  function InsertDigest(env: Environment, d: Digest, s: seq<Digest>): (t: seq<Digest>)
    ensures forall e :: e in t <==> e in s || e == d
  {
    if |s| == 0 || env.rank(d) < env.rank(s[0]) then [d] + s
    else if d == s[0] then s
    else
      assert s == [s[0]] + s[1..];
      [s[0]] + InsertDigest(env, d, s[1..])
  }

  /** The distinct digests of the sources, in string order: the set the fingerprint iterates. */
  function DigestTree(env: Environment, records: seq<CecRecordSource>): (t: seq<Digest>)
    ensures forall e :: e in t <==> exists i :: 0 <= i < |records| && records[i].sha256 == e
  {
    if |records| == 0 then [] else
      assert forall i :: 1 <= i < |records| ==> records[i] == records[1..][i - 1];
      InsertDigest(env, records[0].sha256, DigestTree(env, records[1..]))
  }

  function SpelledOut(env: Environment, tree: seq<Digest>): seq<Bytes> {
    seq(|tree|, i requires 0 <= i < |tree| => env.hex(tree[i]))
  }

  function RecordSetDomain(): Bytes {
    Canonical.AsciiBytes("mh3g-cec-source-record-set-v1") + [0]
  }

  function SourceRecordSetSha256(env: Environment, records: seq<CecRecordSource>): Digest {
    Sha256(RecordSetDomain() + Canonical.Concat(Canonical.Terminated, SpelledOut(env, DigestTree(env, records))))
  }

  /** The sources that still need a slot, in order. */
  function Pending(env: Environment, b: Bytes, records: seq<CecRecordSource>): seq<CecRecordSource> {
    FilterMap(NeedsSlot(env, b), records)
  }

  /** The blank slots among `from..upTo`, ascending. */
  function EmptySlots(b: Bytes, from: nat, upTo: nat): (s: seq<nat>)
    requires |b| == CEC_SIZE && upTo <= CEMU_RECORD_SLOT_COUNT
    ensures forall i :: 0 <= i < |s| ==> from <= s[i] < upTo && AllZero(SlotBytes(b, s[i]))
    ensures forall slot :: from <= slot < upTo && AllZero(SlotBytes(b, slot)) ==> slot in s
    ensures forall i, j :: 0 <= i < j < |s| ==> s[i] < s[j]
  {
    if upTo == 0 then []
    else
      var before := EmptySlots(b, from, upTo - 1);
      if from <= upTo - 1 && AllZero(SlotBytes(b, upTo - 1)) then
        var s := before + [upTo - 1];
        assert s[|before|] == upTo - 1 && forall i :: 0 <= i < |before| ==> s[i] == before[i];
        s
      else before
  }

  function Place(b: Bytes, records: seq<CecRecordSource>, slots: seq<nat>): (r: Bytes)
    requires |b| == CEC_SIZE && |records| <= |slots|
    requires forall i :: 0 <= i < |slots| ==> slots[i] < CEMU_RECORD_SLOT_COUNT
    requires forall i :: 0 <= i < |records| ==> |records[i].record| == CEMU_RECORD_SLOT_SIZE
    ensures |r| == CEC_SIZE
  {
    if |records| == 0 then b
    else
      var n := |records| - 1;
      Splice(Place(b, records[..n], slots), RecordStart(slots[n]), records[n].record)
  }

  function FirstSlot(requested: Option<nat>): nat {
    match requested case Some(slot) => slot case None => 0
  }

  lemma CorrectSized(env: Environment, record: Bytes)
    requires ValidEnvironment(env) && |record| == CEMU_RECORD_SLOT_SIZE
    ensures |Correct(env, record)| == CEMU_RECORD_SLOT_SIZE
  {
  }

  lemma PendingSized(env: Environment, b: Bytes, records: seq<CecRecordSource>)
    requires ValidEnvironment(env) && RecordSized(records)
    ensures RecordSized(Pending(env, b, records))
  {
    var p := Pending(env, b, records);
    FilterMapMembers(NeedsSlot(env, b), records);
    forall i | 0 <= i < |p| ensures |p[i].record| == CEMU_RECORD_SLOT_SIZE {
      assert p[i] in p;
      var k :| 0 <= k < |records| && NeedsSlot(env, b)(records[k]) == Some(p[i]);
      CorrectSized(env, records[k].record);
    }
  }

  /** The plan for sources already in digest order. */
  function PlanSorted(env: Environment, sorted: seq<CecRecordSource>, target: Bytes, requested: Option<nat>)
    : Result<CecConversion, PlanError>
    requires ValidEnvironment(env) && RecordSized(sorted) && |target| == CEC_SIZE
  {
    var pending := Pending(env, target, sorted);
    PendingSized(env, target, sorted);
    if requested.Some? && requested.value >= CEMU_RECORD_SLOT_COUNT then Err(SlotOutOfRange)
    else
      var empty := EmptySlots(target, FirstSlot(requested), CEMU_RECORD_SLOT_COUNT);
      if |pending| > |empty| then Err(NotEnoughEmptySlots)
      else
        var slots := empty[..|pending|];
        var bytes := Place(target, pending, slots);
        Ok(CecConversion(bytes, pending, slots, SourceRecordSetSha256(env, sorted), Sha256(target), Sha256(bytes)))
  }

  function Plan(env: Environment, records: seq<CecRecordSource>, target: Bytes, requested: Option<nat>)
    : Result<CecConversion, PlanError>
    requires ValidEnvironment(env) && RecordSized(records)
  {
    if !ValidCec(target) then Err(UnrecognizedContainer)
    else if |records| == 0 then Err(NoReceivedRecords)
    else
      SortKeepsSizes(env, records);
      PlanSorted(env, SortByHash(env, records), target, requested)
  }

  // ---------------------------------------------------------------- the planner

  method FindPending(env: Environment, output: Bytes, records: seq<CecRecordSource>)
    returns (pending: seq<CecRecordSource>)
    ensures pending == Pending(env, output, records)
  {
    pending := [];
    for i := 0 to |records|
      invariant pending == Pending(env, output, records[..i])
    {
      assert records[..i + 1][..i] == records[..i];
      var converted := Converted(env, records[i]);
      if !Present(output, converted.record) {
        pending := pending + [converted];
      }
    }
    assert records[..|records|] == records;
  }

  method FindEmptySlots(output: Bytes, from: nat) returns (empty: seq<nat>)
    requires |output| == CEC_SIZE
    ensures empty == EmptySlots(output, from, CEMU_RECORD_SLOT_COUNT)
  {
    empty := [];
    for slot := 0 to CEMU_RECORD_SLOT_COUNT
      invariant empty == EmptySlots(output, from, slot)
    {
      if AllZero(SlotBytes(output, slot)) && from <= slot {
        empty := empty + [slot];
      }
    }
  }

  method PlaceRecords(target: Bytes, pending: seq<CecRecordSource>, slots: seq<nat>) returns (output: Bytes)
    requires |target| == CEC_SIZE && |pending| <= |slots| && RecordSized(pending)
    requires forall i :: 0 <= i < |slots| ==> slots[i] < CEMU_RECORD_SLOT_COUNT
    ensures output == Place(target, pending, slots)
  {
    output := target;
    for i := 0 to |pending|
      invariant |output| == CEC_SIZE && output == Place(target, pending[..i], slots)
    {
      assert pending[..i + 1][..i] == pending[..i];
      output := Splice(output, RecordStart(slots[i]), pending[i].record);
    }
    assert pending[..|pending|] == pending;
  }

  method ConvertCollectedCecRecords(
      env: Environment, collected: seq<CecRecordSource>, target: Bytes, requested: Option<nat>)
    returns (r: Result<CecConversion, PlanError>)
    requires ValidEnvironment(env) && RecordSized(collected)
    ensures r == Plan(env, collected, target, requested)
  {
    if !ValidCec(target) {
      return Err(UnrecognizedContainer);
    }
    if |collected| == 0 {
      return Err(NoReceivedRecords);
    }
    var records := SortByHash(env, collected);
    SortKeepsSizes(env, collected);
    var pending := FindPending(env, target, records);
    PendingSized(env, target, records);
    if requested.Some? && requested.value >= CEMU_RECORD_SLOT_COUNT {
      return Err(SlotOutOfRange);
    }
    var emptySlots := FindEmptySlots(target, FirstSlot(requested));
    if |pending| > |emptySlots| {
      return Err(NotEnoughEmptySlots);
    }
    var slots := emptySlots[..|pending|];
    var output := PlaceRecords(target, pending, slots);
    return Ok(CecConversion(output, pending, slots, SourceRecordSetSha256(env, records), Sha256(target),
        Sha256(output)));
  }

  // ---------------------------------------------------------------- what the plan keeps and completes

  predicate SlotList(slots: seq<nat>) {
    && (forall i :: 0 <= i < |slots| ==> slots[i] < CEMU_RECORD_SLOT_COUNT)
    && forall i, j :: 0 <= i < j < |slots| ==> slots[i] < slots[j]
  }

  lemma SpliceSlot(b: Bytes, at: nat, record: Bytes, slot: nat)
    requires |b| == CEC_SIZE && |record| == CEMU_RECORD_SLOT_SIZE
    requires at < CEMU_RECORD_SLOT_COUNT && slot < CEMU_RECORD_SLOT_COUNT
    ensures SlotBytes(Splice(b, RecordStart(at), record), slot) == if slot == at then record else SlotBytes(b, slot)
  {
    SpliceRange(b, RecordStart(at), record, RecordStart(slot), RecordStart(slot) + CEMU_RECORD_SLOT_SIZE);
  }

  lemma SplicedSlots(b: Bytes, at: nat, record: Bytes)
    requires |b| == CEC_SIZE && |record| == CEMU_RECORD_SLOT_SIZE && at < CEMU_RECORD_SLOT_COUNT
    ensures var out := Splice(b, RecordStart(at), record);
      && out[..RecordStart(0)] == b[..RecordStart(0)] && SlotBytes(out, at) == record
      && forall slot :: 0 <= slot < CEMU_RECORD_SLOT_COUNT && slot != at ==> SlotBytes(out, slot) == SlotBytes(b, slot)
  {
    SpliceRange(b, RecordStart(at), record, 0, RecordStart(0));
    SpliceSlot(b, at, record, at);
    forall slot | 0 <= slot < CEMU_RECORD_SLOT_COUNT && slot != at
      ensures SlotBytes(Splice(b, RecordStart(at), record), slot) == SlotBytes(b, slot)
    {
      SpliceSlot(b, at, record, slot);
    }
  }

  /** `out` is `b` with each record in its slot. */
  predicate Placed(b: Bytes, records: seq<CecRecordSource>, slots: seq<nat>, out: Bytes)
    requires |b| == CEC_SIZE && |out| == CEC_SIZE && SlotList(slots) && |records| <= |slots|
  {
    && out[..RecordStart(0)] == b[..RecordStart(0)]
    && (forall i :: 0 <= i < |records| ==> SlotBytes(out, slots[i]) == records[i].record)
    && forall slot :: 0 <= slot < CEMU_RECORD_SLOT_COUNT && slot !in slots[..|records|]
        ==> SlotBytes(out, slot) == SlotBytes(b, slot)
  }

  lemma PlacedSnoc(b: Bytes, records: seq<CecRecordSource>, slots: seq<nat>, before: Bytes, out: Bytes)
    requires |b| == CEC_SIZE && |before| == CEC_SIZE && |out| == CEC_SIZE && SlotList(slots) && 0 < |records| <= |slots|
    requires Placed(b, records[..|records| - 1], slots, before)
    requires var n := |records| - 1;
      && out[..RecordStart(0)] == before[..RecordStart(0)] && SlotBytes(out, slots[n]) == records[n].record
      && forall slot :: 0 <= slot < CEMU_RECORD_SLOT_COUNT && slot != slots[n] ==>
        SlotBytes(out, slot) == SlotBytes(before, slot)
    ensures Placed(b, records, slots, out)
  {
    var n := |records| - 1;
    assert slots[..|records|] == slots[..n] + [slots[n]];
  }

  /** Placing changes the listed slots only, and each of those to its own record. */
  lemma {:induction false} PlaceWrites(b: Bytes, records: seq<CecRecordSource>, slots: seq<nat>)
    requires |b| == CEC_SIZE && RecordSized(records)
    requires SlotList(slots) && |records| <= |slots|
    ensures Placed(b, records, slots, Place(b, records, slots))
  {
    if |records| == 0 {
    } else {
      var n := |records| - 1;
      var before := Place(b, records[..n], slots);
      PlaceWrites(b, records[..n], slots);
      SplicedSlots(before, slots[n], records[n].record);
      PlacedSnoc(b, records, slots, before, Place(b, records, slots));
    }
  }
}
