/** The byte fields a compatibility repair may rewrite, component by component. */
module RepairFields {
  import opened Base
  import opened Profile

  datatype FieldSpec = FieldSpec(offset: nat, width: nat)

  const HUNTER_LIFE_DIARY_RECORD_STRIDE: nat := 0xA0
  const HUNTER_LIFE_DIARY_COUNT: nat := 10
  const HUNTER_LIFE_DIARY_U16_OFFSETS: seq<nat> := [0x02, 0x04, 0x06]
  const HUNTER_LIFE_DIARY_U32_OFFSETS: seq<nat> := [0x0C, 0x10, 0x14, 0x18, 0x1C, 0x20]
  const USER_HUNTER_LIFE_DIARY_START: nat := 0x7B6C
  const USER_MONSTER_GUIDE_PACKED_STATE_START: nat := 0x5760
  const USER_MONSTER_GUIDE_PACKED_STATE_LEN: nat := 0x1C
  const USER_MONSTER_SLAY_COUNT_START: nat := 0x5784
  const USER_MONSTER_CAPTURE_COUNT_START: nat := 0x5884
  const USER_MONSTER_COUNT_STRIDE: nat := 2
  const SLAY_COUNT_IDS: seq<nat> := [26, 27, 28, 84]
  const CAPTURE_COUNT_IDS: seq<nat> :=
    [21, 22, 23, 26, 27, 28, 29, 30, 31, 32, 33, 76, 77, 78, 79, 80, 81, 82, 83, 84]
  const USER_ITEM_ACQUIRED_BITSET_START: nat := 0x65C4
  const USER_ITEM_ACQUIRED_BITSET_WORD_COUNT: nat := 48
  const USER_APPEARANCE_START: nat := 0x73B8
  const APPEARANCE_OFFSETS: seq<nat> := [0x00, 0x04, 0x10, 0x18, 0x20]
  const USER_ARENA_RECORD_START: nat := 0x83A8
  const ARENA_RECORD_COUNT: nat := 110
  const ARENA_RECORD_STRIDE: nat := 4
  const USER_MONSTER_LOG_START: nat := 0x81B4
  const MONSTER_LOG_COUNT: nat := 50
  const MONSTER_LOG_STRIDE: nat := 10
  const MONSTER_LOG_STATE: nat := 8
  const SHAKALAKA_RECORD_START: nat := 0x6F44
  const SHAKALAKA_RECORD_STRIDE: nat := 0x148
  const SHAKALAKA_U32_PREFIX_SIZE: nat := 0x04
  const SHAKALAKA_MASK_STATE_START: nat := 0xDE
  const SHAKALAKA_MASK_STATE_END: nat := 0x140
  const GUILD_CARD_SLOT_SIZE: nat := 0xE00
  const GUILD_CARD_SLOT_COUNT: nat := 0x62
  const GUILD_CARD_HUNTER_LIFE_DIARY_START: nat := 0x178
  const GUILD_CARD_ARENA_RECORD_START: nat := 0x9B4
  const GUILD_CARD_MONSTER_LOG_START: nat := 0x7C0

  // ---------------------------------------------------------------- placement

  predicate Within(fields: seq<FieldSpec>, lo: nat, hi: nat) {
    forall i :: 0 <= i < |fields| ==> lo <= fields[i].offset && fields[i].offset + fields[i].width <= hi
  }

  predicate Apart(f: FieldSpec, g: FieldSpec) {
    f.offset + f.width <= g.offset || g.offset + g.width <= f.offset
  }

  predicate PairwiseApart(fields: seq<FieldSpec>) {
    forall i, j :: 0 <= i < j < |fields| ==> Apart(fields[i], fields[j])
  }

  lemma AppendApart(a: seq<FieldSpec>, alo: nat, ahi: nat, b: seq<FieldSpec>, blo: nat, bhi: nat)
    requires PairwiseApart(a) && Within(a, alo, ahi) && PairwiseApart(b) && Within(b, blo, bhi)
    requires ahi <= blo || bhi <= alo
    ensures PairwiseApart(a + b)
  {
    forall i, j | 0 <= i < j < |a + b| ensures Apart((a + b)[i], (a + b)[j]) {
      if i < |a| <= j {
        assert (a + b)[i] == a[i] && (a + b)[j] == b[j - |a|];
      }
    }
  }

  /** A half-open byte range. */
  datatype Region = Region(lo: nat, hi: nat)

  predicate RegionsApart(regions: seq<Region>) {
    forall i, j :: 0 <= i < j < |regions| ==> regions[i].hi <= regions[j].lo || regions[j].hi <= regions[i].lo
  }

  function Flatten(groups: seq<seq<FieldSpec>>): seq<FieldSpec> {
    if |groups| == 0 then [] else Flatten(groups[..|groups| - 1]) + groups[|groups| - 1]
  }

  lemma AppendPointwise(a: seq<FieldSpec>, b: seq<FieldSpec>)
    requires PairwiseApart(a) && PairwiseApart(b)
    requires forall i, j :: 0 <= i < |a| && 0 <= j < |b| ==> Apart(a[i], b[j])
    ensures PairwiseApart(a + b)
  {
  }

  /** Groups that are in order inside and lie in separate regions are in order together. */
  lemma {:induction false} FlattenApart(groups: seq<seq<FieldSpec>>, regions: seq<Region>)
    requires |groups| == |regions| && RegionsApart(regions)
    requires forall k :: 0 <= k < |groups| ==>
      PairwiseApart(groups[k]) && Within(groups[k], regions[k].lo, regions[k].hi)
    ensures PairwiseApart(Flatten(groups))
    ensures forall f :: f in Flatten(groups) ==> exists k :: 0 <= k < |groups| && f in groups[k]
  {
    if |groups| == 0 {
    } else {
      var n := |groups| - 1;
      var before := Flatten(groups[..n]);
      FlattenApart(groups[..n], regions[..n]);
      assert forall f :: f in before ==> exists k :: 0 <= k < n && f in groups[k] by {
        forall f | f in before ensures exists k :: 0 <= k < n && f in groups[k] {
          var k :| 0 <= k < |groups[..n]| && f in groups[..n][k];
          assert f in groups[k];
        }
      }
      forall i, j | 0 <= i < |before| && 0 <= j < |groups[n]| ensures Apart(before[i], groups[n][j]) {
        assert before[i] in before;
        var k :| 0 <= k < n && before[i] in groups[k];
        var x :| 0 <= x < |groups[k]| && groups[k][x] == before[i];
      }
      AppendPointwise(before, groups[n]);
    }
  }

  lemma FlattenSnoc(groups: seq<seq<FieldSpec>>, g: seq<FieldSpec>)
    ensures Flatten(groups + [g]) == Flatten(groups) + g
  {
    assert (groups + [g])[..|groups|] == groups;
  }

  // ---------------------------------------------------------------- the groups

  /** Fields of one width at the given distances from `start`. */
  function Relatives(start: nat, relatives: seq<nat>, width: nat): (r: seq<FieldSpec>)
    ensures |r| == |relatives| && forall i :: 0 <= i < |r| ==> r[i] == FieldSpec(start + relatives[i], width)
  {
    seq(|relatives|, i requires 0 <= i < |relatives| => FieldSpec(start + relatives[i], width))
  }

  /** The two-byte counters of the given monsters. */
  function Counters(start: nat, ids: seq<nat>): (r: seq<FieldSpec>)
    ensures |r| == |ids|
    ensures forall i :: 0 <= i < |r| ==>
      r[i] == FieldSpec(start + ids[i] * USER_MONSTER_COUNT_STRIDE, USER_MONSTER_COUNT_STRIDE)
  {
    seq(|ids|, i requires 0 <= i < |ids| => FieldSpec(start + ids[i] * USER_MONSTER_COUNT_STRIDE,
        USER_MONSTER_COUNT_STRIDE))
  }

  /** `count` fields of one width, `stride` apart. */
  function Run(start: nat, stride: nat, width: nat, count: nat): (r: seq<FieldSpec>)
    ensures |r| == count && forall i :: 0 <= i < count ==> r[i] == FieldSpec(start + i * stride, width)
  {
    seq(count, i requires 0 <= i < count => FieldSpec(start + i * stride, width))
  }

  lemma Monotone(a: nat, b: nat, k: nat)
    requires a <= b
    ensures a * k <= b * k
  {
  }

  lemma Spaced(i: nat, j: nat, stride: nat, width: nat)
    requires i < j && width <= stride
    ensures i * stride + width <= j * stride
  {
    Monotone(i + 1, j, stride);
    assert (i + 1) * stride == i * stride + stride;
  }

  lemma RunApart(start: nat, stride: nat, width: nat, count: nat)
    requires width <= stride && count > 0
    ensures PairwiseApart(Run(start, stride, width, count))
    ensures Within(Run(start, stride, width, count), start, start + (count - 1) * stride + width)
  {
    var r := Run(start, stride, width, count);
    forall i, j | 0 <= i < j < count ensures Apart(r[i], r[j]) {
      Spaced(i, j, stride, width);
    }
    forall i | 0 <= i < count
      ensures start <= r[i].offset && r[i].offset + width <= start + (count - 1) * stride + width
    {
      Monotone(i, count - 1, stride);
    }
  }

  function DiaryRecord(start: nat): seq<FieldSpec> {
    Relatives(start, HUNTER_LIFE_DIARY_U16_OFFSETS, 2) + Relatives(start, HUNTER_LIFE_DIARY_U32_OFFSETS, 4)
  }

  function DiaryRecords(start: nat, count: nat): seq<seq<FieldSpec>> {
    seq(count, record requires 0 <= record < count => DiaryRecord(start + record * HUNTER_LIFE_DIARY_RECORD_STRIDE))
  }

  function Diary(start: nat): seq<FieldSpec> {
    Flatten(DiaryRecords(start, HUNTER_LIFE_DIARY_COUNT))
  }

  function Companion(start: nat): seq<FieldSpec> {
    [FieldSpec(start, SHAKALAKA_U32_PREFIX_SIZE)]
    + Run(start + SHAKALAKA_U32_PREFIX_SIZE, 2, 2, (SHAKALAKA_MASK_STATE_START - SHAKALAKA_U32_PREFIX_SIZE) / 2)
    + Run(start + SHAKALAKA_MASK_STATE_START, 2, 2, (SHAKALAKA_MASK_STATE_END - SHAKALAKA_MASK_STATE_START) / 2)
  }

  function Companions(start: nat): seq<FieldSpec> {
    Companion(start) + Companion(start + SHAKALAKA_RECORD_STRIDE)
  }

  /** The groups of a character slot, in the order in which they are listed. */
  function UserGroups(): seq<seq<FieldSpec>> {
    var h := CEMU_HEADER_SIZE;
    [ Diary(h + USER_HUNTER_LIFE_DIARY_START),
      Run(h + USER_MONSTER_GUIDE_PACKED_STATE_START, 1, 1, USER_MONSTER_GUIDE_PACKED_STATE_LEN),
      Counters(h + USER_MONSTER_SLAY_COUNT_START, SLAY_COUNT_IDS),
      Counters(h + USER_MONSTER_CAPTURE_COUNT_START, CAPTURE_COUNT_IDS),
      Run(h + USER_ITEM_ACQUIRED_BITSET_START, 4, 4, USER_ITEM_ACQUIRED_BITSET_WORD_COUNT),
      Relatives(h + USER_APPEARANCE_START, APPEARANCE_OFFSETS, 4),
      Run(h + USER_ARENA_RECORD_START, ARENA_RECORD_STRIDE, 4, ARENA_RECORD_COUNT),
      Run(h + USER_MONSTER_LOG_START + MONSTER_LOG_STATE, MONSTER_LOG_STRIDE, 1, MONSTER_LOG_COUNT),
      Companions(h + SHAKALAKA_RECORD_START) ]
  }

  function UserRegions(): seq<Region> {
    var h := CEMU_HEADER_SIZE;
    [ Region(h + 0x7B6C, h + 0x81AC), Region(h + 0x5760, h + 0x577C), Region(h + 0x5784, h + 0x582E),
      Region(h + 0x5884, h + 0x592E), Region(h + 0x65C4, h + 0x6684), Region(h + 0x73B8, h + 0x73DC),
      Region(h + 0x83A8, h + 0x8560), Region(h + 0x81BC, h + 0x83A7), Region(h + 0x6F44, h + 0x71D4) ]
  }

  function CardSlotGroups(start: nat): seq<seq<FieldSpec>> {
    [ Diary(start + GUILD_CARD_HUNTER_LIFE_DIARY_START),
      Run(start + GUILD_CARD_ARENA_RECORD_START, ARENA_RECORD_STRIDE, 4, ARENA_RECORD_COUNT),
      Run(start + GUILD_CARD_MONSTER_LOG_START + MONSTER_LOG_STATE, MONSTER_LOG_STRIDE, 1, MONSTER_LOG_COUNT) ]
  }

  function CardSlots(count: nat): seq<seq<FieldSpec>> {
    seq(count, slot requires 0 <= slot < count => Flatten(CardSlotGroups(CEMU_HEADER_SIZE
      + slot * GUILD_CARD_SLOT_SIZE)))
  }

  /** The repair fields of a component; nothing is repaired in `cardbox` and the quest files. */
  function FieldsOf(c: Component): seq<FieldSpec> {
    if IsUserSlot(c) then Flatten(UserGroups())
    else if IsCard(c) then Flatten(CardSlots(GUILD_CARD_SLOT_COUNT))
    else []
  }

  // ---------------------------------------------------------------- the fields are in bounds and apart

  lemma DiaryRecordApart(start: nat)
    ensures PairwiseApart(DiaryRecord(start))
      && Within(DiaryRecord(start), start, start + HUNTER_LIFE_DIARY_RECORD_STRIDE)
  {
  }

  lemma InRegion(fields: seq<FieldSpec>, region: Region, f: FieldSpec)
    requires Within(fields, region.lo, region.hi) && f in fields
    ensures region.lo <= f.offset && f.offset + f.width <= region.hi
  {
  }

  /** Groups of which each starts after the one before has ended. */
  lemma StackedApart(groups: seq<seq<FieldSpec>>, starts: seq<nat>, size: nat, lo: nat, hi: nat)
    requires |starts| == |groups|
    requires forall k :: 0 <= k < |groups| ==>
      PairwiseApart(groups[k]) && Within(groups[k], starts[k], starts[k] + size) && lo <= starts[k]
        && starts[k] + size <= hi
    requires forall i, j :: 0 <= i < j < |starts| ==> starts[i] + size <= starts[j]
    ensures PairwiseApart(Flatten(groups)) && Within(Flatten(groups), lo, hi)
  {
    var n := |groups|;
    var regions := seq(n, k requires 0 <= k < n => Region(starts[k], starts[k] + size));
    FlattenApart(groups, regions);
    var all := Flatten(groups);
    forall i | 0 <= i < |all| ensures lo <= all[i].offset && all[i].offset + all[i].width <= hi {
      assert all[i] in all;
      var k :| 0 <= k < n && all[i] in groups[k];
      InRegion(groups[k], regions[k], all[i]);
    }
  }

  lemma DiaryApart(start: nat)
    ensures PairwiseApart(Diary(start))
    ensures Within(Diary(start), start, start + HUNTER_LIFE_DIARY_COUNT * HUNTER_LIFE_DIARY_RECORD_STRIDE)
  {
    var records := DiaryRecords(start, HUNTER_LIFE_DIARY_COUNT);
    var starts := seq(HUNTER_LIFE_DIARY_COUNT, k => start + k * HUNTER_LIFE_DIARY_RECORD_STRIDE);
    forall k | 0 <= k < |records|
      ensures PairwiseApart(records[k]) && Within(records[k], starts[k], starts[k] + HUNTER_LIFE_DIARY_RECORD_STRIDE)
    {
      DiaryRecordApart(starts[k]);
    }
    StackedApart(records, starts, HUNTER_LIFE_DIARY_RECORD_STRIDE, start,
        start + HUNTER_LIFE_DIARY_COUNT * HUNTER_LIFE_DIARY_RECORD_STRIDE);
  }

  lemma CompanionApart(start: nat)
    ensures PairwiseApart(Companion(start)) && Within(Companion(start), start, start + SHAKALAKA_MASK_STATE_END)
  {
    var prefix := [FieldSpec(start, SHAKALAKA_U32_PREFIX_SIZE)];
    var scalars := Run(start + SHAKALAKA_U32_PREFIX_SIZE, 2, 2, 109);
    var masks := Run(start + SHAKALAKA_MASK_STATE_START, 2, 2, 49);
    RunApart(start + SHAKALAKA_U32_PREFIX_SIZE, 2, 2, 109);
    RunApart(start + SHAKALAKA_MASK_STATE_START, 2, 2, 49);
    AppendApart(prefix, start, start + 4, scalars, start + 4, start + 0xDE);
    AppendApart(prefix + scalars, start, start + 0xDE, masks, start + 0xDE, start + 0x140);
  }

  lemma CompanionsApart(start: nat)
    ensures PairwiseApart(Companions(start)) && Within(Companions(start), start, start + 2 * SHAKALAKA_RECORD_STRIDE)
  {
    CompanionApart(start);
    CompanionApart(start + SHAKALAKA_RECORD_STRIDE);
    AppendApart(Companion(start), start, start + 0x140,
                Companion(start + SHAKALAKA_RECORD_STRIDE), start + SHAKALAKA_RECORD_STRIDE,
                    start + SHAKALAKA_RECORD_STRIDE + 0x140);
  }

  lemma CountersApart(start: nat, ids: seq<nat>, last: nat)
    requires forall i, j :: 0 <= i < j < |ids| ==> ids[i] < ids[j]
    requires forall i :: 0 <= i < |ids| ==> ids[i] <= last
    ensures PairwiseApart(Counters(start, ids))
    ensures Within(Counters(start, ids), start, start + last * USER_MONSTER_COUNT_STRIDE + USER_MONSTER_COUNT_STRIDE)
  {
  }

  lemma LogApart(start: nat)
    ensures var log := Run(start + MONSTER_LOG_STATE, MONSTER_LOG_STRIDE, 1, MONSTER_LOG_COUNT);
      PairwiseApart(log) && Within(log, start, start + MONSTER_LOG_COUNT * MONSTER_LOG_STRIDE)
  {
    RunApart(start + MONSTER_LOG_STATE, MONSTER_LOG_STRIDE, 1, MONSTER_LOG_COUNT);
  }

  lemma UserGroupHeadApart(k: nat)
    requires k < 5
    ensures PairwiseApart(UserGroups()[k]) && Within(UserGroups()[k], UserRegions()[k].lo, UserRegions()[k].hi)
  {
    var h := CEMU_HEADER_SIZE;
    if k == 0 { DiaryApart(h + USER_HUNTER_LIFE_DIARY_START); }
    else if k == 1 { RunApart(h + USER_MONSTER_GUIDE_PACKED_STATE_START, 1, 1, USER_MONSTER_GUIDE_PACKED_STATE_LEN); }
    else if k == 2 { CountersApart(h + USER_MONSTER_SLAY_COUNT_START, SLAY_COUNT_IDS, 84); }
    else if k == 3 { CountersApart(h + USER_MONSTER_CAPTURE_COUNT_START, CAPTURE_COUNT_IDS, 84); }
    else { RunApart(h + USER_ITEM_ACQUIRED_BITSET_START, 4, 4, USER_ITEM_ACQUIRED_BITSET_WORD_COUNT); }
  }

  lemma UserGroupTailApart(k: nat)
    requires 5 <= k < |UserGroups()|
    ensures PairwiseApart(UserGroups()[k]) && Within(UserGroups()[k], UserRegions()[k].lo, UserRegions()[k].hi)
  {
    var h := CEMU_HEADER_SIZE;
    if k == 6 { RunApart(h + USER_ARENA_RECORD_START, ARENA_RECORD_STRIDE, 4, ARENA_RECORD_COUNT); }
    else if k == 7 { LogApart(h + USER_MONSTER_LOG_START); }
    else if k == 8 { CompanionsApart(h + SHAKALAKA_RECORD_START); }
  }

  lemma UserGroupApart(k: nat)
    requires k < |UserGroups()|
    ensures PairwiseApart(UserGroups()[k]) && Within(UserGroups()[k], UserRegions()[k].lo, UserRegions()[k].hi)
  {
    if k < 5 {
      UserGroupHeadApart(k);
    } else {
      UserGroupTailApart(k);
    }
  }

  lemma UserRegionsApart()
    ensures RegionsApart(UserRegions()) && |UserGroups()| == |UserRegions()|
  {
  }

  lemma CardSlotApart(start: nat)
    ensures PairwiseApart(Flatten(CardSlotGroups(start)))
    ensures Within(Flatten(CardSlotGroups(start)), start, start + GUILD_CARD_SLOT_SIZE)
  {
    var groups := CardSlotGroups(start);
    var regions :=
      [Region(start + 0x178, start + 0x7B8), Region(start + 0x9B4, start + 0xB6C),
      Region(start + 0x7C8, start + 0x9B3)];
    DiaryApart(start + GUILD_CARD_HUNTER_LIFE_DIARY_START);
    RunApart(start + GUILD_CARD_ARENA_RECORD_START, ARENA_RECORD_STRIDE, 4, ARENA_RECORD_COUNT);
    RunApart(start + GUILD_CARD_MONSTER_LOG_START + MONSTER_LOG_STATE, MONSTER_LOG_STRIDE, 1, MONSTER_LOG_COUNT);
    FlattenApart(groups, regions);
    var all := Flatten(groups);
    forall i | 0 <= i < |all|
      ensures start <= all[i].offset && all[i].offset + all[i].width <= start + GUILD_CARD_SLOT_SIZE
    {
      assert all[i] in all;
      var k :| 0 <= k < |groups| && all[i] in groups[k];
      var x :| 0 <= x < |groups[k]| && groups[k][x] == all[i];
    }
  }

  /** The size of a Wii U component, header included. */
  function ComponentSize(c: Component): nat {
    if IsUserSlot(c) then CEMU_SIZE
    else match ExternalPayloadSize(c) case Some(size) => CEMU_HEADER_SIZE + size case None => 0
  }

  lemma CardFieldsApart()
    ensures var fields := Flatten(CardSlots(GUILD_CARD_SLOT_COUNT));
      PairwiseApart(fields) && Within(fields, CEMU_HEADER_SIZE, CEMU_HEADER_SIZE + CARD_PAYLOAD_SIZE)
  {
    var slots := CardSlots(GUILD_CARD_SLOT_COUNT);
    var starts := seq(GUILD_CARD_SLOT_COUNT, k => CEMU_HEADER_SIZE + k * GUILD_CARD_SLOT_SIZE);
    forall k | 0 <= k < |slots|
      ensures PairwiseApart(slots[k]) && Within(slots[k], starts[k], starts[k] + GUILD_CARD_SLOT_SIZE)
    {
      CardSlotApart(starts[k]);
    }
    StackedApart(slots, starts, GUILD_CARD_SLOT_SIZE, CEMU_HEADER_SIZE, CEMU_HEADER_SIZE + CARD_PAYLOAD_SIZE);
  }

  lemma UserRegionInBounds(k: nat)
    requires k < |UserRegions()|
    ensures CEMU_HEADER_SIZE <= UserRegions()[k].lo && UserRegions()[k].hi <= CEMU_SIZE
  {
  }

  /** Every repair field lies between the header and the end of its component, and no two overlap,
      in a character slot and across all 98 card slots. */
  lemma FieldsAreApartAndInBounds(c: Component)
    ensures PairwiseApart(FieldsOf(c)) && Within(FieldsOf(c), CEMU_HEADER_SIZE, ComponentSize(c))
  {
    if IsUserSlot(c) {
      UserRegionsApart();
      forall k | 0 <= k < |UserGroups()|
        ensures PairwiseApart(UserGroups()[k]) && Within(UserGroups()[k], UserRegions()[k].lo, UserRegions()[k].hi)
      {
        UserGroupApart(k);
      }
      FlattenApart(UserGroups(), UserRegions());
      var all := Flatten(UserGroups());
      forall i | 0 <= i < |all| ensures CEMU_HEADER_SIZE <= all[i].offset && all[i].offset + all[i].width <= CEMU_SIZE {
        assert all[i] in all;
        var k :| 0 <= k < |UserGroups()| && all[i] in UserGroups()[k];
        InRegion(UserGroups()[k], UserRegions()[k], all[i]);
        UserRegionInBounds(k);
      }
    } else if IsCard(c) {
      CardFieldsApart();
    }
  }

  // ---------------------------------------------------------------- listing the fields

  method PushRelatives(
      before: seq<FieldSpec>, start: nat, relatives: seq<nat>, width: nat)
    returns (fields: seq<FieldSpec>)
    ensures fields == before + Relatives(start, relatives, width)
  {
    fields := before;
    for i := 0 to |relatives|
      invariant fields == before + Relatives(start, relatives, width)[..i]
    {
      fields := fields + [FieldSpec(start + relatives[i], width)];
    }
  }

  method PushCounters(before: seq<FieldSpec>, start: nat, ids: seq<nat>) returns (fields: seq<FieldSpec>)
    ensures fields == before + Counters(start, ids)
  {
    fields := before;
    for i := 0 to |ids|
      invariant fields == before + Counters(start, ids)[..i]
    {
      fields := fields + [FieldSpec(start + ids[i] * USER_MONSTER_COUNT_STRIDE, USER_MONSTER_COUNT_STRIDE)];
    }
  }

  method PushRun(
      before: seq<FieldSpec>, start: nat, stride: nat, width: nat, count: nat)
    returns (fields: seq<FieldSpec>)
    ensures fields == before + Run(start, stride, width, count)
  {
    fields := before;
    for i := 0 to count
      invariant fields == before + Run(start, stride, width, count)[..i]
    {
      fields := fields + [FieldSpec(start + i * stride, width)];
    }
  }

  method PushDiary(before: seq<FieldSpec>, start: nat) returns (fields: seq<FieldSpec>)
    ensures fields == before + Diary(start)
  {
    fields := before;
    ghost var records := DiaryRecords(start, HUNTER_LIFE_DIARY_COUNT);
    for record := 0 to HUNTER_LIFE_DIARY_COUNT
      invariant fields == before + Flatten(records[..record])
    {
      var at := start + record * HUNTER_LIFE_DIARY_RECORD_STRIDE;
      fields := PushRelatives(fields, at, HUNTER_LIFE_DIARY_U16_OFFSETS, 2);
      fields := PushRelatives(fields, at, HUNTER_LIFE_DIARY_U32_OFFSETS, 4);
      FlattenSnoc(records[..record], records[record]);
      assert records[..record + 1] == records[..record] + [records[record]];
    }
    assert records[..HUNTER_LIFE_DIARY_COUNT] == records;
  }

  method PushCompanion(before: seq<FieldSpec>, start: nat) returns (fields: seq<FieldSpec>)
    ensures fields == before + Companion(start)
  {
    fields := before + [FieldSpec(start, SHAKALAKA_U32_PREFIX_SIZE)];
    fields := PushRun(fields, start + SHAKALAKA_U32_PREFIX_SIZE, 2, 2,
        (SHAKALAKA_MASK_STATE_START - SHAKALAKA_U32_PREFIX_SIZE) / 2);
    fields := PushRun(fields, start + SHAKALAKA_MASK_STATE_START, 2, 2,
        (SHAKALAKA_MASK_STATE_END - SHAKALAKA_MASK_STATE_START) / 2);
  }

  lemma Listed(groups: seq<seq<FieldSpec>>, k: nat)
    requires k < |groups|
    ensures Flatten(groups[..k + 1]) == Flatten(groups[..k]) + groups[k]
    ensures Flatten(groups[..0]) == []
  {
    FlattenSnoc(groups[..k], groups[k]);
    assert groups[..k + 1] == groups[..k] + [groups[k]];
  }

  /** The first five groups of a character slot, then the other four. */
  method UserFieldsHead() returns (fields: seq<FieldSpec>)
    ensures fields == Flatten(UserGroups()[..5])
  {
    var h := CEMU_HEADER_SIZE;
    ghost var groups := UserGroups();
    fields := PushDiary([], h + USER_HUNTER_LIFE_DIARY_START);
    Listed(groups, 0);
    fields := PushRun(fields, h + USER_MONSTER_GUIDE_PACKED_STATE_START, 1, 1, USER_MONSTER_GUIDE_PACKED_STATE_LEN);
    Listed(groups, 1);
    fields := PushCounters(fields, h + USER_MONSTER_SLAY_COUNT_START, SLAY_COUNT_IDS);
    Listed(groups, 2);
    fields := PushCounters(fields, h + USER_MONSTER_CAPTURE_COUNT_START, CAPTURE_COUNT_IDS);
    Listed(groups, 3);
    fields := PushRun(fields, h + USER_ITEM_ACQUIRED_BITSET_START, 4, 4, USER_ITEM_ACQUIRED_BITSET_WORD_COUNT);
    Listed(groups, 4);
  }

  method UserFields() returns (fields: seq<FieldSpec>)
    ensures fields == Flatten(UserGroups())
  {
    var h := CEMU_HEADER_SIZE;
    ghost var groups := UserGroups();
    fields := UserFieldsHead();
    fields := PushRelatives(fields, h + USER_APPEARANCE_START, APPEARANCE_OFFSETS, 4);
    Listed(groups, 5);
    fields := PushRun(fields, h + USER_ARENA_RECORD_START, ARENA_RECORD_STRIDE, 4, ARENA_RECORD_COUNT);
    Listed(groups, 6);
    fields := PushRun(fields, h + USER_MONSTER_LOG_START + MONSTER_LOG_STATE, MONSTER_LOG_STRIDE, 1, MONSTER_LOG_COUNT);
    Listed(groups, 7);
    fields := PushCompanion(fields, h + SHAKALAKA_RECORD_START);
    fields := PushCompanion(fields, h + SHAKALAKA_RECORD_START + SHAKALAKA_RECORD_STRIDE);
    Listed(groups, 8);
    assert groups[..9] == groups;
  }

  method PushCard(before: seq<FieldSpec>, start: nat) returns (fields: seq<FieldSpec>)
    ensures fields == before + Flatten(CardSlotGroups(start))
  {
    ghost var groups := CardSlotGroups(start);
    fields := PushDiary(before, start + GUILD_CARD_HUNTER_LIFE_DIARY_START);
    fields := PushRun(fields, start + GUILD_CARD_ARENA_RECORD_START, ARENA_RECORD_STRIDE, 4, ARENA_RECORD_COUNT);
    fields := PushRun(fields, start + GUILD_CARD_MONSTER_LOG_START + MONSTER_LOG_STATE, MONSTER_LOG_STRIDE, 1,
        MONSTER_LOG_COUNT);
    Listed(groups, 0);
    Listed(groups, 1);
    Listed(groups, 2);
    assert groups[..3] == groups;
  }

  method CardFields() returns (fields: seq<FieldSpec>)
    ensures fields == Flatten(CardSlots(GUILD_CARD_SLOT_COUNT))
  {
    fields := [];
    ghost var slots := CardSlots(GUILD_CARD_SLOT_COUNT);
    for slot := 0 to GUILD_CARD_SLOT_COUNT
      invariant fields == Flatten(slots[..slot])
    {
      fields := PushCard(fields, CEMU_HEADER_SIZE + slot * GUILD_CARD_SLOT_SIZE);
      Listed(slots, slot);
    }
    assert slots[..GUILD_CARD_SLOT_COUNT] == slots;
  }

  /** Lists the fields with the nested loops over records, slots and lanes; nothing for another file. */
  method RepairFields(c: Component) returns (fields: Option<seq<FieldSpec>>)
    ensures fields == if c.OtherFile? then None else Some(FieldsOf(c))
  {
    if c.OtherFile? {
      return None;
    }
    if IsUserSlot(c) {
      var listed := UserFields();
      return Some(listed);
    }
    if IsCard(c) {
      var listed := CardFields();
      return Some(listed);
    }
    return Some([]);
  }
}
