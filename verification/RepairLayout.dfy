/** Which bytes a compatibility repair may rewrite, as arithmetic on their position: the layout the listed
    fields have to have, stated without the groups that list them. */
module RepairLayout {
  import opened Base
  import opened Profile
  import opened RepairFields
  import Merge

  // ---------------------------------------------------------------- the layout

  /** Width of the field at distance `d` behind the start of a diary of ten records; 0 where there is none. */
  function DiaryWidth(d: int): nat {
    if d < 0 || d >= 1600 then 0
    else if 2 <= d % 160 < 8 then 2
    else if 12 <= d % 160 < 36 then 4
    else 0
  }

  /** Width of the field at distance `d` behind the start of a companion record. */
  function CompanionWidth(d: int): nat {
    if 0 <= d < 4 then 4 else if 4 <= d < 0x140 then 2 else 0
  }

  predicate SlayCountDiffers(id: int) { id in {26, 27, 28, 84} }

  predicate CaptureCountDiffers(id: int) {
    21 <= id <= 23 || 26 <= id <= 33 || 76 <= id <= 84
  }

  /** Width of the field at distance `d` behind the start of one of the 98 guild cards. */
  function CardWidth(d: int): nat {
    if DiaryWidth(d - 0x178) > 0 then DiaryWidth(d - 0x178)
    else if 0x9B4 <= d < 0xB6C then 4
    else if 0x7C0 <= d < 0x9B4 && (d - 0x7C0) % 10 == 8 then 1
    else 0
  }

  /** Width of the field at payload byte `d` of a character slot. */
  function UserWidth(d: int): nat {
    if 0x5760 <= d < 0x577C then 1
    else if 0x5784 <= d < 0x5884 then if SlayCountDiffers((d - 0x5784) / 2) then 2 else 0
    else if 0x5884 <= d < 0x5984 then if CaptureCountDiffers((d - 0x5884) / 2) then 2 else 0
    else if 0x65C4 <= d < 0x6684 then 4
    else if 0x6F44 <= d < 0x708C then CompanionWidth(d - 0x6F44)
    else if 0x708C <= d < 0x71D4 then CompanionWidth(d - 0x708C)
    else if 0x73B8 <= d < 0x73C0 || 0x73C8 <= d < 0x73CC || 0x73D0 <= d < 0x73D4 || 0x73D8 <= d < 0x73DC then 4
    else if 0x7B6C <= d < 0x81AC then DiaryWidth(d - 0x7B6C)
    else if 0x81B4 <= d < 0x83A8 then if (d - 0x81B4) % 10 == 8 then 1 else 0
    else if 0x83A8 <= d < 0x8560 then 4
    else 0
  }

  /** Width of the repair field that covers byte `i` of a component; 0 if none does. */
  function WidthAt(c: Component, i: nat): nat {
    if i < 40 then 0
    else if c in {User1, User2, User3} then UserWidth(i - 40)
    else if c in {Card1, Card2, Card3} && (i - 40) / 0xE00 < 98 then CardWidth((i - 40) % 0xE00)
    else 0
  }

  predicate Aligned(at: nat, width: nat) {
    width == 1 || (width == 2 && at % 2 == 0) || (width == 4 && at % 4 == 0)
  }

  /** `f` is the field the layout has at its offset: every field is aligned to its own width. */
  predicate Laid(width: nat, f: FieldSpec) {
    f.width == width && Aligned(f.offset, width)
  }

  // ---------------------------------------------------------------- the groups have the layout

  lemma MultipleOf(i: nat, k: nat)
    requires k in {1, 2, 4, 10}
    ensures i * k % k == 0 && i * k / k == i
  {
    if k == 1 {
      assert i * 1 % 1 == 0 && i * 1 / 1 == i;
    } else if k == 2 {
      assert i * 2 % 2 == 0 && i * 2 / 2 == i;
    } else if k == 4 {
      assert i * 4 % 4 == 0 && i * 4 / 4 == i;
    } else {
      assert i * 10 % 10 == 0 && i * 10 / 10 == i;
    }
  }

  lemma RunMember(start: nat, stride: nat, width: nat, count: nat, f: FieldSpec)
    requires stride in {1, 2, 4, 10}
    ensures f in Run(start, stride, width, count) <==>
      f.width == width && start <= f.offset && (f.offset - start) % stride == 0 && (f.offset - start) / stride < count
  {
    var run := Run(start, stride, width, count);
    if f in run {
      var i :| 0 <= i < |run| && run[i] == f;
      MultipleOf(i, stride);
    }
    if f.width == width && start <= f.offset && (f.offset - start) % stride == 0
      && (f.offset - start) / stride < count {
      var i := (f.offset - start) / stride;
      assert i * stride == f.offset - start;
      assert run[i] == f;
    }
  }

  lemma RelativesMember(start: nat, relatives: seq<nat>, width: nat, f: FieldSpec)
    ensures f in Relatives(start, relatives, width) <==>
      f.width == width && start <= f.offset && f.offset - start in relatives
  {
    var all := Relatives(start, relatives, width);
    if f in all {
      var i :| 0 <= i < |all| && all[i] == f;
      assert relatives[i] in relatives;
    }
    if f.width == width && start <= f.offset && f.offset - start in relatives {
      var i :| 0 <= i < |relatives| && relatives[i] == f.offset - start;
      assert all[i] == f;
    }
  }

  lemma CountersMember(start: nat, ids: seq<nat>, f: FieldSpec)
    ensures f in Counters(start, ids) <==>
      f.width == 2 && start <= f.offset && (f.offset - start) % 2 == 0 && (f.offset - start) / 2 in ids
  {
    var all := Counters(start, ids);
    if f in all {
      var i :| 0 <= i < |all| && all[i] == f;
      assert ids[i] in ids;
    }
    if f.width == 2 && start <= f.offset && (f.offset - start) % 2 == 0 && (f.offset - start) / 2 in ids {
      var i :| 0 <= i < |ids| && ids[i] == (f.offset - start) / 2;
      assert all[i] == f;
    }
  }

  lemma {:induction false} FlattenMember(groups: seq<seq<FieldSpec>>, f: FieldSpec)
    ensures f in Flatten(groups) <==> exists k :: 0 <= k < |groups| && f in groups[k]
  {
    if |groups| == 0 {
    } else {
      var n := |groups| - 1;
      FlattenMember(groups[..n], f);
      if k :| 0 <= k < |groups| && f in groups[k] {
        assert k < n ==> f in groups[..n][k];
      }
      if k :| 0 <= k < n && f in groups[..n][k] {
        assert f in groups[k];
      }
    }
  }

  lemma {:induction false} FlattenLength(groups: seq<seq<FieldSpec>>, size: nat)
    requires forall k :: 0 <= k < |groups| ==> |groups[k]| == size
    ensures |Flatten(groups)| == |groups| * size
  {
    if |groups| == 0 {
    } else {
      var n := |groups| - 1;
      FlattenLength(groups[..n], size);
      assert (n + 1) * size == n * size + size;
    }
  }

  lemma AlignedBehind(start: nat, d: nat, width: nat)
    requires start % 4 == 0
    ensures Aligned(start + d, width) <==> Aligned(d, width)
  {
  }

  /** The distances listed for a diary record are those the layout has fields at. */
  lemma DiaryOffsets(d: nat)
    requires d < 160
    ensures d in HUNTER_LIFE_DIARY_U16_OFFSETS <==> DiaryWidth(d) == 2 && Aligned(d, 2)
    ensures d in HUNTER_LIFE_DIARY_U32_OFFSETS <==> DiaryWidth(d) == 4 && Aligned(d, 4)
    ensures DiaryWidth(d) in {0, 2, 4}
  {
  }

  lemma DiaryFieldAt(start: nat, d: nat, f: FieldSpec)
    requires start % 4 == 0 && d < 160 && f.offset == start + d
    ensures (f.width == 2 && d in HUNTER_LIFE_DIARY_U16_OFFSETS) || (f.width == 4 && d in HUNTER_LIFE_DIARY_U32_OFFSETS)
      <==> Laid(DiaryWidth(d), f)
  {
    AlignedBehind(start, d, f.width);
    DiaryOffsets(d);
  }

  /** One record of a diary, `d` the distance of the field from its start. */
  lemma DiaryRecordMember(start: nat, f: FieldSpec)
    requires start % 4 == 0
    ensures |DiaryRecord(start)| == 9
    ensures f in DiaryRecord(start) <==>
      start <= f.offset < start + 160 && Laid(DiaryWidth(f.offset - start), f)
  {
    var u16s, u32s := HUNTER_LIFE_DIARY_U16_OFFSETS, HUNTER_LIFE_DIARY_U32_OFFSETS;
    RelativesMember(start, u16s, 2, f);
    RelativesMember(start, u32s, 4, f);
    assert f in DiaryRecord(start) <==> f in Relatives(start, u16s, 2) || f in Relatives(start, u32s, 4);
    assert forall d :: d in u16s || d in u32s ==> d < 160;
    if start <= f.offset < start + 160 {
      DiaryFieldAt(start, f.offset - start, f);
    }
  }

  lemma DiaryPeriod(k: nat, d: nat)
    requires k < 10 && d < 160
    ensures DiaryWidth(k * 160 + d) == DiaryWidth(d) && (k * 160 + d) / 160 == k
  {
  }

  lemma DiaryRecordsMember(start: nat, k: nat, f: FieldSpec)
    requires start % 4 == 0 && k < 10
    ensures |DiaryRecord(start + k * 160)| == 9
    ensures f in DiaryRecord(start + k * 160) <==>
      start + k * 160 <= f.offset < start + k * 160 + 160 && Laid(DiaryWidth(f.offset - start), f)
  {
    DiaryRecordMember(start + k * 160, f);
    if start + k * 160 <= f.offset < start + k * 160 + 160 {
      DiaryPeriod(k, f.offset - start - k * 160);
    }
  }

  lemma DiaryMember(start: nat, f: FieldSpec)
    requires start % 4 == 0
    ensures |Diary(start)| == 90
    ensures f in Diary(start) <==> start <= f.offset && Laid(DiaryWidth(f.offset - start), f)
  {
    var records := DiaryRecords(start, HUNTER_LIFE_DIARY_COUNT);
    FlattenMember(records, f);
    forall k | 0 <= k < 10
      ensures |records[k]| == 9
      ensures f in records[k] <==>
        start + k * 160 <= f.offset < start + k * 160 + 160 && Laid(DiaryWidth(f.offset - start), f)
    {
      DiaryRecordsMember(start, k, f);
    }
    FlattenLength(records, 9);
    if start <= f.offset < start + 1600 {
      assert f in records[(f.offset - start) / 160] <==> Laid(DiaryWidth(f.offset - start), f);
    }
  }

  lemma Run2Behind(start: nat, first: nat, count: nat, f: FieldSpec)
    requires start % 4 == 0 && first % 2 == 0
    ensures f in Run(start + first, 2, 2, count) <==>
      f.width == 2 && start + first <= f.offset < start + first + 2 * count && f.offset % 2 == 0
  {
    RunMember(start + first, 2, 2, count, f);
  }

  lemma Run4Behind(start: nat, first: nat, count: nat, f: FieldSpec)
    requires start % 4 == 0 && first % 4 == 0
    ensures f in Run(start + first, 4, 4, count) <==>
      f.width == 4 && start + first <= f.offset < start + first + 4 * count && f.offset % 4 == 0
  {
    RunMember(start + first, 4, 4, count, f);
  }

  /** The layout of a companion record, spelled out. */
  lemma CompanionShape(start: nat, f: FieldSpec)
    requires start % 4 == 0
    ensures start <= f.offset && Laid(CompanionWidth(f.offset - start), f) <==>
      (f.offset == start && f.width == 4)
      || (start + 4 <= f.offset < start + 0x140 && f.width == 2 && f.offset % 2 == 0)
  {
    if start <= f.offset < start + 4 {
      assert f.offset % 4 == 0 <==> f.offset == start;
    }
  }

  lemma CompanionRuns(start: nat, f: FieldSpec)
    requires start % 4 == 0
    ensures f in Run(start + 4, 2, 2, 109) || f in Run(start + 0xDE, 2, 2, 49) <==>
      start + 4 <= f.offset < start + 0x140 && f.width == 2 && f.offset % 2 == 0
  {
    Run2Behind(start, 4, 109, f);
    Run2Behind(start, 0xDE, 49, f);
  }

  lemma CompanionMember(start: nat, f: FieldSpec)
    requires start % 4 == 0
    ensures |Companion(start)| == 159
    ensures f in Companion(start) <==> start <= f.offset && Laid(CompanionWidth(f.offset - start), f)
  {
    CompanionRuns(start, f);
    CompanionShape(start, f);
    assert f in Companion(start) <==>
      f == FieldSpec(start, 4) || f in Run(start + 4, 2, 2, 109) || f in Run(start + 0xDE, 2, 2, 49);
  }

  lemma LogMember(start: nat, f: FieldSpec)
    ensures f in Run(start + 0x7C8, 10, 1, 50) <==>
      start + 0x7C8 <= f.offset < start + 0x7C8 + 500 && (f.offset - start - 0x7C8) % 10 == 0 && Laid(1, f)
  {
    RunMember(start + 0x7C8, 10, 1, 50, f);
  }

  /** The three groups of one guild card, which starts at `start`. */
  lemma CardGroupMembers(start: nat, f: FieldSpec)
    requires start % 4 == 0
    ensures f in CardSlotGroups(start)[0] <==>
      start + 0x178 <= f.offset && Laid(DiaryWidth(f.offset - start - 0x178), f)
    ensures f in CardSlotGroups(start)[1] <==> start + 0x9B4 <= f.offset < start + 0xB6C && Laid(4, f)
    ensures f in CardSlotGroups(start)[2] <==>
      start + 0x7C8 <= f.offset < start + 0x7C8 + 500 && (f.offset - start - 0x7C8) % 10 == 0 && Laid(1, f)
  {
    DiaryMember(start + 0x178, f);
    Run4Behind(start, 0x9B4, 110, f);
    LogMember(start, f);
  }

  lemma FlattenThree(groups: seq<seq<FieldSpec>>)
    requires |groups| == 3
    ensures |Flatten(groups)| == |groups[0]| + |groups[1]| + |groups[2]|
  {
    assert groups[..2][..1] == groups[..1] && groups[..1][..0] == [];
    assert |Flatten(groups[..1])| == |groups[0]|;
    assert |Flatten(groups[..2])| == |groups[0]| + |groups[1]|;
  }

  lemma CardSlotMember(start: nat, f: FieldSpec)
    requires start % 4 == 0
    ensures |Flatten(CardSlotGroups(start))| == 250
    ensures f in Flatten(CardSlotGroups(start)) <==>
      start <= f.offset < start + 0xE00 && Laid(CardWidth(f.offset - start), f)
  {
    var groups := CardSlotGroups(start);
    FlattenMember(groups, f);
    CardGroupMembers(start, f);
    DiaryMember(start + 0x178, f);
    assert f in Flatten(groups) <==> f in groups[0] || f in groups[1] || f in groups[2];
    FlattenThree(groups);
  }

  lemma CardSplit(k: nat, d: nat)
    requires d < 0xE00
    ensures (k * 0xE00 + d) / 0xE00 == k && (k * 0xE00 + d) % 0xE00 == d
  {
  }

  lemma CardAt(k: nat, f: FieldSpec)
    requires k < 98
    ensures |CardSlots(98)[k]| == 250
    ensures f in CardSlots(98)[k] <==>
      40 <= f.offset && (f.offset - 40) / 0xE00 == k && Laid(CardWidth((f.offset - 40) % 0xE00), f)
  {
    CardSlotMember(40 + k * 0xE00, f);
    if 40 + k * 0xE00 <= f.offset < 40 + k * 0xE00 + 0xE00 {
      CardSplit(k, f.offset - 40 - k * 0xE00);
    }
  }

  lemma CardFieldsLaid(f: FieldSpec)
    ensures |Flatten(CardSlots(98))| == 24500
    ensures f in Flatten(CardSlots(98)) <==>
      40 <= f.offset && (f.offset - 40) / 0xE00 < 98 && Laid(CardWidth((f.offset - 40) % 0xE00), f)
  {
    var slots := CardSlots(98);
    FlattenMember(slots, f);
    forall k | 0 <= k < 98 ensures |slots[k]| == 250 {
      CardAt(k, f);
    }
    FlattenLength(slots, 250);
    if 40 <= f.offset && (f.offset - 40) / 0xE00 < 98 {
      CardAt((f.offset - 40) / 0xE00, f);
    }
    if k :| 0 <= k < 98 && f in slots[k] {
      CardAt(k, f);
    }
  }

  /** The part of the character-slot layout that group `k` lists, `d` the payload byte a field starts at. */
  function UserGroupWidth(k: nat, d: int): nat {
    if k == 0 then if 0x7B6C <= d < 0x81AC then UserWidth(d) else 0
    else if k == 1 then if 0x5760 <= d < 0x577C then UserWidth(d) else 0
    else if k == 2 then if 0x5784 <= d < 0x5884 then UserWidth(d) else 0
    else if k == 3 then if 0x5884 <= d < 0x5984 then UserWidth(d) else 0
    else if k == 4 then if 0x65C4 <= d < 0x6684 then UserWidth(d) else 0
    else if k == 5 then if 0x73B8 <= d < 0x73DC then UserWidth(d) else 0
    else if k == 6 then if 0x83A8 <= d < 0x8560 then UserWidth(d) else 0
    else if k == 7 then if 0x81B4 <= d < 0x83A8 then UserWidth(d) else 0
    else if 0x6F44 <= d < 0x71D4 then UserWidth(d)
    else 0
  }

  predicate InUserGroup(k: nat, f: FieldSpec) {
    40 <= f.offset && Laid(UserGroupWidth(k, f.offset - 40), f)
  }

  lemma CounterGroupsLaid(f: FieldSpec)
    ensures f in UserGroups()[2] <==> InUserGroup(2, f)
    ensures f in UserGroups()[3] <==> InUserGroup(3, f)
  {
    CountersMember(40 + 0x5784, SLAY_COUNT_IDS, f);
    CountersMember(40 + 0x5884, CAPTURE_COUNT_IDS, f);
  }

  lemma RunGroupsLaid(f: FieldSpec)
    ensures f in UserGroups()[1] <==> InUserGroup(1, f)
    ensures f in UserGroups()[4] <==> InUserGroup(4, f)
    ensures f in UserGroups()[6] <==> InUserGroup(6, f)
  {
    RunMember(40 + 0x5760, 1, 1, 0x1C, f);
    RunMember(40 + 0x65C4, 4, 4, 48, f);
    RunMember(40 + 0x83A8, 4, 4, 110, f);
  }

  lemma LogAndAppearanceLaid(f: FieldSpec)
    ensures f in UserGroups()[5] <==> InUserGroup(5, f)
    ensures f in UserGroups()[7] <==> InUserGroup(7, f)
  {
    RelativesMember(40 + 0x73B8, APPEARANCE_OFFSETS, 4, f);
    RunMember(40 + 0x81BC, 10, 1, 50, f);
  }

  lemma DiaryAndCompanionsLaid(f: FieldSpec)
    ensures f in UserGroups()[0] <==> InUserGroup(0, f)
    ensures f in UserGroups()[8] <==> InUserGroup(8, f)
    ensures |UserGroups()[0]| == 90 && |UserGroups()[8]| == 318
  {
    DiaryMember(40 + 0x7B6C, f);
    CompanionMember(40 + 0x6F44, f);
    CompanionMember(40 + 0x708C, f);
  }

  /** The groups share the layout out among them. */
  lemma GroupsShareLayout(d: int, width: nat)
    requires width > 0
    ensures UserWidth(d) == width <==> exists k :: 0 <= k < 9 && UserGroupWidth(k, d) == width
  {
    assert UserGroupWidth(0, d) == width || UserGroupWidth(1, d) == width || UserGroupWidth(2, d) == width
      || UserGroupWidth(3, d) == width || UserGroupWidth(4, d) == width || UserGroupWidth(5, d) == width
      || UserGroupWidth(6, d) == width || UserGroupWidth(7, d) == width || UserGroupWidth(8, d) == width
      <==> UserWidth(d) == width;
  }

  lemma UserGroupLaid(k: nat, f: FieldSpec)
    requires k < 9
    ensures f in UserGroups()[k] <==> InUserGroup(k, f)
  {
    CounterGroupsLaid(f);
    RunGroupsLaid(f);
    LogAndAppearanceLaid(f);
    DiaryAndCompanionsLaid(f);
  }

  lemma UserGroupSizes()
    ensures |UserGroups()| == 9 && |UserGroups()[0]| == 90 && |UserGroups()[1]| == 28 && |UserGroups()[2]| == 4
    ensures |UserGroups()[3]| == 20 && |UserGroups()[4]| == 48 && |UserGroups()[5]| == 5
    ensures |UserGroups()[6]| == 110 && |UserGroups()[7]| == 50 && |UserGroups()[8]| == 318
  {
    DiaryAndCompanionsLaid(FieldSpec(0, 0));
  }

  lemma FlattenNine(g: seq<seq<FieldSpec>>)
    requires |g| == 9
    ensures |Flatten(g)| ==
      |g[0]| + |g[1]| + |g[2]| + |g[3]| + |g[4]| + |g[5]| + |g[6]| + |g[7]| + |g[8]|
  {
    FlattenThree(g[..3]);
    forall i | 3 <= i < 9 ensures |Flatten(g[..i + 1])| == |Flatten(g[..i])| + |g[i]| {
      assert g[..i + 1][..i] == g[..i];
    }
    assert g[..9] == g;
  }

  lemma UserFieldsLaid(f: FieldSpec)
    ensures |Flatten(UserGroups())| == 673
    ensures f in Flatten(UserGroups()) <==> 40 <= f.offset && Laid(UserWidth(f.offset - 40), f)
  {
    var groups := UserGroups();
    UserGroupSizes();
    FlattenNine(groups);
    FlattenMember(groups, f);
    forall k | 0 <= k < 9 ensures f in groups[k] <==> InUserGroup(k, f) {
      UserGroupLaid(k, f);
    }
    if f.width > 0 {
      GroupsShareLayout(f.offset - 40, f.width);
    }
  }

  // ---------------------------------------------------------------- the listed fields have the layout

  lemma UserLayout(c: Component, f: FieldSpec)
    requires c in {User1, User2, User3}
    ensures f in FieldsOf(c) <==> Laid(WidthAt(c, f.offset), f)
    ensures |FieldsOf(c)| == 673
  {
    UserFieldsLaid(f);
    assert FieldsOf(c) == Flatten(UserGroups());
  }

  lemma CardLayout(c: Component, f: FieldSpec)
    requires c in {Card1, Card2, Card3}
    ensures f in FieldsOf(c) <==> Laid(WidthAt(c, f.offset), f)
    ensures |FieldsOf(c)| == 24500
  {
    CardFieldsLaid(f);
    assert FieldsOf(c) == Flatten(CardSlots(GUILD_CARD_SLOT_COUNT));
  }

  /** The listed fields are exactly those of the layout, 673 in a character slot and 24500 in a guild-card file. */
  lemma FieldsHaveLayout(c: Component, f: FieldSpec)
    ensures f in FieldsOf(c) <==> Laid(WidthAt(c, f.offset), f)
    ensures |FieldsOf(c)| == if c in {User1, User2, User3} then 673 else if c in {Card1, Card2, Card3} then 24500 else 0
  {
    if c in {User1, User2, User3} {
      UserLayout(c, f);
    } else if c in {Card1, Card2, Card3} {
      CardLayout(c, f);
    }
  }

  // ---------------------------------------------------------------- byte by byte

  /** A width holds all over an aligned cell, or nowhere in it: four bytes from `4 * q`, two from `2 * q`. */
  lemma DiaryCell(q: int, j: nat)
    ensures j < 4 ==> (DiaryWidth(4 * q) == 4 <==> DiaryWidth(4 * q + j) == 4)
    ensures j < 2 ==> (DiaryWidth(2 * q) == 2 <==> DiaryWidth(2 * q + j) == 2)
  {
    if j < 4 && 0 <= 4 * q < 1600 {
      DiaryPeriod(q / 40, q % 40 * 4);
      DiaryPeriod(q / 40, q % 40 * 4 + j);
      assert 4 * q == q / 40 * 160 + q % 40 * 4;
    }
    if j < 2 && 0 <= 2 * q < 1600 {
      DiaryPeriod(q / 80, q % 80 * 2);
      DiaryPeriod(q / 80, q % 80 * 2 + j);
      assert 2 * q == q / 80 * 160 + q % 80 * 2;
    }
  }

  lemma CompanionCell(q: int, j: nat)
    ensures j < 4 ==> (CompanionWidth(4 * q) == 4 <==> CompanionWidth(4 * q + j) == 4)
    ensures j < 2 ==> (CompanionWidth(2 * q) == 2 <==> CompanionWidth(2 * q + j) == 2)
  {
  }

  lemma CardCell4(q: int, j: nat)
    ensures j < 4 ==> (CardWidth(4 * q) == 4 <==> CardWidth(4 * q + j) == 4)
  {
    DiaryCell(q - 0x5E, j);
  }

  lemma CardCell2(q: int, j: nat)
    ensures j < 2 ==> (CardWidth(2 * q) == 2 <==> CardWidth(2 * q + j) == 2)
  {
    DiaryCell(q - 0xBC, j);
  }

  lemma UserCell4(q: int, j: nat)
    ensures j < 4 ==> (UserWidth(4 * q) == 4 <==> UserWidth(4 * q + j) == 4)
  {
    DiaryCell(q - 0x1EDB, j);
    CompanionCell(q - 0x1BD1, j);
    CompanionCell(q - 0x1C23, j);
  }

  lemma UserCell2(q: int, j: nat)
    ensures j < 2 ==> (UserWidth(2 * q) == 2 <==> UserWidth(2 * q + j) == 2)
  {
    DiaryCell(q - 0x3DB6, j);
    CompanionCell(q - 0x37A2, j);
    CompanionCell(q - 0x3846, j);
    if j < 2 {
      assert (2 * q + j - 0x5784) / 2 == q - 0x2BC2 && (2 * q + j - 0x5884) / 2 == q - 0x2C42;
    }
  }

  lemma UserCell(q: int, j: nat)
    ensures j < 4 ==> (UserWidth(4 * q) == 4 <==> UserWidth(4 * q + j) == 4)
    ensures j < 2 ==> (UserWidth(2 * q) == 2 <==> UserWidth(2 * q + j) == 2)
  {
    UserCell4(q, j);
    UserCell2(q, j);
  }

  lemma CardFileCell4(c: Component, k: nat, d: nat, j: nat)
    requires c in {Card1, Card2, Card3} && d < 0x380 && j < 4
    ensures WidthAt(c, 40 + (k * 0xE00 + 4 * d)) == 4 <==> WidthAt(c, 40 + (k * 0xE00 + (4 * d + j))) == 4
  {
    CardSplit(k, 4 * d);
    CardSplit(k, 4 * d + j);
    CardCell4(d, j);
  }

  lemma CardFileCell2(c: Component, k: nat, d: nat, j: nat)
    requires c in {Card1, Card2, Card3} && d < 0x700 && j < 2
    ensures WidthAt(c, 40 + (k * 0xE00 + 2 * d)) == 2 <==> WidthAt(c, 40 + (k * 0xE00 + (2 * d + j))) == 2
  {
    CardSplit(k, 2 * d);
    CardSplit(k, 2 * d + j);
    CardCell2(d, j);
  }

  lemma CardFileFour(c: Component, q: nat, j: nat)
    requires c in {Card1, Card2, Card3} && q >= 10 && j < 4
    ensures WidthAt(c, 4 * q) == 4 <==> WidthAt(c, 4 * q + j) == 4
  {
    var k, d := (q - 10) / 0x380, (q - 10) % 0x380;
    assert 4 * q == 40 + (k * 0xE00 + 4 * d);
    CardFileCell4(c, k, d, j);
  }

  lemma CardFileTwo(c: Component, q: nat, j: nat)
    requires c in {Card1, Card2, Card3} && q >= 20 && j < 2
    ensures WidthAt(c, 2 * q) == 2 <==> WidthAt(c, 2 * q + j) == 2
  {
    var k, d := (q - 20) / 0x700, (q - 20) % 0x700;
    assert 2 * q == 40 + (k * 0xE00 + 2 * d);
    CardFileCell2(c, k, d, j);
  }

  lemma CardFileCell(c: Component, q: nat, j: nat)
    requires c in {Card1, Card2, Card3}
    ensures j < 4 ==> (WidthAt(c, 4 * q) == 4 <==> WidthAt(c, 4 * q + j) == 4)
    ensures j < 2 ==> (WidthAt(c, 2 * q) == 2 <==> WidthAt(c, 2 * q + j) == 2)
  {
    if j < 4 && q >= 10 {
      CardFileFour(c, q, j);
    }
    if j < 2 && q >= 20 {
      CardFileTwo(c, q, j);
    }
  }

  lemma UserFileCell(c: Component, q: nat, j: nat)
    requires c in {User1, User2, User3}
    ensures j < 4 ==> (WidthAt(c, 4 * q) == 4 <==> WidthAt(c, 4 * q + j) == 4)
    ensures j < 2 ==> (WidthAt(c, 2 * q) == 2 <==> WidthAt(c, 2 * q + j) == 2)
  {
    UserCell(q - 10, j);
    UserCell(q - 20, j);
  }

  lemma WidthCell(c: Component, q: nat, j: nat)
    ensures j < 4 ==> (WidthAt(c, 4 * q) == 4 <==> WidthAt(c, 4 * q + j) == 4)
    ensures j < 2 ==> (WidthAt(c, 2 * q) == 2 <==> WidthAt(c, 2 * q + j) == 2)
  {
    if c in {User1, User2, User3} {
      UserFileCell(c, q, j);
    } else if c in {Card1, Card2, Card3} {
      CardFileCell(c, q, j);
    }
  }

  lemma WidthsAre124(c: Component, i: nat)
    ensures WidthAt(c, i) in {0, 1, 2, 4}
  {
  }

  /** The start of the aligned cell of `w` bytes that byte `i` lies in. */
  function StartOf(w: nat, i: nat): nat {
    if w == 4 then i - i % 4 else if w == 2 then i - i % 2 else i
  }

  lemma EvenStart(i: nat)
    ensures StartOf(2, i) <= i < StartOf(2, i) + 2 && StartOf(2, i) % 2 == 0
  {
  }

  lemma FourfoldStart(i: nat)
    ensures StartOf(4, i) <= i < StartOf(4, i) + 4 && StartOf(4, i) % 4 == 0
  {
  }

  lemma CellStart(i: nat, width: nat)
    requires width in {1, 2, 4}
    ensures StartOf(width, i) <= i < StartOf(width, i) + width && Aligned(StartOf(width, i), width)
  {
    EvenStart(i);
    FourfoldStart(i);
  }

  lemma CellKeepsWidth(c: Component, i: nat, w: nat)
    requires WidthAt(c, i) == w && w in {1, 2, 4}
    ensures WidthAt(c, StartOf(w, i)) == w
  {
    if w == 4 {
      WidthCell(c, i / 4, i % 4);
      assert 4 * (i / 4) == i - i % 4;
    } else if w == 2 {
      WidthCell(c, i / 2, i % 2);
      assert 2 * (i / 2) == i - i % 2;
    }
  }

  /** The aligned cell of byte `i`, where the layout has the same width. */
  lemma CellOf(c: Component, i: nat, w: nat)
    requires WidthAt(c, i) == w > 0
    ensures StartOf(w, i) <= i < StartOf(w, i) + w
    ensures Aligned(StartOf(w, i), w) && WidthAt(c, StartOf(w, i)) == w
  {
    WidthsAre124(c, i);
    CellStart(i, w);
    CellKeepsWidth(c, i, w);
  }

  lemma InsideCell(c: Component, at: nat, i: nat)
    requires Aligned(at, WidthAt(c, at)) && at <= i < at + WidthAt(c, at)
    ensures WidthAt(c, i) == WidthAt(c, at)
  {
    if WidthAt(c, at) == 4 {
      WidthCell(c, at / 4, i - at);
    } else if WidthAt(c, at) == 2 {
      WidthCell(c, at / 2, i - at);
    }
  }

  /** Byte by byte: the byte is covered exactly if the layout gives it a width, and the field that covers it is the
      naturally aligned one of that width. */
  lemma CoveredBytes(c: Component, i: nat)
    ensures Merge.Covered(FieldsOf(c), i) <==> WidthAt(c, i) > 0
    ensures var w := WidthAt(c, i);
      w > 0 ==> StartOf(w, i) <= i < StartOf(w, i) + w && FieldSpec(StartOf(w, i), w) in FieldsOf(c)
  {
    var w := WidthAt(c, i);
    if w > 0 {
      var f := FieldSpec(StartOf(w, i), w);
      CellOf(c, i, w);
      FieldsHaveLayout(c, f);
      var k :| 0 <= k < |FieldsOf(c)| && FieldsOf(c)[k] == f;
      assert Merge.InField(FieldsOf(c)[k], i);
    }
    if k :| 0 <= k < |FieldsOf(c)| && Merge.InField(FieldsOf(c)[k], i) {
      FieldsHaveLayout(c, FieldsOf(c)[k]);
      InsideCell(c, FieldsOf(c)[k].offset, i);
    }
  }

  /** What a byte becomes: where no field lies it stays; a field of `w` bytes from `at` on takes the latest bytes if it
      still holds the historical ones, and stays otherwise. */
  ghost predicate ByteMerged(w: nat, at: nat, current: Bytes, past: Bytes, latest: Bytes, merged: Bytes, i: nat)
    requires i < |current| && |past| == |current| && |latest| == |current| && |merged| == |current|
  {
    if w == 0 then merged[i] == current[i]
    else
      at + w <= |current|
      && merged[i] == if current[at..at + w] == past[at..at + w] then latest[i] else current[i]
  }

  lemma FieldByte(
      current: Bytes, past: Bytes, latest: Bytes, fields: seq<FieldSpec>, merged: Bytes, w: nat, at: nat, i: nat)
    requires Merge.Comparable(current, past, latest, fields) && i < |current|
    requires Merge.ThreeWay(current, past, latest, fields, merged)
    requires w > 0 ==> FieldSpec(at, w) in fields && at <= i < at + w
    requires w == 0 ==> !Merge.Covered(fields, i)
    ensures ByteMerged(w, at, current, past, latest, merged, i)
  {
    if w > 0 {
      var k :| 0 <= k < |fields| && fields[k] == FieldSpec(at, w);
      var kept := current[at..at + w] != past[at..at + w];
      assert merged[at..at + w] == if kept then current[at..at + w] else latest[at..at + w] by {
        assert Merge.FieldBytes(merged, fields[k]) == Merge.Choice(current, past, latest, fields[k]);
      }
      assert merged[at..at + w][i - at] == merged[i];
      assert latest[at..at + w][i - at] == latest[i] && current[at..at + w][i - at] == current[i];
    }
  }

  lemma BytesMerged(
      current: Bytes, past: Bytes, latest: Bytes, c: Component, merged: Bytes, w: nat, i: nat)
    requires Merge.Comparable(current, past, latest, FieldsOf(c)) && i < |current|
    requires Merge.ThreeWay(current, past, latest, FieldsOf(c), merged) && w == WidthAt(c, i)
    ensures ByteMerged(w, StartOf(w, i), current, past, latest, merged, i)
  {
    CoveredBytes(c, i);
    FieldByte(current, past, latest, FieldsOf(c), merged, w, StartOf(w, i), i);
  }

  /** What a merge does, byte by byte, in the field `WidthAt` says the byte lies in. */
  lemma MergedBytes(
      m: Merge.CompatibilityMerge, converters: Merge.Converters, source: Bytes, current: Bytes, c: Component,
      r: Merge.Revision, i: nat)
    requires Merge.IsMergeUnder(m, converters, source, current, c, r) && i < |current|
    ensures var past, latest := converters.replay(c, source, r).value, converters.latest(c, source).value;
      && |m.bytes| == |past| == |latest| == |current|
      && ByteMerged(WidthAt(c, i), StartOf(WidthAt(c, i), i), current, past, latest, m.bytes, i)
  {
    BytesMerged(current, converters.replay(c, source, r).value, converters.latest(c, source).value, c, m.bytes,
      WidthAt(c, i), i);
  }
}
