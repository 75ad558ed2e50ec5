/** Event flags: a table of half words that changes byte order, and a table of bytes that does not. */
module Events {
  import opened Base
  import opened Profile
  import opened Words

  const SIMPLE_EVENT_START: nat := 0x62AE
  const SIMPLE_EVENT_WORDS: nat := 58
  const SIMPLE_EVENT_COUNT: nat := 928
  const CATEGORY_EVENT_START: nat := 0x668C
  const CATEGORY_EVENT_LEN: nat := 0x7D0
  const CATEGORY_EVENT_BASES: seq<nat> :=
    [0x000, 0x000, 0x08C, 0x10E, 0x190, 0x212, 0x2A8, 0x2B2, 0x320, 0x38E, 0x3FC, 0x46A, 0x4A6,
     0x4E2, 0x51E, 0x582, 0x5E6, 0x64A, 0x6AE, 0x712]

  // ---------------------------------------------------------------- keeping the flags

  predicate InSimple(i: nat) { SIMPLE_EVENT_START <= i < SIMPLE_EVENT_START + SIMPLE_EVENT_WORDS * 2 }

  predicate InCategories(i: nat) { CATEGORY_EVENT_START <= i < CATEGORY_EVENT_START + CATEGORY_EVENT_LEN }

  predicate Exchanged(source: Bytes, after: Bytes, at: nat)
    requires at + 2 <= |source| && at + 2 <= |after|
  {
    after[at] == source[at + 1] && after[at + 1] == source[at]
  }

  /** Half words come over with their bytes exchanged, category bytes as they are, and nothing else is touched. */
  predicate EventsPreserved(source: Bytes, before: Bytes, after: Bytes)
    requires |source| == PAYLOAD_SIZE && |before| == PAYLOAD_SIZE && |after| == PAYLOAD_SIZE
  {
    (forall w :: 0 <= w < SIMPLE_EVENT_WORDS ==> Exchanged(source, after, SIMPLE_EVENT_START + w * 2))
    && (forall i :: 0 <= i < PAYLOAD_SIZE && InCategories(i) ==> after[i] == source[i])
    && (forall i :: 0 <= i < PAYLOAD_SIZE && !InSimple(i) && !InCategories(i) ==> after[i] == before[i])
  }

  method ReverseWords(source: Bytes, target: array<Byte>)
    requires |source| == PAYLOAD_SIZE && target.Length == PAYLOAD_SIZE
    modifies target
    ensures forall w :: 0 <= w < SIMPLE_EVENT_WORDS ==> Exchanged(source, target[..], SIMPLE_EVENT_START + w * 2)
    ensures forall i :: 0 <= i < PAYLOAD_SIZE && !InSimple(i) ==> target[i] == old(target[i])
  {
    for word := 0 to SIMPLE_EVENT_WORDS
      invariant forall w :: 0 <= w < word ==> Exchanged(source, target[..], SIMPLE_EVENT_START + w * 2)
      invariant forall i :: 0 <= i < PAYLOAD_SIZE && !InSimple(i) ==> target[i] == old(target[i])
    {
      var offset := SIMPLE_EVENT_START + word * 2;
      target[offset], target[offset + 1] := source[offset], source[offset + 1];
      target[offset], target[offset + 1] := target[offset + 1], target[offset];
      assert Exchanged(source, target[..], offset);
    }
  }

  method PreserveEventState(source: Bytes, target: array<Byte>) returns (ok: bool)
    modifies target
    ensures ok <==> |source| == PAYLOAD_SIZE && target.Length == PAYLOAD_SIZE
    ensures !ok ==> target[..] == old(target[..])
    ensures ok ==> EventsPreserved(source, old(target[..]), target[..])
  {
    if |source| != PAYLOAD_SIZE || target.Length != PAYLOAD_SIZE {
      return false;
    }
    ReverseWords(source, target);
    ghost var reversed := target[..];
    forall k | 0 <= k < CATEGORY_EVENT_LEN {
      target[CATEGORY_EVENT_START + k] := source[CATEGORY_EVENT_START + k];
    }
    forall i | 0 <= i < PAYLOAD_SIZE && InCategories(i) ensures target[i] == source[i] {
      assert target[CATEGORY_EVENT_START + (i - CATEGORY_EVENT_START)] == source[i];
    }
    forall w | 0 <= w < SIMPLE_EVENT_WORDS ensures Exchanged(source, target[..], SIMPLE_EVENT_START + w * 2) {
      assert Exchanged(source, reversed, SIMPLE_EVENT_START + w * 2);
    }
    return true;
  }

  // ---------------------------------------------------------------- taking a snapshot

  datatype EventState<C> = EventState(at: C, isSet: bool)

  datatype Coordinate = Coordinate(category: nat, offset: nat, bit: nat)

  datatype EventSnapshot = EventSnapshot(simple: seq<EventState<nat>>, categorized: seq<EventState<Coordinate>>)

  function HalfWord(payload: Bytes, at: nat, little: bool): bv16
    requires at + 2 <= |payload|
  {
    if little then Word16(payload[at], payload[at + 1]) else Word16(payload[at + 1], payload[at])
  }

  predicate SimpleSet(payload: Bytes, little: bool, id: nat)
    requires |payload| == PAYLOAD_SIZE && id < SIMPLE_EVENT_COUNT
  {
    HalfBit(HalfWord(payload, SIMPLE_EVENT_START + id / 16 * 2, little), id % 16)
  }

  predicate KnownEvents(ids: seq<nat>) { forall k :: 0 <= k < |ids| ==> ids[k] < SIMPLE_EVENT_COUNT }

  function SimpleStates(payload: Bytes, little: bool, ids: seq<nat>, includeUnset: bool): seq<EventState<nat>>
    requires |payload| == PAYLOAD_SIZE && KnownEvents(ids)
  {
    if |ids| == 0 then []
    else
      var n := |ids| - 1;
      var isSet := SimpleSet(payload, little, ids[n]);
      SimpleStates(payload, little, ids[..n], includeUnset) + if includeUnset || isSet then [EventState(ids[n], isSet)]
        else []
  }

  /** Where a category ends. */
  function CategoryEnd(category: nat): nat
    requires category < |CATEGORY_EVENT_BASES|
  {
    if category + 1 < |CATEGORY_EVENT_BASES| then CATEGORY_EVENT_BASES[category + 1] else CATEGORY_EVENT_LEN
  }

  /** The category a byte of the region belongs to, looking from category `c` on. */
  function CategoryFrom(byte: nat, c: nat): (r: nat)
    requires c < |CATEGORY_EVENT_BASES|
    ensures c <= r < |CATEGORY_EVENT_BASES|
    decreases |CATEGORY_EVENT_BASES| - c
  {
    if c + 1 < |CATEGORY_EVENT_BASES| && CATEGORY_EVENT_BASES[c + 1] <= byte then CategoryFrom(byte, c + 1) else c
  }

  /** Category 0 is empty and skipped. */
  function FirstCategory(): nat { 1 }

  /** The coordinate of bit number `n` of the category region, bits counted from the first byte up. */
  function CoordinateOf(n: nat): Coordinate
  {
    var c := CategoryFrom(n / 8, FirstCategory());
    Coordinate(c, if CATEGORY_EVENT_BASES[c] <= n / 8 then n / 8 - CATEGORY_EVENT_BASES[c] else 0, n % 8)
  }

  function RegionBits(): nat { CATEGORY_EVENT_LEN * 8 }

  predicate CategorySet(payload: Bytes, n: nat)
    requires |payload| == PAYLOAD_SIZE
  {
    n / 8 < CATEGORY_EVENT_LEN && ByteBit(payload[CATEGORY_EVENT_START + n / 8], n % 8)
  }

  function Flags(payload: Bytes): nat -> bool
    requires |payload| == PAYLOAD_SIZE
  {
    (n: nat) => CategorySet(payload, n)
  }

  function Entry<C>(place: nat -> C, flag: nat -> bool, n: nat, includeUnset: bool): seq<EventState<C>> {
    if includeUnset || flag(n) then [EventState(place(n), flag(n))] else []
  }

  /** The flags below number `n` in order, each under the name `place` gives it. */
  function Listing<C>(place: nat -> C, flag: nat -> bool, n: nat, includeUnset: bool): seq<EventState<C>> {
    if n == 0 then []
    else Listing(place, flag, n - 1, includeUnset) + Entry(place, flag, n - 1, includeUnset)
  }

  /** The states of the region's bits in order. */
  function CategoryStates(payload: Bytes, includeUnset: bool): seq<EventState<Coordinate>>
    requires |payload| == PAYLOAD_SIZE
  {
    Listing(CoordinateOf, Flags(payload), RegionBits(), includeUnset)
  }

  lemma BasesAscend(i: nat, j: nat)
    requires i <= j < |CATEGORY_EVENT_BASES|
    ensures CATEGORY_EVENT_BASES[i] <= CATEGORY_EVENT_BASES[j] < CATEGORY_EVENT_LEN
  {
  }

  lemma {:induction false} CategoryFound(byte: nat, c: nat, category: nat)
    requires c <= category < |CATEGORY_EVENT_BASES|
    requires CATEGORY_EVENT_BASES[category] <= byte < CategoryEnd(category)
    ensures CategoryFrom(byte, c) == category
    decreases category - c
  {
    if c < category {
      BasesAscend(c + 1, category);
      CategoryFound(byte, c + 1, category);
    }
  }

  method SnapshotSimple(
      payload: Bytes, little: bool, ids: seq<nat>, includeUnset: bool)
    returns (simple: seq<EventState<nat>>)
    requires |payload| == PAYLOAD_SIZE && KnownEvents(ids)
    ensures simple == SimpleStates(payload, little, ids, includeUnset)
  {
    simple := [];
    for i := 0 to |ids|
      invariant KnownEvents(ids[..i]) && simple == SimpleStates(payload, little, ids[..i], includeUnset)
    {
      assert ids[..i + 1][..i] == ids[..i] && ids[..i + 1][i] == ids[i];
      var offset := SIMPLE_EVENT_START + ids[i] / 16 * 2;
      var isSet := HalfBit(HalfWord(payload, offset, little), ids[i] % 16);
      if includeUnset || isSet {
        simple := simple + [EventState(ids[i], isSet)];
      }
    }
    assert ids[..|ids|] == ids;
  }

  /** `stage` lists the flags one by one, each at the coordinate `place` gives it. */
  ghost predicate Grows(
      stage: nat -> seq<EventState<Coordinate>>, place: nat -> Coordinate, flag: nat -> bool, includeUnset: bool)
  {
    forall n: nat, next: nat :: next == n + 1 ==> stage(next) == stage(n) + Entry(place, flag, n, includeUnset)
  }

  /** `flag` reads the bits of the payload's region. */
  ghost predicate Reads(flag: nat -> bool, payload: Bytes)
    requires |payload| == PAYLOAD_SIZE
  {
    forall n: nat :: flag(n) == CategorySet(payload, n)
  }

  /** `place` sends the bits of the bytes from `start` to `end` to the offsets of `category`. */
  ghost predicate Places(place: nat -> Coordinate, category: nat, start: nat, end: nat) {
    forall n: nat :: start <= n / 8 < end ==> place(n) == Coordinate(category, n / 8 - start, n % 8)
  }

  lemma BitParts(at: nat, bit: nat)
    requires bit < 8
    ensures (at * 8 + bit) / 8 == at && (at * 8 + bit) % 8 == bit
  {
  }

  method SnapshotByte(
    payload: Bytes, category: nat, start: nat, relative: nat, includeUnset: bool, before: seq<EventState<Coordinate>>,
    ghost end: nat, ghost stage: nat -> seq<EventState<Coordinate>>, ghost place: nat -> Coordinate,
        ghost flag: nat -> bool)
    returns (categorized: seq<EventState<Coordinate>>)
    requires |payload| == PAYLOAD_SIZE && start + relative < end <= CATEGORY_EVENT_LEN
    requires Reads(flag, payload) && Grows(stage, place, flag, includeUnset) && Places(place, category, start, end)
    requires before == stage((start + relative) * 8)
    ensures categorized == stage((start + relative + 1) * 8)
  {
    ghost var first := (start + relative) * 8;
    var byte := payload[CATEGORY_EVENT_START + start + relative];
    categorized := before;
    for bit := 0 to 8
      invariant categorized == stage(first + bit)
    {
      BitParts(start + relative, bit);
      ghost var next := first + bit + 1;
      assert stage(next) == stage(first + bit) + Entry(place, flag, first + bit, includeUnset);
      var isSet := ByteBit(byte, bit);
      if includeUnset || isSet {
        categorized := categorized + [EventState(Coordinate(category, relative, bit), isSet)];
      }
    }
  }

  method SnapshotCategory(
    payload: Bytes, category: nat, start: nat, end: nat, includeUnset: bool, before: seq<EventState<Coordinate>>,
    ghost stage: nat -> seq<EventState<Coordinate>>, ghost place: nat -> Coordinate, ghost flag: nat -> bool)
    returns (categorized: seq<EventState<Coordinate>>)
    requires |payload| == PAYLOAD_SIZE && start <= end <= CATEGORY_EVENT_LEN
    requires Reads(flag, payload) && Grows(stage, place, flag, includeUnset) && Places(place, category, start, end)
    requires before == stage(start * 8)
    ensures categorized == stage(end * 8)
  {
    categorized := before;
    for relative := 0 to end - start
      invariant categorized == stage((start + relative) * 8)
    {
      categorized :=
        SnapshotByte(payload, category, start, relative, includeUnset, categorized, end, stage, place, flag);
    }
  }

  lemma EndInRegion(category: nat)
    requires category < |CATEGORY_EVENT_BASES|
    ensures CATEGORY_EVENT_BASES[category] <= CategoryEnd(category) <= CATEGORY_EVENT_LEN
    ensures category > 0 ==> CategoryEnd(category - 1) == CATEGORY_EVENT_BASES[category]
  {
    BasesAscend(category, |CATEGORY_EVENT_BASES| - 1);
    if category + 1 < |CATEGORY_EVENT_BASES| {
      BasesAscend(category, category + 1);
    }
  }

  /** `place` is right for every category that is listed. */
  ghost predicate PlacesAll(place: nat -> Coordinate) {
    forall c :: 1 <= c < |CATEGORY_EVENT_BASES| ==> Places(place, c, CATEGORY_EVENT_BASES[c], CategoryEnd(c))
  }

  method SnapshotCategories(
    payload: Bytes, includeUnset: bool,
    ghost stage: nat -> seq<EventState<Coordinate>>, ghost place: nat -> Coordinate, ghost flag: nat -> bool)
    returns (categorized: seq<EventState<Coordinate>>)
    requires |payload| == PAYLOAD_SIZE
    requires Reads(flag, payload) && Grows(stage, place, flag, includeUnset) && PlacesAll(place) && stage(0) == []
    ensures categorized == stage(RegionBits())
  {
    categorized := [];
    EndInRegion(1);
    for category := 1 to |CATEGORY_EVENT_BASES|
      invariant categorized == stage(CategoryEnd(category - 1) * 8)
    {
      EndInRegion(category);
      var start := CATEGORY_EVENT_BASES[category];
      var end := if category + 1 < |CATEGORY_EVENT_BASES| then CATEGORY_EVENT_BASES[category + 1]
        else CATEGORY_EVENT_LEN;
      categorized := SnapshotCategory(payload, category, start, end, includeUnset, categorized, stage, place, flag);
    }
  }

  lemma CoordinatesPlaceAll()
    ensures PlacesAll(CoordinateOf)
  {
    forall c, n: nat | 1 <= c < |CATEGORY_EVENT_BASES| && CATEGORY_EVENT_BASES[c] <= n / 8 < CategoryEnd(c)
      ensures CoordinateOf(n) == Coordinate(c, n / 8 - CATEGORY_EVENT_BASES[c], n % 8)
    {
      CategoryFound(n / 8, FirstCategory(), c);
    }
  }

  function Stages(place: nat -> Coordinate, flag: nat -> bool, includeUnset: bool): nat -> seq<EventState<Coordinate>> {
    (n: nat) => Listing(place, flag, n, includeUnset)
  }

  lemma StagesGrow(place: nat -> Coordinate, flag: nat -> bool, includeUnset: bool)
    ensures Grows(Stages(place, flag, includeUnset), place, flag, includeUnset)
  {
  }

  method ListCategories(payload: Bytes, includeUnset: bool) returns (categorized: seq<EventState<Coordinate>>)
    requires |payload| == PAYLOAD_SIZE
    ensures categorized == CategoryStates(payload, includeUnset)
  {
    CoordinatesPlaceAll();
    ghost var flag := Flags(payload);
    StagesGrow(CoordinateOf, flag, includeUnset);
    categorized :=
      SnapshotCategories(payload, includeUnset, Stages(CoordinateOf, flag, includeUnset), CoordinateOf, flag);
  }

  function SnapshotOfPayload(payload: Bytes, little: bool, ids: seq<nat>, includeUnset: bool): EventSnapshot
    requires |payload| == PAYLOAD_SIZE && KnownEvents(ids)
  {
    EventSnapshot(SimpleStates(payload, little, ids, includeUnset), CategoryStates(payload, includeUnset))
  }

  predicate IsSlot(save: Bytes) { IsJp3dsSlot(save) || IsJpCemuSlot(save) }

  /** None for a file that is not a character slot. */
  function SnapshotOf(save: Bytes, ids: seq<nat>, includeUnset: bool): (r: Option<EventSnapshot>)
    requires KnownEvents(ids)
    ensures r.Some? <==> IsSlot(save)
  {
    if IsJp3dsSlot(save) then Some(SnapshotOfPayload(save[4..], true, ids, includeUnset))
    else if IsJpCemuSlot(save) then Some(SnapshotOfPayload(save[CEMU_HEADER_SIZE..], false, ids, includeUnset))
    else None
  }

  method TakeSnapshot(save: Bytes, ids: seq<nat>, includeUnset: bool) returns (r: Option<EventSnapshot>)
    requires KnownEvents(ids)
    ensures r == SnapshotOf(save, ids, includeUnset)
  {
    if !IsJp3dsSlot(save) && !IsJpCemuSlot(save) {
      return None;
    }
    var little := IsJp3dsSlot(save);
    var payload := if little then save[4..] else save[CEMU_HEADER_SIZE..];
    var simple := SnapshotSimple(payload, little, ids, includeUnset);
    var categorized := ListCategories(payload, includeUnset);
    return Some(EventSnapshot(simple, categorized));
  }

  // ---------------------------------------------------------------- what the snapshots say

  lemma {:induction false} FullListing<C>(place: nat -> C, flag: nat -> bool, n: nat)
    ensures |Listing(place, flag, n, true)| == n
    ensures forall k :: 0 <= k < n ==> Listing(place, flag, n, true)[k] == EventState(place(k), flag(k))
  {
    if n == 0 {
    } else {
      FullListing(place, flag, n - 1);
    }
  }

  lemma {:induction false} CategoryFromBounds(byte: nat, c: nat)
    requires byte < CATEGORY_EVENT_LEN && c < |CATEGORY_EVENT_BASES| && CATEGORY_EVENT_BASES[c] <= byte
    ensures CATEGORY_EVENT_BASES[CategoryFrom(byte, c)] <= byte < CategoryEnd(CategoryFrom(byte, c))
    decreases |CATEGORY_EVENT_BASES| - c
  {
    if c + 1 < |CATEGORY_EVENT_BASES| && CATEGORY_EVENT_BASES[c + 1] <= byte {
      CategoryFromBounds(byte, c + 1);
    }
  }

  lemma CategoryOfByte(byte: nat)
    requires byte < CATEGORY_EVENT_LEN
    ensures var c := CategoryFrom(byte, FirstCategory());
      1 <= c && CATEGORY_EVENT_BASES[c] <= byte < CategoryEnd(c)
  {
    CategoryFromBounds(byte, FirstCategory());
  }

  lemma SameParts(m: nat, n: nat)
    requires m / 8 == n / 8 && m % 8 == n % 8
    ensures m == n
  {
  }

  /** Coordinates and bits of the region determine each other, so no coordinate is listed twice. */
  lemma CoordinatesAreUnique(m: nat, n: nat)
    requires m < RegionBits() && n < RegionBits() && CoordinateOf(m) == CoordinateOf(n)
    ensures m == n
  {
    CategoryOfByte(m / 8);
    CategoryOfByte(n / 8);
    SameParts(m, n);
  }

  /** With unset flags included, categories 1 to 19 list every bit of the region exactly once, in the order of
      the bytes and bits. */
  lemma FullListCoversTheRegion(payload: Bytes)
    requires |payload| == PAYLOAD_SIZE
    ensures |CategoryStates(payload, true)| == RegionBits()
    ensures forall k :: 0 <= k < RegionBits() ==>
      CategoryStates(payload, true)[k] == EventState(CoordinateOf(k), CategorySet(payload, k))
    ensures forall j, k :: 0 <= j < k < RegionBits() ==>
      CategoryStates(payload, true)[j].at != CategoryStates(payload, true)[k].at
  {
    FullListing(CoordinateOf, Flags(payload), RegionBits());
    forall j, k | 0 <= j < k < RegionBits() ensures CoordinateOf(j) != CoordinateOf(k) {
      if CoordinateOf(j) == CoordinateOf(k) {
        CoordinatesAreUnique(j, k);
      }
    }
  }

  lemma {:induction false} SimpleSurvives(source: Bytes, before: Bytes, after: Bytes, ids: seq<nat>, includeUnset: bool)
    requires |source| == PAYLOAD_SIZE && |before| == PAYLOAD_SIZE && |after| == PAYLOAD_SIZE
    requires KnownEvents(ids) && EventsPreserved(source, before, after)
    ensures SimpleStates(after, false, ids, includeUnset) == SimpleStates(source, true, ids, includeUnset)
  {
    if |ids| == 0 {
    } else {
      var n := |ids| - 1;
      SimpleSurvives(source, before, after, ids[..n], includeUnset);
      assert ids[n] / 16 < SIMPLE_EVENT_WORDS;
      assert Exchanged(source, after, SIMPLE_EVENT_START + ids[n] / 16 * 2);
    }
  }

  lemma {:induction false} SameFlagsSameList<C>(
      place: nat -> C, flag: nat -> bool, other: nat -> bool, n: nat, includeUnset: bool)
    requires forall k :: 0 <= k < n ==> flag(k) == other(k)
    ensures Listing(place, flag, n, includeUnset) == Listing(place, other, n, includeUnset)
  {
    if n == 0 {
    } else {
      SameFlagsSameList(place, flag, other, n - 1, includeUnset);
    }
  }

  lemma CategoriesSurvive(source: Bytes, before: Bytes, after: Bytes, includeUnset: bool)
    requires |source| == PAYLOAD_SIZE && |before| == PAYLOAD_SIZE && |after| == PAYLOAD_SIZE
    requires EventsPreserved(source, before, after)
    ensures CategoryStates(after, includeUnset) == CategoryStates(source, includeUnset)
  {
    forall k | 0 <= k < RegionBits() ensures Flags(after)(k) == Flags(source)(k) {
      assert InCategories(CATEGORY_EVENT_START + k / 8);
    }
    SameFlagsSameList(CoordinateOf, Flags(after), Flags(source), RegionBits(), includeUnset);
  }

  /** Conversion keeps the snapshot: read little-endian from the original and big-endian from the converted save,
      all flags are the same. */
  lemma SnapshotSurvives(original: Bytes, converted: Bytes, before: Bytes, ids: seq<nat>, includeUnset: bool)
    requires KnownEvents(ids) && IsJp3dsSlot(original) && IsJpCemuSlot(converted) && |before| == PAYLOAD_SIZE
    requires EventsPreserved(original[4..], before, converted[CEMU_HEADER_SIZE..])
    ensures SnapshotOf(converted, ids, includeUnset) == SnapshotOf(original, ids, includeUnset)
  {
    SimpleSurvives(original[4..], before, converted[CEMU_HEADER_SIZE..], ids, includeUnset);
    CategoriesSurvive(original[4..], before, converted[CEMU_HEADER_SIZE..], includeUnset);
  }

  // ---------------------------------------------------------------- comparing two saves by position

  datatype Comparison<C> = Comparison(at: C, sourceSet: bool, targetSet: Option<bool>, matches: Option<bool>)

  /** Pairs the lists by index; `all` also reports flags set on neither side. */
  function Compare<C>(source: seq<EventState<C>>, target: Option<seq<EventState<C>>>, all: bool): seq<Comparison<C>> {
    if |source| == 0 then []
    else
      var n := |source| - 1;
      var targetSet := if target.Some? && n < |target.value| then Some(target.value[n].isSet) else None;
      Compare(source[..n], target, all)
      + if all || source[n].isSet || targetSet == Some(true) then
          var matches := if targetSet.Some? then Some(targetSet.value == source[n].isSet) else None;
          [Comparison(source[n].at, source[n].isSet, targetSet, matches)]
        else []
  }

  /** The two lists name the same flag at every index. */
  predicate Aligned<C(==)>(source: seq<EventState<C>>, target: seq<EventState<C>>) {
    |source| == |target| && forall k :: 0 <= k < |source| ==> source[k].at == target[k].at
  }

  lemma ListingsAlign<C>(place: nat -> C, flag: nat -> bool, other: nat -> bool, n: nat)
    ensures Aligned(Listing(place, flag, n, true), Listing(place, other, n, true))
  {
    FullListing(place, flag, n);
    FullListing(place, other, n);
  }

  lemma {:induction false} FullSimpleList(payload: Bytes, little: bool, ids: seq<nat>)
    requires |payload| == PAYLOAD_SIZE && KnownEvents(ids)
    ensures var states := SimpleStates(payload, little, ids, true);
      |states| == |ids| && forall k :: 0 <= k < |ids| ==>
        states[k] == EventState(ids[k], SimpleSet(payload, little, ids[k]))
  {
    if |ids| == 0 {
    } else {
      FullSimpleList(payload, little, ids[..|ids| - 1]);
    }
  }

  /** Full lists of any two saves are aligned. */
  lemma FullListsAlign(a: Bytes, b: Bytes, littleA: bool, littleB: bool, ids: seq<nat>)
    requires |a| == PAYLOAD_SIZE && |b| == PAYLOAD_SIZE && KnownEvents(ids)
    ensures Aligned(CategoryStates(a, true), CategoryStates(b, true))
    ensures Aligned(SimpleStates(a, littleA, ids, true), SimpleStates(b, littleB, ids, true))
  {
    ListingsAlign(CoordinateOf, Flags(a), Flags(b), RegionBits());
    FullSimpleList(a, littleA, ids);
    FullSimpleList(b, littleB, ids);
  }

  /** The comparison speaks of one flag and gives its differing states in the two saves. */
  predicate TellsDifference<C(==)>(c: Comparison<C>, source: EventState<C>, target: EventState<C>) {
    c.at == source.at == target.at && c.sourceSet == source.isSet && c.targetSet == Some(target.isSet)
    && source.isSet != target.isSet
  }

  /** On aligned lists the comparison always speaks of one flag: it reports a mismatch for exactly the flags in
      which the two saves differ. */
  lemma {:induction false} MismatchesAreDifferences<C>(
      source: seq<EventState<C>>, target: seq<EventState<C>>, all: bool, n: nat)
    requires Aligned(source, target) && n <= |source|
    ensures forall c :: c in Compare(source[..n], Some(target), all) ==> c.matches.Some? && c.targetSet.Some?
    ensures forall c :: c in Compare(source[..n], Some(target), all) && c.matches == Some(false) ==>
      exists k :: 0 <= k < n && TellsDifference(c, source[k], target[k])
    ensures forall k :: 0 <= k < n && source[k].isSet != target[k].isSet ==>
      Comparison(source[k].at, source[k].isSet, Some(target[k].isSet), Some(false)) in Compare(source[..n],
          Some(target), all)
  {
    if n == 0 {
    } else {
      MismatchesAreDifferences(source, target, all, n - 1);
      assert source[..n][..n - 1] == source[..n - 1] && source[..n][n - 1] == source[n - 1];
    }
  }

  // ---------------------------------------------------------------- inspecting one save or two

  datatype EventReport = EventReport(simple: seq<Comparison<nat>>, categorized: seq<Comparison<Coordinate>>)

  function PayloadOf(save: Bytes): (p: Bytes)
    requires IsSlot(save)
    ensures |p| == PAYLOAD_SIZE
  {
    if IsJp3dsSlot(save) then save[4..] else save[CEMU_HEADER_SIZE..]
  }

  function IdAt(ids: seq<nat>): nat -> nat {
    (k: nat) => if k < |ids| then ids[k] else 0
  }

  function SimpleFlags(save: Bytes, ids: seq<nat>): nat -> bool
    requires IsSlot(save) && KnownEvents(ids)
  {
    (k: nat) => k < |ids| && SimpleSet(PayloadOf(save), IsJp3dsSlot(save), ids[k])
  }

  function CategoryFlags(save: Bytes): nat -> bool
    requires IsSlot(save)
  {
    Flags(PayloadOf(save))
  }

  /** What a report should say about flag `k` of two saves. */
  function OfTwo<C>(place: nat -> C, flag: nat -> bool, other: nat -> bool): nat -> Comparison<C> {
    (k: nat) => Comparison(place(k), flag(k), Some(other(k)), Some(other(k) == flag(k)))
  }

  /** What a report should say about flag `k` of one save. */
  function OfOne<C>(place: nat -> C, flag: nat -> bool): nat -> Comparison<C> {
    (k: nat) => Comparison(place(k), flag(k), None, None)
  }

  function Either(flag: nat -> bool, other: nat -> bool, all: bool): nat -> bool {
    (k: nat) => all || flag(k) || other(k)
  }

  /** The entries of the wanted flags below number `n`, each once and in order. */
  function Wanted<C>(entry: nat -> Comparison<C>, wanted: nat -> bool, n: nat): seq<Comparison<C>> {
    if n == 0 then [] else Wanted(entry, wanted, n - 1) + if wanted(n - 1) then [entry(n - 1)] else []
  }

  /** The report has one entry for each flag set in either save, or for all, in table order, with both states and
      whether they agree. */
  ghost predicate ComparesFlags<C>(
      report: seq<Comparison<C>>, place: nat -> C, flag: nat -> bool, other: nat -> bool, count: nat, all: bool)
  {
    report == Wanted(OfTwo(place, flag, other), Either(flag, other, all), count)
  }

  /** The report has one entry for each flag set in the save, or for all, in table order, compared with nothing. */
  ghost predicate ListsFlags<C>(report: seq<Comparison<C>>, place: nat -> C, flag: nat -> bool, count: nat, all: bool) {
    report == Wanted(OfOne(place, flag), Either(flag, flag, all), count)
  }

  lemma {:induction false} SimpleAsListing(save: Bytes, ids: seq<nat>, n: nat, includeUnset: bool)
    requires IsSlot(save) && KnownEvents(ids) && n <= |ids|
    ensures SimpleStates(PayloadOf(save), IsJp3dsSlot(save), ids[..n], includeUnset)
      == Listing(IdAt(ids), SimpleFlags(save, ids), n, includeUnset)
  {
    if n == 0 {
    } else {
      SimpleAsListing(save, ids, n - 1, includeUnset);
      assert ids[..n][..n - 1] == ids[..n - 1];
    }
  }

  lemma {:induction false} ComparedListing<C>(
      place: nat -> C, flag: nat -> bool, other: nat -> bool, count: nat, n: nat, all: bool)
    requires n <= count
    ensures |Listing(place, flag, count, true)| == count
    ensures ComparesFlags(
      Compare(Listing(place, flag, count, true)[..n], Some(Listing(place, other, count, true)), all), place, flag,
          other, n, all)
  {
    FullListing(place, flag, count);
    FullListing(place, other, count);
    if n == 0 {
    } else {
      var source := Listing(place, flag, count, true);
      ComparedListing(place, flag, other, count, n - 1, all);
      assert source[..n][..n - 1] == source[..n - 1];
    }
  }

  lemma CompareAloneSnoc<C>(source: seq<EventState<C>>, e: EventState<C>, all: bool)
    requires all || e.isSet
    ensures Compare(source + [e], None, all) == Compare(source, None, all) + [Comparison(e.at, e.isSet, None, None)]
  {
    assert (source + [e])[..|source|] == source;
  }

  lemma {:induction false} ListedAlone<C>(place: nat -> C, flag: nat -> bool, n: nat, all: bool)
    ensures ListsFlags(Compare(Listing(place, flag, n, all), None, all), place, flag, n, all)
  {
    if n == 0 {
    } else {
      var source := Listing(place, flag, n - 1, all);
      ListedAlone(place, flag, n - 1, all);
      if all || flag(n - 1) {
        CompareAloneSnoc(source, EventState(place(n - 1), flag(n - 1)), all);
      } else {
        assert Listing(place, flag, n, all) == source;
      }
    }
  }

  method CompareStates<C>(source: seq<EventState<C>>, target: Option<seq<EventState<C>>>, all: bool)
    returns (report: seq<Comparison<C>>)
    ensures report == Compare(source, target, all)
  {
    report := [];
    for i := 0 to |source|
      invariant report == Compare(source[..i], target, all)
    {
      assert source[..i + 1][..i] == source[..i];
      var targetSet := if target.Some? && i < |target.value| then Some(target.value[i].isSet) else None;
      if all || source[i].isSet || targetSet == Some(true) {
        var matches := if targetSet.Some? then Some(targetSet.value == source[i].isSet) else None;
        report := report + [Comparison(source[i].at, source[i].isSet, targetSet, matches)];
      }
    }
    assert source[..|source|] == source;
  }

  /** The report on one save lists its flags, the report on two compares theirs; there is none for files that are not
      character slots. */
  ghost predicate ReportsOn(report: EventReport, source: Bytes, target: Option<Bytes>, all: bool, ids: seq<nat>)
    requires KnownEvents(ids) && IsSlot(source) && (target.Some? ==> IsSlot(target.value))
  {
    match target
    case Some(save) =>
      ComparesFlags(report.simple, IdAt(ids), SimpleFlags(source, ids), SimpleFlags(save, ids), |ids|, all)
      && ComparesFlags(report.categorized, CoordinateOf, CategoryFlags(source), CategoryFlags(save), RegionBits(), all)
    case None =>
      ListsFlags(report.simple, IdAt(ids), SimpleFlags(source, ids), |ids|, all)
      && ListsFlags(report.categorized, CoordinateOf, CategoryFlags(source), RegionBits(), all)
  }

  lemma SnapshotListings(save: Bytes, ids: seq<nat>, includeUnset: bool)
    requires KnownEvents(ids) && IsSlot(save)
    ensures SnapshotOf(save, ids, includeUnset) == Some(EventSnapshot(
      Listing(IdAt(ids), SimpleFlags(save, ids), |ids|, includeUnset),
      Listing(CoordinateOf, CategoryFlags(save), RegionBits(), includeUnset)))
  {
    SimpleAsListing(save, ids, |ids|, includeUnset);
    assert ids[..|ids|] == ids;
  }

  lemma ComparedWhole<C>(place: nat -> C, flag: nat -> bool, other: nat -> bool, count: nat, all: bool)
    ensures ComparesFlags(
      Compare(Listing(place, flag, count, true), Some(Listing(place, other, count, true)), all), place, flag, other,
          count, all)
  {
    ComparedListing(place, flag, other, count, count, all);
    var source := Listing(place, flag, count, true);
    assert source[..count] == source;
  }

  function ReportOf(source: EventSnapshot, target: Option<EventSnapshot>, all: bool): EventReport {
    match target
    case Some(t) => EventReport(Compare(source.simple, Some(t.simple), all),
        Compare(source.categorized, Some(t.categorized), all))
    case None => EventReport(Compare(source.simple, None, all), Compare(source.categorized, None, all))
  }

  lemma OneSaveReported(source: Bytes, all: bool, ids: seq<nat>)
    requires KnownEvents(ids) && IsSlot(source)
    ensures ReportsOn(ReportOf(SnapshotOf(source, ids, all).value, None, all), source, None, all, ids)
  {
    SnapshotListings(source, ids, all);
    ListedAlone(IdAt(ids), SimpleFlags(source, ids), |ids|, all);
    ListedAlone(CoordinateOf, CategoryFlags(source), RegionBits(), all);
  }

  lemma TwoSavesReported(source: Bytes, save: Bytes, all: bool, ids: seq<nat>)
    requires KnownEvents(ids) && IsSlot(source) && IsSlot(save)
    ensures ReportsOn(ReportOf(SnapshotOf(source, ids, true).value, SnapshotOf(save, ids, true), all), source,
        Some(save), all, ids)
  {
    SnapshotListings(source, ids, true);
    SnapshotListings(save, ids, true);
    ComparedWhole(IdAt(ids), SimpleFlags(source, ids), SimpleFlags(save, ids), |ids|, all);
    ComparedWhole(CoordinateOf, CategoryFlags(source), CategoryFlags(save), RegionBits(), all);
  }

  lemma {:induction false} ListingMembers<C>(place: nat -> C, flag: nat -> bool, n: nat, includeUnset: bool)
    ensures forall e :: e in Listing(place, flag, n, includeUnset) ==>
      exists k :: 0 <= k < n && (includeUnset || flag(k)) && e == EventState(place(k), flag(k))
    ensures forall k :: 0 <= k < n && (includeUnset || flag(k)) ==>
      EventState(place(k), flag(k)) in Listing(place, flag, n, includeUnset)
  {
    if n == 0 {
    } else {
      ListingMembers(place, flag, n - 1, includeUnset);
    }
  }

  method CompareSnapshots(source: EventSnapshot, target: Option<EventSnapshot>, all: bool) returns (report: EventReport)
    ensures report == ReportOf(source, target, all)
  {
    var simple := CompareStates(source.simple, if target.Some? then Some(target.value.simple) else None, all);
    var categorized :=
      CompareStates(source.categorized, if target.Some? then Some(target.value.categorized) else None, all);
    return EventReport(simple, categorized);
  }

  // ---------------------------------------------------------------- what a report says about the bytes

  /** Whether a save has the flag `id` of the table of half words: bit `id % 8` of byte `id / 8` on the Nintendo 3DS,
      and of the other byte of the same half word on the Wii U. */
  predicate HasFlag(save: Bytes, id: nat)
    requires IsSlot(save) && id < SIMPLE_EVENT_COUNT
  {
    if IsJp3dsSlot(save) then ByteBit(save[4 + 0x62AE + id / 8], id % 8)
    else ByteBit(save[40 + 0x62AE + id / 16 * 2 + 1 - id % 16 / 8], id % 8)
  }

  /** A bit of the region, by category, offset from the category's base, and bit. */
  predicate InRegion(c: Coordinate) {
    && 1 <= c.category < 20 && c.bit < 8 && CATEGORY_EVENT_BASES[c.category] + c.offset < 0x7D0
    && (c.category < 19 ==> CATEGORY_EVENT_BASES[c.category] + c.offset < CATEGORY_EVENT_BASES[c.category + 1])
  }

  /** Whether a save has the flag at a coordinate. */
  predicate HasCategoryFlag(save: Bytes, c: Coordinate)
    requires IsSlot(save) && InRegion(c)
  {
    var header := if IsJp3dsSlot(save) then 4 else 40;
    ByteBit(save[header + 0x668C + CATEGORY_EVENT_BASES[c.category] + c.offset], c.bit)
  }

  /** The number of the bit, counted from the first byte of the region up. */
  function RegionIndex(c: Coordinate): nat
    requires InRegion(c)
  {
    (CATEGORY_EVENT_BASES[c.category] + c.offset) * 8 + c.bit
  }

  lemma FlagByte(id: nat)
    ensures id % 16 == id % 16 / 8 * 8 + id % 8 && id / 8 == id / 16 * 2 + id % 16 / 8 && id % 16 / 8 < 2
  {
  }

  lemma LittleFlag(payload: Bytes, id: nat)
    requires |payload| == PAYLOAD_SIZE && id < SIMPLE_EVENT_COUNT
    ensures SimpleSet(payload, true, id) == ByteBit(payload[0x62AE + id / 16 * 2 + id % 16 / 8], id % 8)
  {
    var at := SIMPLE_EVENT_START + id / 16 * 2;
    FlagByte(id);
    BitsOfHalf(payload[at], payload[at + 1], id % 8);
  }

  lemma BigFlag(payload: Bytes, id: nat)
    requires |payload| == PAYLOAD_SIZE && id < SIMPLE_EVENT_COUNT
    ensures SimpleSet(payload, false, id) == ByteBit(payload[0x62AE + id / 16 * 2 + 1 - id % 16 / 8], id % 8)
  {
    var at := SIMPLE_EVENT_START + id / 16 * 2;
    FlagByte(id);
    BitsOfHalf(payload[at + 1], payload[at], id % 8);
  }

  lemma FlagMeaning(save: Bytes, id: nat)
    requires IsSlot(save) && id < SIMPLE_EVENT_COUNT
    ensures SimpleSet(PayloadOf(save), IsJp3dsSlot(save), id) == HasFlag(save, id)
  {
    FlagByte(id);
    if IsJp3dsSlot(save) {
      LittleFlag(PayloadOf(save), id);
    } else {
      BigFlag(PayloadOf(save), id);
    }
  }

  lemma CoordinateMeaning(n: nat)
    requires n < RegionBits()
    ensures InRegion(CoordinateOf(n)) && RegionIndex(CoordinateOf(n)) == n
  {
    CategoryOfByte(n / 8);
  }

  lemma CategoryFlagMeaning(save: Bytes, n: nat)
    requires IsSlot(save) && n < RegionBits()
    ensures InRegion(CoordinateOf(n)) && CategoryFlags(save)(n) == HasCategoryFlag(save, CoordinateOf(n))
  {
    CoordinateMeaning(n);
  }

  lemma CoordinateOfIndex(c: Coordinate)
    requires InRegion(c)
    ensures RegionIndex(c) < RegionBits() && CoordinateOf(RegionIndex(c)) == c
  {
    var n := RegionIndex(c);
    BitParts(CATEGORY_EVENT_BASES[c.category] + c.offset, c.bit);
    CategoryFound(n / 8, FirstCategory(), c.category);
  }

  /** The numbers of the wanted flags below `n`, ascending. */
  function WantedBelow(wanted: nat -> bool, n: nat): seq<nat> {
    if n == 0 then [] else if wanted(n - 1) then WantedBelow(wanted, n - 1) + [n - 1] else WantedBelow(wanted, n - 1)
  }

  predicate Ascends(ks: seq<nat>) { forall i, j :: 0 <= i < j < |ks| ==> ks[i] < ks[j] }

  lemma {:induction false} WantedAscend(wanted: nat -> bool, n: nat)
    ensures forall k: nat :: k in WantedBelow(wanted, n) <==> k < n && wanted(k)
    ensures Ascends(WantedBelow(wanted, n))
  {
    if n == 0 {
    } else {
      var before := WantedBelow(wanted, n - 1);
      WantedAscend(wanted, n - 1);
      forall i | 0 <= i < |before| ensures before[i] < n - 1 {
        assert before[i] in before;
      }
    }
  }

  lemma {:induction false} WantedEntries<C>(entry: nat -> Comparison<C>, wanted: nat -> bool, n: nat)
    ensures var r, ks := Wanted(entry, wanted, n), WantedBelow(wanted, n);
      |r| == |ks| && forall i :: 0 <= i < |r| ==> r[i] == entry(ks[i])
  {
    if n == 0 {
    } else {
      WantedEntries(entry, wanted, n - 1);
    }
  }

  /** The entry gives a flag's state in one save, or in two and whether they agree. */
  predicate Tells<C>(e: Comparison<C>, sourceSet: bool, targetSet: Option<bool>) {
    && e.sourceSet == sourceSet && e.targetSet == targetSet
    && e.matches == if targetSet.Some? then Some(targetSet.value == sourceSet) else None
  }

  /** Whether the flag is to be reported. */
  predicate Shown(sourceSet: bool, targetSet: Option<bool>, all: bool) { all || sourceSet || targetSet == Some(true) }

  function FlagIn(save: Option<Bytes>, id: nat): Option<bool>
    requires id < SIMPLE_EVENT_COUNT && (save.Some? ==> IsSlot(save.value))
  {
    if save.Some? then Some(HasFlag(save.value, id)) else None
  }

  function CategoryFlagIn(save: Option<Bytes>, c: Coordinate): Option<bool>
    requires InRegion(c) && (save.Some? ==> IsSlot(save.value))
  {
    if save.Some? then Some(HasCategoryFlag(save.value, c)) else None
  }

  /** Every entry tells the truth about a catalogued flag, and exactly the flags to be shown have one. */
  ghost predicate TrueOfFlags(
      simple: seq<Comparison<nat>>, source: Bytes, target: Option<Bytes>, all: bool, ids: seq<nat>)
    requires KnownEvents(ids) && IsSlot(source) && (target.Some? ==> IsSlot(target.value))
  {
    && (forall e :: e in simple ==> e.at in ids && e.at < 928)
    && (forall e :: e in simple ==> Tells(e, HasFlag(source, e.at), FlagIn(target, e.at)))
    && (forall k :: 0 <= k < |ids| && Shown(HasFlag(source, ids[k]), FlagIn(target, ids[k]), all) ==>
      exists e :: e in simple && e.at == ids[k])
    && forall e :: e in simple ==> Shown(HasFlag(source, e.at), FlagIn(target, e.at), all)
  }

  /** The same for the bits of the region, each at most once and in the order of bytes and bits. */
  ghost predicate TrueOfCategories(
      categorized: seq<Comparison<Coordinate>>, source: Bytes, target: Option<Bytes>, all: bool)
    requires IsSlot(source) && (target.Some? ==> IsSlot(target.value))
  {
    && (forall i :: 0 <= i < |categorized| ==> InRegion(categorized[i].at))
    && (forall i :: 0 <= i < |categorized| ==>
      var e := categorized[i]; Tells(e, HasCategoryFlag(source, e.at), CategoryFlagIn(target, e.at)))
    && (forall c :: InRegion(c) ==> (Shown(HasCategoryFlag(source, c), CategoryFlagIn(target, c), all) <==>
      exists i :: 0 <= i < |categorized| && categorized[i].at == c))
    && forall i, j :: 0 <= i < j < |categorized| ==> RegionIndex(categorized[i].at) < RegionIndex(categorized[j].at)
  }

  /** Entry `k` tells the truth about bit `k` of the region, which is wanted exactly when it is to be shown. */
  ghost predicate TrueEntry(entry: nat -> Comparison<Coordinate>, wanted: nat -> bool, source: Bytes,
                            target: Option<Bytes>, all: bool, k: nat)
    requires IsSlot(source) && (target.Some? ==> IsSlot(target.value))
  {
    var c := entry(k).at;
    && InRegion(c) && RegionIndex(c) == k && Tells(entry(k), HasCategoryFlag(source, c), CategoryFlagIn(target, c))
    && wanted(k) == Shown(HasCategoryFlag(source, c), CategoryFlagIn(target, c), all)
  }

  lemma SameIndexSameCoordinate(c: Coordinate, d: Coordinate)
    requires InRegion(c) && InRegion(d) && RegionIndex(c) == RegionIndex(d)
    ensures c == d
  {
    CoordinateOfIndex(c);
    CoordinateOfIndex(d);
  }

  lemma TrueCategories(entry: nat -> Comparison<Coordinate>, wanted: nat -> bool, source: Bytes, target: Option<Bytes>,
                       all: bool)
    requires IsSlot(source) && (target.Some? ==> IsSlot(target.value))
    requires forall k :: 0 <= k < RegionBits() ==> TrueEntry(entry, wanted, source, target, all, k)
    ensures TrueOfCategories(Wanted(entry, wanted, RegionBits()), source, target, all)
  {
    var r, ks := Wanted(entry, wanted, RegionBits()), WantedBelow(wanted, RegionBits());
    WantedEntries(entry, wanted, RegionBits());
    WantedAscend(wanted, RegionBits());
    forall i | 0 <= i < |r|
      ensures r[i] == entry(ks[i]) && InRegion(r[i].at) && RegionIndex(r[i].at) == ks[i]
      ensures Tells(r[i], HasCategoryFlag(source, r[i].at), CategoryFlagIn(target, r[i].at))
      ensures Shown(HasCategoryFlag(source, r[i].at), CategoryFlagIn(target, r[i].at), all)
    {
      assert ks[i] in ks && TrueEntry(entry, wanted, source, target, all, ks[i]);
    }
    forall c | InRegion(c) && Shown(HasCategoryFlag(source, c), CategoryFlagIn(target, c), all)
      ensures exists i :: 0 <= i < |r| && r[i].at == c
    {
      var k := RegionIndex(c);
      CoordinateOfIndex(c);
      assert TrueEntry(entry, wanted, source, target, all, k);
      SameIndexSameCoordinate(c, entry(k).at);
      var i :| 0 <= i < |ks| && ks[i] == k;
      assert r[i].at == c;
    }
  }

  /** Entry `k` tells the truth about flag `ids[k]`, which is wanted exactly when it is to be shown. */
  ghost predicate TrueFlag(entry: nat -> Comparison<nat>, wanted: nat -> bool, source: Bytes, target: Option<Bytes>,
                           all: bool, ids: seq<nat>, k: nat)
    requires k < |ids| && KnownEvents(ids) && IsSlot(source) && (target.Some? ==> IsSlot(target.value))
  {
    && entry(k).at == ids[k] && Tells(entry(k), HasFlag(source, ids[k]), FlagIn(target, ids[k]))
    && wanted(k) == Shown(HasFlag(source, ids[k]), FlagIn(target, ids[k]), all)
  }

  lemma TrueFlags(entry: nat -> Comparison<nat>, wanted: nat -> bool, source: Bytes, target: Option<Bytes>, all: bool,
                  ids: seq<nat>)
    requires KnownEvents(ids) && IsSlot(source) && (target.Some? ==> IsSlot(target.value))
    requires forall k :: 0 <= k < |ids| ==> TrueFlag(entry, wanted, source, target, all, ids, k)
    ensures TrueOfFlags(Wanted(entry, wanted, |ids|), source, target, all, ids)
  {
    var r, ks := Wanted(entry, wanted, |ids|), WantedBelow(wanted, |ids|);
    WantedEntries(entry, wanted, |ids|);
    WantedAscend(wanted, |ids|);
    forall e | e in r
      ensures e.at in ids && e.at < 928 && Tells(e, HasFlag(source, e.at), FlagIn(target, e.at))
        && Shown(HasFlag(source, e.at), FlagIn(target, e.at), all)
    {
      var i :| 0 <= i < |r| && r[i] == e;
      assert ks[i] in ks && TrueFlag(entry, wanted, source, target, all, ids, ks[i]);
    }
    forall k | 0 <= k < |ids| && Shown(HasFlag(source, ids[k]), FlagIn(target, ids[k]), all)
      ensures exists e :: e in r && e.at == ids[k]
    {
      assert TrueFlag(entry, wanted, source, target, all, ids, k) && k in ks;
      var i :| 0 <= i < |ks| && ks[i] == k;
      assert r[i] in r && r[i].at == ids[k];
    }
  }

  lemma SimpleFlagsMeaning(save: Bytes, ids: seq<nat>)
    requires IsSlot(save) && KnownEvents(ids)
    ensures forall k :: 0 <= k < |ids| ==> SimpleFlags(save, ids)(k) == HasFlag(save, ids[k])
  {
    forall k | 0 <= k < |ids| ensures SimpleFlags(save, ids)(k) == HasFlag(save, ids[k]) {
      FlagMeaning(save, ids[k]);
    }
  }

  lemma CategoriesOfSnapshot(save: Bytes, includeUnset: bool)
    requires IsSlot(save)
    ensures forall e :: e in Listing(CoordinateOf, CategoryFlags(save), RegionBits(), includeUnset) <==>
      InRegion(e.at) && e.isSet == HasCategoryFlag(save, e.at) && (includeUnset || e.isSet)
  {
    var bit, listed := CategoryFlags(save), Listing(CoordinateOf, CategoryFlags(save), RegionBits(), includeUnset);
    ListingMembers(CoordinateOf, bit, RegionBits(), includeUnset);
    forall e: EventState<Coordinate> |
      InRegion(e.at) && e.isSet == HasCategoryFlag(save, e.at) && (includeUnset || e.isSet)
      ensures e in listed
    {
      var k := RegionIndex(e.at);
      CoordinateOfIndex(e.at);
      CategoryFlagMeaning(save, k);
      assert e == EventState(CoordinateOf(k), bit(k));
    }
    forall e | e in listed
      ensures InRegion(e.at) && e.isSet == HasCategoryFlag(save, e.at) && (includeUnset || e.isSet)
    {
      var k :| 0 <= k < RegionBits() && (includeUnset || bit(k)) && e == EventState(CoordinateOf(k), bit(k));
      CategoryFlagMeaning(save, k);
    }
  }

  lemma FlagsReported(source: Bytes, target: Option<Bytes>, all: bool, ids: seq<nat>, simple: seq<Comparison<nat>>)
    requires KnownEvents(ids) && IsSlot(source) && (target.Some? ==> IsSlot(target.value))
    requires match target
      case Some(save) =>
        ComparesFlags(simple, IdAt(ids), SimpleFlags(source, ids), SimpleFlags(save, ids), |ids|, all)
      case None => ListsFlags(simple, IdAt(ids), SimpleFlags(source, ids), |ids|, all)
    ensures TrueOfFlags(simple, source, target, all, ids)
  {
    var flag := SimpleFlags(source, ids);
    SimpleFlagsMeaning(source, ids);
    match target {
      case Some(save) =>
        SimpleFlagsMeaning(save, ids);
        var other := SimpleFlags(save, ids);
        TrueFlags(OfTwo(IdAt(ids), flag, other), Either(flag, other, all), source, target, all, ids);
      case None =>
        TrueFlags(OfOne(IdAt(ids), flag), Either(flag, flag, all), source, target, all, ids);
    }
  }

  lemma CategoriesCompared(source: Bytes, save: Bytes, all: bool, categorized: seq<Comparison<Coordinate>>)
    requires IsSlot(source) && IsSlot(save)
    requires ComparesFlags(categorized, CoordinateOf, CategoryFlags(source), CategoryFlags(save), RegionBits(), all)
    ensures TrueOfCategories(categorized, source, Some(save), all)
  {
    var flag, other := CategoryFlags(source), CategoryFlags(save);
    var entry, wanted := OfTwo(CoordinateOf, flag, other), Either(flag, other, all);
    forall k | 0 <= k < RegionBits() ensures TrueEntry(entry, wanted, source, Some(save), all, k) {
      CoordinateMeaning(k);
      CategoryFlagMeaning(source, k);
      CategoryFlagMeaning(save, k);
    }
    TrueCategories(entry, wanted, source, Some(save), all);
  }

  lemma CategoriesListed(source: Bytes, all: bool, categorized: seq<Comparison<Coordinate>>)
    requires IsSlot(source)
    requires ListsFlags(categorized, CoordinateOf, CategoryFlags(source), RegionBits(), all)
    ensures TrueOfCategories(categorized, source, None, all)
  {
    var flag := CategoryFlags(source);
    var entry, wanted := OfOne(CoordinateOf, flag), Either(flag, flag, all);
    forall k | 0 <= k < RegionBits() ensures TrueEntry(entry, wanted, source, None, all, k) {
      CoordinateMeaning(k);
      CategoryFlagMeaning(source, k);
    }
    TrueCategories(entry, wanted, source, None, all);
  }

  lemma FlagsOfSnapshot(save: Bytes, ids: seq<nat>, includeUnset: bool)
    requires KnownEvents(ids) && IsSlot(save)
    ensures forall e :: e in Listing(IdAt(ids), SimpleFlags(save, ids), |ids|, includeUnset) <==>
      e.at in ids && e.at < 928 && e.isSet == HasFlag(save, e.at) && (includeUnset || e.isSet)
  {
    var flag, listed := SimpleFlags(save, ids), Listing(IdAt(ids), SimpleFlags(save, ids), |ids|, includeUnset);
    ListingMembers(IdAt(ids), flag, |ids|, includeUnset);
    SimpleFlagsMeaning(save, ids);
    forall e: EventState<nat> |
      e.at in ids && e.at < 928 && e.isSet == HasFlag(save, e.at) && (includeUnset || e.isSet)
      ensures e in listed
    {
      var k :| 0 <= k < |ids| && ids[k] == e.at;
      assert e == EventState(IdAt(ids)(k), flag(k));
    }
    forall e | e in listed
      ensures e.at in ids && e.at < 928 && e.isSet == HasFlag(save, e.at) && (includeUnset || e.isSet)
    {
      var k :| 0 <= k < |ids| && (includeUnset || flag(k)) && e == EventState(IdAt(ids)(k), flag(k));
    }
  }

  /** What a snapshot says is true of the bytes of the save: exactly the catalogued flags and bits that are set, or all
      of them, each with its state. */
  lemma SnapshotIsTrue(save: Bytes, ids: seq<nat>, includeUnset: bool)
    requires KnownEvents(ids) && IsSlot(save)
    ensures var snapshot := SnapshotOf(save, ids, includeUnset).value;
      && (forall e :: e in snapshot.simple <==>
        e.at in ids && e.at < 928 && e.isSet == HasFlag(save, e.at) && (includeUnset || e.isSet))
      && forall e :: e in snapshot.categorized <==>
        InRegion(e.at) && e.isSet == HasCategoryFlag(save, e.at) && (includeUnset || e.isSet)
  {
    SnapshotListings(save, ids, includeUnset);
    FlagsOfSnapshot(save, ids, includeUnset);
    CategoriesOfSnapshot(save, includeUnset);
  }

  /** What a report says is true of the bytes of the saves. */
  lemma ReportIsTrue(report: EventReport, source: Bytes, target: Option<Bytes>, all: bool, ids: seq<nat>)
    requires KnownEvents(ids) && IsSlot(source) && (target.Some? ==> IsSlot(target.value))
    requires ReportsOn(report, source, target, all, ids)
    ensures TrueOfFlags(report.simple, source, target, all, ids)
    ensures TrueOfCategories(report.categorized, source, target, all)
  {
    FlagsReported(source, target, all, ids, report.simple);
    match target {
      case Some(save) => CategoriesCompared(source, save, all, report.categorized);
      case None => CategoriesListed(source, all, report.categorized);
    }
  }

  method InspectEvents(source: Bytes, target: Option<Bytes>, all: bool, ids: seq<nat>) returns (r: Option<EventReport>)
    requires KnownEvents(ids)
    ensures r.Some? <==> IsSlot(source) && (target.Some? ==> IsSlot(target.value))
    ensures r.Some? ==> ReportsOn(r.value, source, target, all, ids)
    ensures r.Some? ==> TrueOfFlags(r.value.simple, source, target, all, ids)
    ensures r.Some? ==> TrueOfCategories(r.value.categorized, source, target, all)
  {
    var compareAll := all || target.Some?;
    var sourceEvents := TakeSnapshot(source, ids, compareAll);
    if sourceEvents.None? {
      return None;
    }
    var targetEvents := None;
    if target.Some? {
      targetEvents := TakeSnapshot(target.value, ids, true);
      if targetEvents.None? {
        return None;
      }
      TwoSavesReported(source, target.value, all, ids);
    } else {
      OneSaveReported(source, all, ids);
    }
    var report := CompareSnapshots(sourceEvents.value, targetEvents, all);
    ReportIsTrue(report, source, target, all, ids);
    return Some(report);
  }
}
