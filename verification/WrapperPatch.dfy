/** The compatibility wrapper's patches of user saves, guild cards and mailbox messages. */
module WrapperPatch {
  import opened Base
  import opened Words
  import opened StagedPatch
  import CecPlan

  // ---------------------------------------------------------------- the two cell operations

  function RotateLeft17(v: bv32): bv32 { (v << 17) | (v >> 15) }

  function RotateRight17(v: bv32): bv32 { (v >> 17) | (v << 15) }

  /** A packed arena time: read little-endian, rotated left by 17 bits, stored big-endian. */
  function Arena(cell: Bytes): (r: Bytes)
    ensures |r| == |cell|
  {
    if |cell| == 4 then BigEndian32(RotateLeft17(Word32(cell[0], cell[1], cell[2], cell[3]))) else cell
  }

  function ArenaBack(cell: Bytes): (r: Bytes)
    ensures |r| == |cell|
  {
    if |cell| == 4 then LittleEndian32(RotateRight17(Word32(cell[3], cell[2], cell[1], cell[0]))) else cell
  }

  lemma RotationsInvert(v: bv32)
    ensures RotateRight17(RotateLeft17(v)) == v && RotateLeft17(RotateRight17(v)) == v
  {
  }

  lemma ArenaUndone(cell: Bytes, v: bv32)
    requires |cell| == 4 && v == Word32(cell[0], cell[1], cell[2], cell[3])
    ensures ArenaBack(Arena(cell)) == cell
  {
    BytesOfWord32(RotateLeft17(v));
    RotationsInvert(v);
    Word32OfBytes(cell[0], cell[1], cell[2], cell[3]);
  }

  lemma ArenaRedone(cell: Bytes, v: bv32)
    requires |cell| == 4 && v == Word32(cell[3], cell[2], cell[1], cell[0])
    ensures Arena(ArenaBack(cell)) == cell
  {
    BytesOfWord32(RotateRight17(v));
    RotationsInvert(v);
    Word32OfBytes(cell[3], cell[2], cell[1], cell[0]);
  }

  /** The arena conversion loses nothing: on four-byte rows it has an inverse on both sides. */
  lemma ArenaIsBijective(cell: Bytes)
    requires |cell| == 4
    ensures ArenaBack(Arena(cell)) == cell && Arena(ArenaBack(cell)) == cell
  {
    ArenaUndone(cell, Word32(cell[0], cell[1], cell[2], cell[3]));
    ArenaRedone(cell, Word32(cell[3], cell[2], cell[1], cell[0]));
  }

  function Swapped(h: bv16): bv16 { (h << 8) | (h >> 8) }

  /** The converter's own form of the conversion: two big-endian 16-bit lanes, each byte-swapped and shifted left,
      the bits shifted out crossing over. */
  function ArenaLanes(first: bv16, second: bv16): (bv16, bv16) {
    var a, b := Swapped(first), Swapped(second);
    ((a << 1) | (b >> 15), (b << 1) | (a >> 15))
  }

  lemma LaneBytes(p: Byte, q: Byte, r: Byte, s: Byte)
    ensures var (first, second) := ArenaLanes(Word16(q, p), Word16(s, r));
      BigEndian32(RotateLeft17(Word32(p, q, r, s)))
      == [BigEndian16(first)[0], BigEndian16(first)[1], BigEndian16(second)[0], BigEndian16(second)[1]]
  {
  }

  /** The wrapper's rotation and the converter's two linked lanes are the same function. */
  lemma LanesAreARotation(p: Byte, q: Byte, r: Byte, s: Byte)
    ensures var (first, second) := ArenaLanes(Word16(q, p), Word16(s, r));
      BigEndian16(first) + BigEndian16(second) == Arena([p, q, r, s])
  {
    LaneBytes(p, q, r, s);
  }

  function Swap(cell: Bytes): (r: Bytes)
    ensures |r| == |cell|
  {
    if |cell| == 2 then [cell[1], cell[0]] else cell
  }

  method Swap2(b: array<Byte>, at: nat)
    requires at + 2 <= b.Length
    modifies b
    ensures b[..] == Splice(old(b[..]), at, Swap(old(b[at..at + 2])))
  {
    var t := b[at];
    b[at] := b[at + 1];
    b[at + 1] := t;
  }

  method Arena4(b: array<Byte>, at: nat)
    requires at + 4 <= b.Length
    modifies b
    ensures b[..] == Splice(old(b[..]), at, Arena(old(b[at..at + 4])))
  {
    ghost var was, cell := b[..], b[at..at + 4];
    var v := RotateLeft17(Word32(b[at], b[at + 1], b[at + 2], b[at + 3]));
    var bytes := BigEndian32(v);
    assert Arena(cell) == bytes;
    b[at], b[at + 1], b[at + 2], b[at + 3] := bytes[0], bytes[1], bytes[2], bytes[3];
    assert b[..] == Splice(was, at, bytes);
  }

  // ---------------------------------------------------------------- guild cards

  const ROWS: nat := 110
  const CARD_SLOTS: nat := 98
  const CARD_FILE_SIZE: nat := 0x58000

  function CardCells(): nat { CARD_SLOTS * ROWS }

  /** Where the row with a key lies, `base` bytes into the file. */
  function RowPlace(base: nat, key: nat): nat { base + key / ROWS * 0xE00 + 0x9B4 + key % ROWS * 4 }

  function KeyAt(place: nat): int { place / 0xE00 * ROWS + (place % 0xE00 - 0x9B4) / 4 }

  function RowPatch(base: nat): Patch { Patch(k => RowPlace(base, k), 4, Arena) }

  lemma RowsAscend(base: nat, j: nat, k: nat)
    requires j < k
    ensures RowPlace(base, j) + 4 <= RowPlace(base, k)
  {
    assert j / ROWS <= k / ROWS;
    assert j == j / ROWS * ROWS + j % ROWS && k == k / ROWS * ROWS + k % ROWS;
  }

  lemma RowPatchIsSound(base: nat, slots: nat, size: nat)
    requires base + slots * 0xE00 <= size
    ensures Sound(RowPatch(base), slots * ROWS, size)
  {
    var p := RowPatch(base);
    forall k | 0 <= k < slots * ROWS ensures p.place(k) + p.width <= size {
      assert k / ROWS < slots;
    }
    forall j, k | 0 <= j < k < slots * ROWS ensures p.place(j) + p.width <= p.place(k) {
      RowsAscend(base, j, k);
    }
  }

  lemma KeyParts(slot: nat, row: nat)
    requires row < ROWS
    ensures (slot * ROWS + row) / ROWS == slot && (slot * ROWS + row) % ROWS == row
  {
  }

  lemma PlaceParts(slot: nat, row: nat)
    requires row < ROWS
    ensures (slot * 0xE00 + (0x9B4 + row * 4)) / 0xE00 == slot
      && (slot * 0xE00 + (0x9B4 + row * 4)) % 0xE00 == 0x9B4 + row * 4
  {
  }

  /** Slot and row, key, and place in the card table determine each other. */
  lemma KeysAndPlacesInvert(slot: nat, row: nat, place: nat)
    ensures row < ROWS ==> (slot * ROWS + row) / ROWS == slot && (slot * ROWS + row) % ROWS == row
    ensures row < ROWS ==> KeyAt(RowPlace(0, slot * ROWS + row)) == slot * ROWS + row
    ensures place % 0xE00 >= 0x9B4 && (place % 0xE00 - 0x9B4) % 4 == 0 && (place % 0xE00 - 0x9B4) / 4 < ROWS ==>
      KeyAt(place) >= 0 && RowPlace(0, KeyAt(place)) == place
  {
    if row < ROWS {
      KeyParts(slot, row);
      PlaceParts(slot, row);
    }
    if place % 0xE00 >= 0x9B4 && (place % 0xE00 - 0x9B4) % 4 == 0 && (place % 0xE00 - 0x9B4) / 4 < ROWS {
      KeyParts(place / 0xE00, (place % 0xE00 - 0x9B4) / 4);
    }
  }

  /** A row of arena times, turned: read least significant byte first, rotated left by 17 bits, and stored most
      significant byte first. */
  predicate Turned(was: Bytes, now: Bytes, at: nat)
    requires at + 4 <= |was| && at + 4 <= |now|
  {
    var v := Word32(was[at], was[at + 1], was[at + 2], was[at + 3]);
    Word32(now[at + 3], now[at + 2], now[at + 1], now[at]) == (v << 17) | (v >> 15)
  }

  /** Byte `i` lies in one of the rows of `slots` guild cards packed from `base` on. */
  predicate InRows(base: nat, slots: nat, i: nat) {
    i >= base && (i - base) / 0xE00 < slots && 0x9B4 <= (i - base) % 0xE00 < 0x9B4 + 110 * 4
  }

  /** The row is turned or, where it is known, left alone. */
  predicate RowTurned(was: Bytes, now: Bytes, at: nat, known: bool)
    requires at + 4 <= |was| && at + 4 <= |now|
  {
    if known then now[at..at + 4] == was[at..at + 4] else Turned(was, now, at)
  }

  /** Every row is turned or, where it is known, left alone; every other byte stays. */
  ghost predicate RowsTurned(was: Bytes, now: Bytes, base: nat, slots: nat, known: (nat, nat) -> bool) {
    && |now| == |was| && base + slots * 0xE00 <= |was|
    && (forall slot, row :: 0 <= slot < slots && 0 <= row < 110 ==>
      RowTurned(was, now, base + slot * 0xE00 + 0x9B4 + row * 4, known(slot, row)))
    && forall i :: 0 <= i < |was| && !InRows(base, slots, i) ==> now[i] == was[i]
  }

  lemma ArenaTurns(cell: Bytes, turned: Bytes)
    requires |cell| == 4 && turned == Arena(cell)
    ensures Turned(cell, turned, 0)
  {
    BytesOfWord32(RotateLeft17(Word32(cell[0], cell[1], cell[2], cell[3])));
  }

  lemma TurnedElsewhere(was: Bytes, now: Bytes, at: nat, cell: Bytes, turned: Bytes)
    requires at + 4 <= |was| && at + 4 <= |now| && |cell| == 4 && |turned| == 4
    requires forall i :: 0 <= i < 4 ==> cell[i] == was[at + i] && turned[i] == now[at + i]
    ensures Turned(was, now, at) == Turned(cell, turned, 0)
  {
  }

  lemma TurnedCell(was: Bytes, now: Bytes, at: nat)
    requires at + 4 <= |was| && at + 4 <= |now| && now[at..at + 4] == Arena(was[at..at + 4])
    ensures Turned(was, now, at)
  {
    ArenaTurns(was[at..at + 4], now[at..at + 4]);
    TurnedElsewhere(was, now, at, was[at..at + 4], now[at..at + 4]);
  }

  lemma SlotParts(slot: nat, rest: nat)
    requires rest < 0xE00
    ensures (slot * 0xE00 + rest) / 0xE00 == slot && (slot * 0xE00 + rest) % 0xE00 == rest
  {
  }

  lemma CellInRows(base: nat, slots: nat, k: nat, i: nat)
    requires k < slots * ROWS && InCell(RowPatch(base), k, i)
    ensures InRows(base, slots, i)
  {
    var slot, row := k / ROWS, k % ROWS;
    var rest := i - base - slot * 0xE00;
    assert slot < slots && row < ROWS;
    assert RowPatch(base).place(k) == base + slot * 0xE00 + 0x9B4 + row * 4;
    SlotParts(slot, rest);
  }

  lemma RowMeaning(was: Bytes, now: Bytes, base: nat, slots: nat, slot: nat, row: nat, listed: nat -> bool)
    requires base + slots * 0xE00 <= |was| && |now| == |was| && slot < slots && row < ROWS
    requires var p, k := RowPatch(base), slot * ROWS + row;
      && p.place(k) + p.width <= |was|
      && Cell(p, now, k) == if listed(k) then Cell(p, was, k) else p.op(Cell(p, was, k))
    ensures RowTurned(was, now, base + slot * 0xE00 + 0x9B4 + row * 4, listed(slot * ROWS + row))
  {
    KeyParts(slot, row);
    var at := base + slot * 0xE00 + 0x9B4 + row * 4;
    assert RowPatch(base).place(slot * ROWS + row) == at;
    if !listed(slot * ROWS + row) {
      TurnedCell(was, now, at);
    }
  }

  lemma InsideRows(was: Bytes, base: nat, slots: nat, listed: nat -> bool, slot: nat, row: nat, known: bool)
    requires base + slots * 0xE00 <= |was| && slot < slots && row < ROWS
    requires listed(slot * ROWS + row) == known
    ensures RowTurned(was, PatchedBelow(RowPatch(base), was, listed, slots * ROWS),
      base + slot * 0xE00 + 0x9B4 + row * 4, known)
  {
    RowPatchIsSound(base, slots, |was|);
    PatchedCells(RowPatch(base), slots * ROWS, was, listed);
    assert slot * ROWS + row < slots * ROWS;
    RowMeaning(was, PatchedBelow(RowPatch(base), was, listed, slots * ROWS), base, slots, slot, row, listed);
  }

  lemma OutsideRows(was: Bytes, base: nat, slots: nat, listed: nat -> bool, i: nat)
    requires base + slots * 0xE00 <= |was| && i < |was| && !InRows(base, slots, i)
    ensures PatchedBelow(RowPatch(base), was, listed, slots * ROWS)[i] == was[i]
  {
    RowPatchIsSound(base, slots, |was|);
    PatchedCells(RowPatch(base), slots * ROWS, was, listed);
    forall k: nat | k < slots * ROWS ensures !InCell(RowPatch(base), k, i) {
      if InCell(RowPatch(base), k, i) {
        CellInRows(base, slots, k, i);
      }
    }
  }

  /** What the patch of the rows does to the bytes. */
  lemma RowsMeaning(was: Bytes, base: nat, slots: nat, listed: nat -> bool, known: (nat, nat) -> bool)
    requires base + slots * 0xE00 <= |was|
    requires forall slot: nat, row: nat :: slot < slots && row < ROWS ==> listed(slot * ROWS + row) == known(slot, row)
    ensures RowsTurned(was, PatchedBelow(RowPatch(base), was, listed, slots * ROWS), base, slots, known)
  {
    var now := PatchedBelow(RowPatch(base), was, listed, slots * ROWS);
    forall slot: nat, row: nat | slot < slots && row < 110
      ensures RowTurned(was, now, base + slot * 0xE00 + 0x9B4 + row * 4, known(slot, row))
    {
      assert listed(slot * ROWS + row) == known(slot, row);
      InsideRows(was, base, slots, listed, slot, row, known(slot, row));
    }
    forall i: nat | i < |was| && !InRows(base, slots, i) ensures now[i] == was[i] {
      OutsideRows(was, base, slots, listed, i);
    }
  }

  predicate Ascending(keys: seq<nat>) { forall i, j :: 0 <= i < j < |keys| ==> keys[i] < keys[j] }

  /** Binary search in a table of ascending keys. */
  method OldCardKey(keys: seq<nat>, k: nat) returns (found: bool)
    requires Ascending(keys)
    ensures found <==> k in keys
  {
    var lo, hi := 0, |keys| - 1;
    while lo <= hi
      invariant 0 <= lo <= |keys| && -1 <= hi < |keys|
      invariant forall i :: 0 <= i < lo ==> keys[i] < k
      invariant forall i :: hi < i < |keys| ==> keys[i] > k
      decreases hi - lo
    {
      var m := (lo + hi) / 2;
      var v := keys[m];
      if v == k {
        return true;
      }
      if v < k {
        lo := m + 1;
      } else {
        hi := m - 1;
      }
    }
    return false;
  }

  predicate HasUserMagic(b: Bytes) { |b| >= 4 && b[0] == 0x2B && b[1] == 0 && b[2] == 0 && b[3] == 0 }

  method PatchRow(b: array<Byte>, base: nat, slot: nat, row: nat)
    requires base + (slot + 1) * 0xE00 <= b.Length && row < ROWS
    modifies b
    ensures b[..] == ApplyOne(RowPatch(base), old(b[..]), slot * ROWS + row)
  {
    KeyParts(slot, row);
    assert RowPatch(base).place(slot * ROWS + row) == base + slot * 0xE00 + 0x9B4 + row * 4;
    Arena4(b, base + slot * 0xE00 + 0x9B4 + row * 4);
  }

  function Listed(keys: seq<nat>): nat -> bool { (k: nat) => k in keys }

  method PatchCardRow(b: array<Byte>, keys: seq<nat>, slot: nat, row: nat)
    requires Ascending(keys) && slot < CARD_SLOTS && row < ROWS && b.Length >= CARD_FILE_SIZE
    modifies b
    ensures b[..] == Step(RowPatch(4), Listed(keys), old(b[..]), slot * ROWS + row)
  {
    var inTable := OldCardKey(keys, slot * ROWS + row);
    if !inTable {
      PatchRow(b, 4, slot, row);
    }
  }

  method PatchCardRows(b: array<Byte>, keys: seq<nat>, ghost stage: nat -> Bytes)
    requires Ascending(keys) && b.Length >= CARD_FILE_SIZE
    requires b[..] == stage(0) && Advances(stage, RowPatch(4), Listed(keys))
    modifies b
    ensures b[..] == stage(CardCells())
  {
    for slot := 0 to CARD_SLOTS
      invariant b[..] == stage(slot * ROWS)
    {
      for row := 0 to ROWS
        invariant b[..] == stage(slot * ROWS + row)
      {
        PatchCardRow(b, keys, slot, row);
        assert b[..] == stage(slot * ROWS + row + 1);
      }
    }
  }

  /** Patches the rows of a guild-card file that the old converter's table misses. */
  method PatchCardFile(b: array<Byte>, keys: seq<nat>) returns (patched: bool)
    requires Ascending(keys)
    modifies b
    ensures patched <==> b.Length >= 0x58000 && HasUserMagic(old(b[..]))
    ensures !patched ==> b[..] == old(b[..])
    ensures patched ==> b[..] == PatchedBelow(RowPatch(4), old(b[..]), Listed(keys), CardCells())
    // Row `row` of card `slot` has the key 110 * slot + row.
    ensures patched ==> RowsTurned(old(b[..]), b[..], 4, 98, (slot, row) => slot * 110 + row in keys)
  {
    if b.Length < CARD_FILE_SIZE || b[0] != 0x2B || b[1] != 0 || b[2] != 0 || b[3] != 0 {
      return false;
    }
    RowsMeaning(b[..], 4, CARD_SLOTS, Listed(keys), (slot, row) => slot * 110 + row in keys);
    StagesAdvance(RowPatch(4), b[..], Listed(keys));
    PatchCardRows(b, keys, Stages(RowPatch(4), b[..], Listed(keys)));
    return true;
  }

  // ---------------------------------------------------------------- mailbox messages

  const MESSAGE_SLOTS: nat := 3

  function MessageCells(): nat { MESSAGE_SLOTS * ROWS }

  predicate OldCecRow(row: nat) {
    row <= 63 || row in {65, 70, 75, 76, 95, 105, 106, 107, 108}
  }

  /** The message holds a guild-card body behind its header and body prefix. */
  predicate HoldsCardBody(b: Bytes) {
    |b| >= 0x70 && b[0] == 0x60 && b[1] == 0x60
    && var hs, bs := LittleSize(b, 8), LittleSize(b, 12);
       hs >= 0x70 && bs >= 8 + 0x2A00 && hs + bs <= |b| && LittleWord(b, 16) == 0x00048100 && LittleWord(b, 20) == 0
       && hs + 8 + 3 * 0xE00 <= |b|
  }

  lemma MagicIsHalfWord(p: Byte, q: Byte)
    ensures Word16(p, q) == 0x6060 <==> p == 0x60 && q == 0x60
  {
  }

  /** The import's planner takes a message for a received card exactly when the wrapper does and, besides, the recorded
      length is the file's and the body is just a prefix and a record. */
  lemma PlannerAndWrapperAgree(b: Bytes)
    ensures CecPlan.IsCardMessage(b) <==>
      HoldsCardBody(b) && LittleSize(b, 4) == |b| && LittleSize(b, 12) == 8 + 0x2A00
  {
    if |b| >= 0x70 {
      MagicIsHalfWord(b[0], b[1]);
    }
  }

  function OldCecKey(): nat -> bool { (k: nat) => OldCecRow(k % ROWS) }

  method PatchCecRow(b: array<Byte>, rec: nat, slot: nat, row: nat)
    requires slot < MESSAGE_SLOTS && row < ROWS && rec + MESSAGE_SLOTS * 0xE00 <= b.Length
    modifies b
    ensures b[..] == Step(RowPatch(rec), OldCecKey(), old(b[..]), slot * ROWS + row)
  {
    KeyParts(slot, row);
    if !OldCecRow(row) {
      PatchRow(b, rec, slot, row);
    }
  }

  method PatchCecRows(b: array<Byte>, rec: nat, ghost stage: nat -> Bytes)
    requires rec + MESSAGE_SLOTS * 0xE00 <= b.Length
    requires b[..] == stage(0) && Advances(stage, RowPatch(rec), OldCecKey())
    modifies b
    ensures b[..] == stage(MessageCells())
  {
    for slot := 0 to MESSAGE_SLOTS
      invariant b[..] == stage(slot * ROWS)
    {
      for row := 0 to ROWS
        invariant b[..] == stage(slot * ROWS + row)
      {
        PatchCecRow(b, rec, slot, row);
        assert b[..] == stage(slot * ROWS + row + 1);
      }
    }
  }

  /** The rows of a mailbox record that the old converter's table holds. */
  ghost function OldRows(): (nat, nat) -> bool {
    (slot: nat, row: nat) => row < 64 || row in {65, 70, 75, 76, 95, 105, 106, 107, 108}
  }

  lemma MessageRows(was: Bytes, rec: nat)
    requires rec + MESSAGE_SLOTS * 0xE00 <= |was|
    ensures RowsTurned(was, PatchedBelow(RowPatch(rec), was, OldCecKey(), MessageCells()), rec, 3, OldRows())
  {
    forall slot: nat, row: nat | slot < MESSAGE_SLOTS && row < ROWS
      ensures OldCecKey()(slot * ROWS + row) == OldRows()(slot, row)
    {
      KeyParts(slot, row);
    }
    RowsMeaning(was, rec, MESSAGE_SLOTS, OldCecKey(), OldRows());
  }

  method PatchCecBody(b: array<Byte>, rec: nat)
    requires rec + MESSAGE_SLOTS * 0xE00 <= b.Length
    modifies b
    ensures b[..] == PatchedBelow(RowPatch(rec), old(b[..]), OldCecKey(), MessageCells())
    ensures RowsTurned(old(b[..]), b[..], rec, 3, OldRows())
  {
    MessageRows(b[..], rec);
    StagesAdvance(RowPatch(rec), b[..], OldCecKey());
    PatchCecRows(b, rec, Stages(RowPatch(rec), b[..], OldCecKey()));
  }

  /** Where the packed cards of a message start, if it holds any. */
  method FindCardBody(b: Bytes) returns (rec: Option<nat>)
    ensures rec.Some? <==> HoldsCardBody(b)
    ensures rec.Some? ==> rec.value == LittleWord(b, 8) as nat + 8 && rec.value + 3 * 0xE00 <= |b|
  {
    if |b| < 0x70 || b[0] != 0x60 || b[1] != 0x60 {
      return None;
    }
    var headerSize, bodySize := LittleSize(b, 8), LittleSize(b, 12);
    if headerSize < 0x70 || bodySize < 8 + 0x2A00 || headerSize + bodySize > |b|
      || LittleWord(b, 16) != 0x00048100 || LittleWord(b, 20) != 0 {
      return None;
    }
    if headerSize + 8 + 3 * 0xE00 > |b| {
      return None;
    }
    return Some(headerSize + 8);
  }

  /** Patches the rows the old converter misses in the three records of a mailbox message; any other file is
      left alone. */
  method PatchCecMessage(b: array<Byte>)
    modifies b
    ensures !HoldsCardBody(old(b[..])) ==> b[..] == old(b[..])
    ensures HoldsCardBody(old(b[..])) ==>
      b[..] == PatchedBelow(RowPatch(LittleSize(old(b[..]), 8) + 8), old(b[..]), OldCecKey(), MessageCells())
    ensures HoldsCardBody(old(b[..])) ==>
      RowsTurned(old(b[..]), b[..], LittleWord(old(b[..]), 8) as nat + 8, 3, OldRows())
  {
    var rec := FindCardBody(b[..]);
    if rec.Some? {
      PatchCecBody(b, rec.value);
    }
  }

  // ---------------------------------------------------------------- companion lanes of a user save

  const LANES: nat := 105
  const USER_FILE_SIZE: nat := 0x8A04

  function LaneCells(): nat { 2 * LANES }

  function LanePlace(k: nat): nat { 4 + 0x6F44 + k / LANES * 0x148 + 0x0C + k % LANES * 2 }

  function LanePatch(): Patch { Patch(LanePlace, 2, Swap) }

  const OLD_LANES_0: seq<nat> := [0x0C, 0x0E, 0x10, 0x14, 0x18, 0x1C]
  const OLD_LANES_1: seq<nat> := [0x0C, 0x0E, 0x12, 0x18, 0x1C, 0x24, 0x2C]

  predicate OldLane(companion: nat, rel: nat) { rel in if companion != 0 then OLD_LANES_1 else OLD_LANES_0 }

  lemma LanePatchIsSound(size: nat)
    requires size >= USER_FILE_SIZE
    ensures Sound(LanePatch(), LaneCells(), size)
  {
    var p := LanePatch();
    forall j, k | 0 <= j < k < LaneCells() ensures p.place(j) + p.width <= p.place(k) {
      assert j / LANES <= k / LANES;
      assert j == j / LANES * LANES + j % LANES && k == k / LANES * LANES + k % LANES;
    }
  }

  method OldShakaU16(companion: nat, rel: nat) returns (found: bool)
    ensures found <==> OldLane(companion, rel)
  {
    var a := if companion != 0 then OLD_LANES_1 else OLD_LANES_0;
    for i := 0 to |a|
      invariant forall k :: 0 <= k < i ==> a[k] != rel
    {
      if a[i] == rel {
        return true;
      }
    }
    return false;
  }

  lemma LaneParts(c: nat, lane: nat)
    requires lane < LANES
    ensures (c * LANES + lane) / LANES == c && (c * LANES + lane) % LANES == lane
  {
  }

  function OldLaneKey(): nat -> bool { (k: nat) => OldLane(k / LANES, 0x0C + k % LANES * 2) }

  method PatchLane(b: array<Byte>, c: nat, rel: nat, ghost lane: nat)
    requires b.Length >= USER_FILE_SIZE && c < 2 && lane < LANES && rel == 0x0C + lane * 2
    modifies b
    ensures b[..] == Step(LanePatch(), OldLaneKey(), old(b[..]), c * LANES + lane)
  {
    LaneParts(c, lane);
    var inTable := OldShakaU16(c, rel);
    if !inTable {
      assert LanePatch().place(c * LANES + lane) == 4 + 0x6F44 + c * 0x148 + rel;
      Swap2(b, 4 + 0x6F44 + c * 0x148 + rel);
    }
  }

  method PatchLanes(b: array<Byte>, ghost stage: nat -> Bytes)
    requires b.Length >= USER_FILE_SIZE
    requires b[..] == stage(0) && Advances(stage, LanePatch(), OldLaneKey())
    modifies b
    ensures b[..] == stage(LaneCells())
  {
    for c := 0 to 2
      invariant b[..] == stage(c * LANES)
    {
      var rel := 0x0C;
      ghost var lane := 0;
      while rel < 0xDE
        invariant lane <= LANES && rel == 0x0C + lane * 2
        invariant b[..] == stage(c * LANES + lane)
      {
        PatchLane(b, c, rel, lane);
        assert b[..] == stage(c * LANES + lane + 1);
        rel := rel + 2;
        lane := lane + 1;
      }
    }
  }

  /** The lanes of a companion that the old converter's table holds, by their distance from its start. */
  ghost function OldLanes(): (nat, nat) -> bool {
    (companion: nat, rel: nat) =>
      rel in if companion == 0 then {0x0C, 0x0E, 0x10, 0x14, 0x18, 0x1C} else {0x0C, 0x0E, 0x12, 0x18, 0x1C, 0x24, 0x2C}
  }

  /** The two bytes of the lane are exchanged or, where it is known, left alone. */
  predicate LaneSwapped(was: Bytes, now: Bytes, at: nat, known: bool)
    requires at + 2 <= |was| && at + 2 <= |now|
  {
    if known then now[at] == was[at] && now[at + 1] == was[at + 1] else now[at] == was[at + 1] && now[at + 1] == was[at]
  }

  /** Every lane of both companions is exchanged or known, and every other byte stays. */
  ghost predicate LanesSwapped(was: Bytes, now: Bytes, known: (nat, nat) -> bool) {
    && |now| == |was| && |was| >= 0x8A04
    && (forall c, lane :: 0 <= c < 2 && 0 <= lane < 105 ==>
      LaneSwapped(was, now, 0x6F54 + c * 0x148 + lane * 2, known(c, 0x0C + lane * 2)))
    && forall i :: 0 <= i < |was| && !(0x6F54 <= i < 0x7026) && !(0x709C <= i < 0x716E) ==> now[i] == was[i]
  }

  lemma SameLaneTable(c: nat, lane: nat)
    requires lane < LANES
    ensures OldLaneKey()(c * LANES + lane) == OldLanes()(c, 0x0C + lane * 2)
  {
    LaneParts(c, lane);
  }

  lemma LanePlaceAt(c: nat, lane: nat)
    requires lane < LANES
    ensures LanePlace(c * LANES + lane) == 0x6F54 + c * 0x148 + lane * 2
  {
    LaneParts(c, lane);
  }

  lemma SwappedCell(was: Bytes, now: Bytes, at: nat, known: bool)
    requires at + 2 <= |was| && at + 2 <= |now|
    requires now[at..at + 2] == if known then was[at..at + 2] else Swap(was[at..at + 2])
    ensures LaneSwapped(was, now, at, known)
  {
    assert now[at..at + 2][0] == now[at] && now[at..at + 2][1] == now[at + 1];
    assert was[at..at + 2][0] == was[at] && was[at..at + 2][1] == was[at + 1];
  }

  lemma LaneCellPatched(was: Bytes, listed: nat -> bool, k: nat, at: nat)
    requires |was| >= USER_FILE_SIZE && k < LaneCells() && at == LanePlace(k)
    ensures var now := PatchedBelow(LanePatch(), was, listed, LaneCells());
      && |now| == |was| && at + 2 <= |was|
      && now[at..at + 2] == if listed(k) then was[at..at + 2] else Swap(was[at..at + 2])
  {
    LanePatchIsSound(|was|);
    PatchedCellAt(LanePatch(), LaneCells(), was, listed, k, at);
  }

  lemma LaneMeaning(was: Bytes, listed: nat -> bool, c: nat, lane: nat, known: bool)
    requires |was| >= USER_FILE_SIZE && c < 2 && lane < LANES && listed(c * LANES + lane) == known
    ensures LaneSwapped(was, PatchedBelow(LanePatch(), was, listed, LaneCells()), 0x6F54 + c * 0x148 + lane * 2, known)
  {
    var k, at := c * LANES + lane, 0x6F54 + c * 0x148 + lane * 2;
    var now := PatchedBelow(LanePatch(), was, listed, LaneCells());
    LanePlaceAt(c, lane);
    assert k < LaneCells();
    LaneCellPatched(was, listed, k, at);
    assert now[at..at + 2] == if known then was[at..at + 2] else Swap(was[at..at + 2]);
    SwappedCell(was, now, at, known);
  }

  lemma LaneInside(k: nat, i: nat)
    requires k < LaneCells() && InCell(LanePatch(), k, i)
    ensures 0x6F54 <= i < 0x7026 || 0x709C <= i < 0x716E
  {
    if k < LANES {
      LanePlaceAt(0, k);
    } else {
      LanePlaceAt(1, k - LANES);
    }
  }

  lemma OutsideLanes(was: Bytes, listed: nat -> bool, i: nat)
    requires USER_FILE_SIZE <= |was| && i < |was| && !(0x6F54 <= i < 0x7026) && !(0x709C <= i < 0x716E)
    ensures PatchedBelow(LanePatch(), was, listed, LaneCells())[i] == was[i]
  {
    LanePatchIsSound(|was|);
    PatchedCells(LanePatch(), LaneCells(), was, listed);
    forall k: nat | k < LaneCells() ensures !InCell(LanePatch(), k, i) {
      if InCell(LanePatch(), k, i) {
        LaneInside(k, i);
      }
    }
  }

  /** What the patch of the lanes does to the bytes. */
  lemma LanesMeaning(was: Bytes, listed: nat -> bool, known: (nat, nat) -> bool)
    requires |was| >= USER_FILE_SIZE
    requires forall c: nat, lane: nat :: c < 2 && lane < LANES ==> listed(c * LANES + lane) == known(c, 0x0C + lane * 2)
    ensures LanesSwapped(was, PatchedBelow(LanePatch(), was, listed, LaneCells()), known)
  {
    var now := PatchedBelow(LanePatch(), was, listed, LaneCells());
    forall c: nat, lane: nat | c < 2 && lane < 105
      ensures LaneSwapped(was, now, 0x6F54 + c * 0x148 + lane * 2, known(c, 0x0C + lane * 2))
    {
      LaneMeaning(was, listed, c, lane, known(c, 0x0C + lane * 2));
    }
    forall i: nat | i < |was| && !(0x6F54 <= i < 0x7026) && !(0x709C <= i < 0x716E) ensures now[i] == was[i] {
      OutsideLanes(was, listed, i);
    }
  }

  lemma OldLanesMeaning(was: Bytes)
    requires |was| >= USER_FILE_SIZE
    ensures LanesSwapped(was, PatchedBelow(LanePatch(), was, OldLaneKey(), LaneCells()), OldLanes())
  {
    forall c: nat, lane: nat | c < 2 && lane < LANES
      ensures OldLaneKey()(c * LANES + lane) == OldLanes()(c, 0x0C + lane * 2)
    {
      SameLaneTable(c, lane);
    }
    LanesMeaning(was, OldLaneKey(), OldLanes());
  }

  /** Swaps the two-byte lanes of both companions that the old converter misses. */
  method PatchUserFile(b: array<Byte>) returns (patched: bool)
    modifies b
    ensures patched <==> b.Length >= 0x8A04 && HasUserMagic(old(b[..]))
    ensures !patched ==> b[..] == old(b[..])
    ensures patched ==> b[..] == PatchedBelow(LanePatch(), old(b[..]), OldLaneKey(), LaneCells())
    ensures patched ==> LanesSwapped(old(b[..]), b[..], OldLanes())
  {
    if b.Length < USER_FILE_SIZE || b[0] != 0x2B || b[1] != 0 || b[2] != 0 || b[3] != 0 {
      return false;
    }
    OldLanesMeaning(b[..]);
    StagesAdvance(LanePatch(), b[..], OldLaneKey());
    PatchLanes(b, Stages(LanePatch(), b[..], OldLaneKey()));
    return true;
  }

  // ---------------------------------------------------------------- staged and direct agree

  /** No cell is left out. */
  ghost function NoneKnown(): (nat, nat) -> bool { (x: nat, y: nat) => false }

  /** The wrapper's patch of `n` cells, and then the table's, in the given order of its keys. */
  function BothStages(p: Patch, n: nat, was: Bytes, known: nat -> bool, order: seq<nat>): Bytes {
    Apply(p, PatchedBelow(p, was, known, n), order)
  }

  lemma RowsOnce(was: Bytes, base: nat, slots: nat, known: nat -> bool, order: seq<nat>)
    requires base + slots * 0xE00 <= |was|
    requires Distinct(order) && forall k: nat :: k in order <==> k < slots * ROWS && known(k)
    ensures RowsTurned(was, BothStages(RowPatch(base), slots * ROWS, was, known, order), base, slots, NoneKnown())
  {
    RowPatchIsSound(base, slots, |was|);
    StagedEqualsDirect(RowPatch(base), slots * ROWS, was, known, order);
    DirectKnowsNone(RowPatch(base), slots * ROWS, was);
    RowsMeaning(was, base, slots, k => false, NoneKnown());
  }

  /** A guild-card file patched by the wrapper and then by the table, in any order of its keys, has all 98 x 110 rows
      turned exactly once and every other byte as it was. */
  lemma CardFileIsConverted(was: Bytes, keys: seq<nat>, order: seq<nat>)
    requires |was| >= CARD_FILE_SIZE
    requires Distinct(order) && forall k: nat :: k in order <==> k < CardCells() && k in keys
    ensures RowsTurned(was, BothStages(RowPatch(4), CardCells(), was, Listed(keys), order), 4, 98, NoneKnown())
  {
    RowsOnce(was, 4, CARD_SLOTS, Listed(keys), order);
  }

  /** Likewise the three records of a mailbox message. */
  lemma CardMessageIsConverted(was: Bytes, order: seq<nat>)
    requires HoldsCardBody(was)
    requires Distinct(order) && forall k: nat :: k in order <==> k < MessageCells() && OldCecRow(k % ROWS)
    ensures var rec := LittleSize(was, 8) + 8;
      RowsTurned(was, BothStages(RowPatch(rec), MessageCells(), was, OldCecKey(), order), rec, 3, NoneKnown())
  {
    RowsOnce(was, LittleSize(was, 8) + 8, MESSAGE_SLOTS, OldCecKey(), order);
  }

  /** And the two-byte lanes of both companions of a user save. */
  lemma UserFileIsConverted(was: Bytes, order: seq<nat>)
    requires |was| >= USER_FILE_SIZE
    requires Distinct(order) && forall k: nat :: k in order <==>
      k < LaneCells() && OldLane(k / LANES, 0x0C + k % LANES * 2)
    ensures LanesSwapped(was, BothStages(LanePatch(), LaneCells(), was, OldLaneKey(), order), NoneKnown())
  {
    LanePatchIsSound(|was|);
    StagedEqualsDirect(LanePatch(), LaneCells(), was, OldLaneKey(), order);
    DirectKnowsNone(LanePatch(), LaneCells(), was);
    LanesMeaning(was, k => false, NoneKnown());
  }
}
