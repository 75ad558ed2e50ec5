/** Save-file containers: the CRC-32 of a component's file name, the 40-byte Wii U header that
    carries it, and the checks that recognize a container. */
module Profile {
  import opened Base
  import opened Words

  const THREE_DS_SIZE: nat := 0x8A00
  const CEMU_SIZE: nat := 0x8A24
  const PAYLOAD_SIZE: nat := 0x89FC
  const JP_3DS_HEADER: Bytes := [0x2B, 0, 0, 0]
  const CEMU_HEADER_SIZE: nat := 40
  const U32_LIMIT: nat := 0x1_0000_0000
  const CARD_PAYLOAD_SIZE: nat := 0x57FFC
  const CARDBOX_PAYLOAD_SIZE: nat := 0x2FFFC
  const QUEST_PAYLOAD_SIZE: nat := 0x28FFC

  datatype HeaderError = NotAscii | LengthExceedsU32 | UnsupportedComponent

  // ---------------------------------------------------------------- CRC-32

  /** One reflected CRC-32 step. */
  function CrcBit(crc: bv32): bv32 {
    if crc & 1 == 0 then crc >> 1 else (crc >> 1) ^ 0xEDB88320
  }

  function CrcBits(crc: bv32, n: nat): bv32 {
    if n == 0 then crc else CrcBit(CrcBits(crc, n - 1))
  }

  function Absorb(crc: bv32, byte: Byte): bv32 {
    crc ^ (byte as bv32)
  }

  function BitsPerByte(): nat { 8 }

  /** The register after one more byte. */
  function CrcByte(crc: bv32, byte: Byte): bv32 {
    CrcBits(Absorb(crc, byte), BitsPerByte())
  }

  /** The register after `name` has been fed in, before the final complement. */
  function CrcRegister(name: Bytes): bv32 {
    if |name| == 0 then 0xFFFFFFFF
    else CrcByte(CrcRegister(name[..|name| - 1]), name[|name| - 1])
  }

  function Complemented(crc: bv32): bv32 {
    crc ^ 0xFFFFFFFF
  }

  function Crc32(name: Bytes): bv32 {
    Complemented(CrcRegister(name))
  }

  method FeedByte(crc: bv32, byte: Byte) returns (r: bv32)
    ensures r == CrcByte(crc, byte)
  {
    r := Absorb(crc, byte);
    ghost var start := r;
    for k := 0 to BitsPerByte()
      invariant r == CrcBits(start, k)
    {
      r := CrcBit(r);
    }
  }

  method ComputeCrc32(bytes: Bytes) returns (crc: bv32)
    ensures crc == Crc32(bytes)
  {
    crc := 0xFFFFFFFF;
    for i := 0 to |bytes|
      invariant crc == CrcRegister(bytes[..i])
    {
      assert bytes[..i + 1][..i] == bytes[..i];
      crc := FeedByte(crc, bytes[i]);
    }
    assert bytes[..|bytes|] == bytes;
    crc := Complemented(crc);
  }

  // ---------------------------------------------------------------- names are told apart

  /** Undoes one step: the polynomial's top bit tells which branch was taken. */
  function CrcUnbit(crc: bv32): bv32 {
    if crc & 0x80000000 == 0 then crc << 1 else ((crc ^ 0xEDB88320) << 1) | 1
  }

  lemma CrcBitUndone(x: bv32)
    ensures CrcUnbit(CrcBit(x)) == x
  {
  }

  lemma CrcBitInjective(x: bv32, y: bv32)
    requires x != y
    ensures CrcBit(x) != CrcBit(y)
  {
    CrcBitUndone(x);
    CrcBitUndone(y);
  }

  lemma {:induction false} CrcBitsInjective(x: bv32, y: bv32, n: nat)
    requires x != y
    ensures CrcBits(x, n) != CrcBits(y, n)
  {
    if n == 0 {
    } else {
      CrcBitsInjective(x, y, n - 1);
      CrcBitInjective(CrcBits(x, n - 1), CrcBits(y, n - 1));
    }
  }

  lemma WideningInjective(a: bv8, b: bv8)
    ensures a as bv32 == b as bv32 ==> a == b
  {
    assert (a as bv32) as bv8 == a;
    assert (b as bv32) as bv8 == b;
  }

  lemma XorKeepsRight(x: bv32, a: bv32, b: bv32)
    ensures x ^ a == x ^ b <==> a == b
  {
  }

  lemma XorKeepsLeft(x: bv32, y: bv32, a: bv32)
    ensures x ^ a == y ^ a <==> x == y
  {
  }

  lemma XorDiffers(x: bv32, y: bv32, a: bv32, b: bv32)
    requires (x == y) != (a == b)
    ensures x ^ a != y ^ b
  {
    if x == y {
      XorKeepsRight(x, a, b);
      assert y ^ b == x ^ b;
    } else {
      XorKeepsLeft(x, y, a);
      assert y ^ b == y ^ a;
    }
  }

  lemma AbsorbInjective(x: bv32, y: bv32, a: Byte, b: Byte)
    requires (x == y) != (a == b)
    ensures Absorb(x, a) != Absorb(y, b)
  {
    WideningInjective(a, b);
    XorDiffers(x, y, a as bv32, b as bv32);
  }

  /** The register after a byte differs if exactly one of register and byte differed before. */
  lemma CrcByteInjective(x: bv32, y: bv32, a: Byte, b: Byte)
    requires (x == y) != (a == b)
    ensures CrcByte(x, a) != CrcByte(y, b)
  {
    AbsorbInjective(x, y, a, b);
    CrcBitsInjective(Absorb(x, a), Absorb(y, b), BitsPerByte());
  }

  /** Two file names of one length that differ in exactly one byte never share a CRC-32. */
  lemma {:induction false} CrcSeparatesOneByteChange(a: Bytes, b: Bytes, at: nat)
    requires |a| == |b| && at < |a|
    requires a[at] != b[at]
    requires forall i :: 0 <= i < |a| && i != at ==> a[i] == b[i]
    ensures CrcRegister(a) != CrcRegister(b) && Crc32(a) != Crc32(b)
  {
    var n := |a| - 1;
    if at == n {
      assert a[..n] == b[..n];
    } else {
      CrcSeparatesOneByteChange(a[..n], b[..n], at);
    }
    CrcByteInjective(CrcRegister(a[..n]), CrcRegister(b[..n]), a[n], b[n]);
    XorDiffers(CrcRegister(a), CrcRegister(b), 0xFFFFFFFF, 0xFFFFFFFF);
  }

  // ---------------------------------------------------------------- headers

  predicate IsAscii(name: Bytes) {
    forall i :: 0 <= i < |name| ==> name[i] < 128
  }

  function HeaderPrefix(): (r: Bytes)
    ensures |r| == 20
  {
    BigEndian32(0) + BigEndian32(0) + BigEndian32(4) + BigEndian32(0) + BigEndian32(20)
  }

  function HeaderSuffix(total: nat): (r: Bytes)
    requires total < U32_LIMIT
    ensures |r| == 16
  {
    BigEndian32(12) + BigEndian32(total as bv32) + BigEndian32(0) + BigEndian32(0x2B)
  }

  /** Ten big-endian words; the sixth is the complemented CRC-32 of the file name. */
  function HeaderBytes(crc: bv32, total: nat): (r: Bytes)
    requires total < U32_LIMIT
    ensures |r| == CEMU_HEADER_SIZE
    ensures r[..20] == HeaderPrefix() && r[20..24] == BigEndian32(!crc) && r[24..] == HeaderSuffix(total)
  {
    HeaderPrefix() + BigEndian32(!crc) + HeaderSuffix(total)
  }

  function BuildJpCemuHeader(filename: Bytes, payloadSize: nat): (r: Result<Bytes, HeaderError>)
    ensures r.Ok? <==> IsAscii(filename) && payloadSize + 4 < U32_LIMIT
    ensures r.Ok? ==> |r.value| == CEMU_HEADER_SIZE
    ensures r.Ok? ==> r.value[..20] == HeaderPrefix() && r.value[24..] == HeaderSuffix(payloadSize + 4)
    ensures r.Ok? ==> r.value[20..24] == BigEndian32(!Crc32(filename))
  {
    if !IsAscii(filename) then Err(NotAscii)
    else if payloadSize + 4 >= U32_LIMIT then Err(LengthExceedsU32)
    else Ok(HeaderBytes(Crc32(filename), payloadSize + 4))
  }

  // ---------------------------------------------------------------- components

  datatype Component =
    | User1 | User2 | User3 | Card1 | Card2 | Card3 | Cardbox
    | Quest1 | Quest2 | Quest3 | Quest4 | OtherFile

  predicate IsUserSlot(c: Component) { c.User1? || c.User2? || c.User3? }
  predicate IsCard(c: Component) { c.Card1? || c.Card2? || c.Card3? }
  predicate IsQuest(c: Component) { c.Quest1? || c.Quest2? || c.Quest3? || c.Quest4? }
  predicate IsExternal(c: Component) { IsCard(c) || c.Cardbox? || IsQuest(c) }

  /** The ASCII bytes of the component's file name. */
  function FileName(c: Component): Bytes {
    match c
    case User1 => [117, 115, 101, 114, 49]
    case User2 => [117, 115, 101, 114, 50]
    case User3 => [117, 115, 101, 114, 51]
    case Card1 => [99, 97, 114, 100, 49]
    case Card2 => [99, 97, 114, 100, 50]
    case Card3 => [99, 97, 114, 100, 51]
    case Cardbox => [99, 97, 114, 100, 98, 111, 120]
    case Quest1 => [113, 117, 101, 115, 116, 49]
    case Quest2 => [113, 117, 101, 115, 116, 50]
    case Quest3 => [113, 117, 101, 115, 116, 51]
    case Quest4 => [113, 117, 101, 115, 116, 52]
    case OtherFile => []
  }

  function ExternalPayloadSize(c: Component): Option<nat> {
    if IsCard(c) then Some(CARD_PAYLOAD_SIZE)
    else if c.Cardbox? then Some(CARDBOX_PAYLOAD_SIZE)
    else if IsQuest(c) then Some(QUEST_PAYLOAD_SIZE)
    else None
  }

  /** `bytes` has exactly the container shape of the external component `c`. */
  predicate ValidExternal(bytes: Bytes, c: Component) {
    match ExternalPayloadSize(c)
    case None => false
    case Some(size) =>
      var header := BuildJpCemuHeader(FileName(c), size);
      header.Ok? && |bytes| == CEMU_HEADER_SIZE + size && bytes[..CEMU_HEADER_SIZE] == header.value
  }

  /** `bytes` is a Wii U character slot: right size and header, the checksum field left free. */
  predicate IsJpCemuSlot(bytes: Bytes) {
    |bytes| == CEMU_SIZE
    && bytes[..20] == HeaderPrefix()
    && bytes[24..40] == HeaderSuffix(THREE_DS_SIZE)
  }

  predicate IsJp3dsSlot(bytes: Bytes) {
    |bytes| == THREE_DS_SIZE && bytes[..4] == JP_3DS_HEADER
  }

  /** Components that share a payload size have names that differ in the last letter only. */
  lemma SiblingNames(c: Component, d: Component)
    requires IsExternal(c) && IsExternal(d) && c != d
    requires ExternalPayloadSize(c) == ExternalPayloadSize(d)
    ensures |FileName(c)| == |FileName(d)| > 0
    ensures FileName(c)[|FileName(c)| - 1] != FileName(d)[|FileName(d)| - 1]
    ensures forall i :: 0 <= i < |FileName(c)| - 1 ==> FileName(c)[i] == FileName(d)[i]
  {
  }

  lemma ComplementInjective(x: bv32, y: bv32)
    requires !x == !y
    ensures x == y
  {
  }

  lemma SameHeaderSameCrc(x: bv32, y: bv32, total: nat)
    requires total < U32_LIMIT
    requires HeaderBytes(x, total) == HeaderBytes(y, total)
    ensures x == y
  {
    BigEndian32Injective(!x, !y);
    ComplementInjective(x, y);
  }

  /** A container is valid for one external component only: a guild-card or quest file stored
      under a sibling's name is rejected even though every other byte is right. */
  lemma ExternalComponentsNeverAlias(bytes: Bytes, c: Component, d: Component)
    requires ValidExternal(bytes, c) && ValidExternal(bytes, d)
    ensures c == d
  {
    if c != d {
      assert ExternalPayloadSize(c) == ExternalPayloadSize(d);
      SiblingNames(c, d);
      SameHeaderSameCrc(Crc32(FileName(c)), Crc32(FileName(d)), ExternalPayloadSize(c).value + 4);
      CrcSeparatesOneByteChange(FileName(c), FileName(d), |FileName(c)| - 1);
    }
  }

  lemma HeaderPartsSurvive(header: Bytes, payload: Bytes)
    requires |header| == CEMU_HEADER_SIZE
    ensures (header + payload)[..20] == header[..20] && (header + payload)[24..40] == header[24..]
  {
  }

  /** Every slot header the converter builds is recognized, whatever the file name. */
  lemma BuiltSlotHeaderIsRecognized(filename: Bytes, payload: Bytes)
    requires IsAscii(filename) && |payload| == PAYLOAD_SIZE
    ensures IsJpCemuSlot(BuildJpCemuHeader(filename, PAYLOAD_SIZE).value + payload)
  {
    var header := BuildJpCemuHeader(filename, PAYLOAD_SIZE).value;
    HeaderPartsSurvive(header, payload);
  }

  lemma WordOfSize(w: bv32)
    ensures (w as nat) as bv32 == w
  {
  }

  lemma SizeWord()
    ensures BigEndian32(THREE_DS_SIZE as bv32) == [0, 0, 0x8A, 0]
  {
    var w: bv32 := 0x8A00;
    WordOfSize(w);
    assert w as nat == THREE_DS_SIZE;
  }

  lemma SlotHeaderWords()
    ensures HeaderPrefix() == [0, 0, 0, 0, 0, 0, 0, 0, 0, 0, 0, 4, 0, 0, 0, 0, 0, 0, 0, 20]
    ensures HeaderSuffix(THREE_DS_SIZE) == [0, 0, 0, 12, 0, 0, 0x8A, 0, 0, 0, 0, 0, 0, 0, 0, 0x2B]
  {
    SizeWord();
    assert BigEndian32(0) == [0, 0, 0, 0] && BigEndian32(4) == [0, 0, 0, 4] && BigEndian32(20) == [0, 0, 0, 20];
    assert BigEndian32(12) == [0, 0, 0, 12] && BigEndian32(0x2B) == [0, 0, 0, 0x2B];
  }

  /** The two forms of a character slot, by size and header bytes; the four checksum bytes of the Wii U header are free,
      and no file has both forms. */
  lemma SlotForms(bytes: Bytes)
    ensures IsJp3dsSlot(bytes) <==> |bytes| == 0x8A00 && bytes[..4] == [0x2B, 0, 0, 0]
    ensures IsJpCemuSlot(bytes) <==>
      |bytes| == 0x8A24 && bytes[..20] == [0, 0, 0, 0, 0, 0, 0, 0, 0, 0, 0, 4, 0, 0, 0, 0, 0, 0, 0, 20]
      && bytes[24..40] == [0, 0, 0, 12, 0, 0, 0x8A, 0, 0, 0, 0, 0, 0, 0, 0, 0x2B]
    ensures !IsJp3dsSlot(bytes) || !IsJpCemuSlot(bytes)
  {
    SlotHeaderWords();
  }

  lemma HeaderParts(header: Bytes, bytes: Bytes)
    requires |header| == CEMU_HEADER_SIZE && |bytes| >= CEMU_HEADER_SIZE
    ensures bytes[..40] == header <==>
      bytes[..20] == header[..20] && bytes[20..24] == header[20..24] && bytes[24..40] == header[24..]
  {
    var b := bytes[..40];
    assert b[..20] == bytes[..20] && b[20..24] == bytes[20..24] && b[24..] == bytes[24..40];
    assert b == b[..20] + b[20..24] + b[24..] && header == header[..20] + header[20..24] + header[24..];
  }

  lemma NamesAreAscii(c: Component)
    ensures IsAscii(FileName(c))
  {
  }

  lemma ExternalParts(bytes: Bytes, c: Component, size: nat)
    requires ExternalPayloadSize(c) == Some(size) && size + 4 < U32_LIMIT
    ensures ValidExternal(bytes, c) <==>
      |bytes| == 40 + size && bytes[..20] == HeaderPrefix()
      && bytes[20..24] == BigEndian32(!Crc32(FileName(c))) && bytes[24..40] == HeaderSuffix(size + 4)
  {
    var header := BuildJpCemuHeader(FileName(c), size);
    NamesAreAscii(c);
    if |bytes| == 40 + size {
      HeaderParts(header.value, bytes);
    }
  }

  function ExternalSize(c: Component): nat {
    if c in {Card1, Card2, Card3} then 0x57FFC else if c == Cardbox then 0x2FFFC else 0x28FFC
  }

  /** The form of an external component: its own size, and a header that holds the complemented checksum of its own
      file name and that size. */
  lemma ExternalForms(bytes: Bytes, c: Component)
    requires IsExternal(c)
    ensures ValidExternal(bytes, c) <==>
      |bytes| == 40 + ExternalSize(c) && bytes[..20] == [0, 0, 0, 0, 0, 0, 0, 0, 0, 0, 0, 4, 0, 0, 0, 0, 0, 0, 0, 20]
      && bytes[20..24] == BigEndian32(!Crc32(FileName(c))) && bytes[24..40] == HeaderSuffix(ExternalSize(c) + 4)
  {
    SlotHeaderWords();
    ExternalParts(bytes, c, ExternalSize(c));
  }
}
