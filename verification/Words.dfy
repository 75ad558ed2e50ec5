/** Words of two and four bytes in either byte order. */
module Words {
  import opened Base

  function BigEndian32(w: bv32): (r: Bytes)
    ensures |r| == 4
  {
    [((w >> 24) & 0xFF) as Byte, ((w >> 16) & 0xFF) as Byte, ((w >> 8) & 0xFF) as Byte, (w & 0xFF) as Byte]
  }

  function LittleEndian32(w: bv32): (r: Bytes)
    ensures |r| == 4
  {
    [(w & 0xFF) as Byte, ((w >> 8) & 0xFF) as Byte, ((w >> 16) & 0xFF) as Byte, ((w >> 24) & 0xFF) as Byte]
  }

  /** The word whose bytes are, from the least significant one up, `p`, `q`, `r` and `s`. */
  function Word32(p: Byte, q: Byte, r: Byte, s: Byte): bv32 {
    (p as bv32) | (q as bv32 << 8) | (r as bv32 << 16) | (s as bv32 << 24)
  }

  lemma BytesOfWord32(w: bv32)
    ensures Word32(BigEndian32(w)[3], BigEndian32(w)[2], BigEndian32(w)[1], BigEndian32(w)[0]) == w
    ensures Word32(LittleEndian32(w)[0], LittleEndian32(w)[1], LittleEndian32(w)[2], LittleEndian32(w)[3]) == w
  {
  }

  lemma Word32OfBytes(p: Byte, q: Byte, r: Byte, s: Byte)
    ensures LittleEndian32(Word32(p, q, r, s)) == [p, q, r, s]
    ensures BigEndian32(Word32(p, q, r, s)) == [s, r, q, p]
  {
  }

  lemma BigEndian32Injective(v: bv32, w: bv32)
    requires BigEndian32(v) == BigEndian32(w)
    ensures v == w
  {
    BytesOfWord32(v);
    BytesOfWord32(w);
  }

  function BigEndian16(h: bv16): (r: Bytes)
    ensures |r| == 2
  {
    [((h >> 8) & 0xFF) as Byte, (h & 0xFF) as Byte]
  }

  /** The half word whose lower byte is `p` and whose upper one is `q`. */
  function Word16(p: Byte, q: Byte): bv16 { (p as bv16) | (q as bv16 << 8) }

  /** The word stored least significant byte first. */
  function LittleWord(b: Bytes, at: nat): bv32
    requires at + 4 <= |b|
  {
    Word32(b[at], b[at + 1], b[at + 2], b[at + 3])
  }

  /** The word stored most significant byte first. */
  function BigWord(b: Bytes, at: nat): bv32
    requires at + 4 <= |b|
  {
    Word32(b[at + 3], b[at + 2], b[at + 1], b[at])
  }

  /** A size or offset stored least significant byte first. */
  function LittleSize(b: Bytes, at: nat): nat
    requires at + 4 <= |b|
  {
    LittleWord(b, at) as nat
  }

  // ---------------------------------------------------------------- bits

  predicate ByteBit(b: Byte, k: nat)
    requires k < 8
  {
    b & (1 << k) != 0
  }

  predicate HalfBit(h: bv16, k: nat)
    requires k < 16
  {
    h & (1 << k) != 0
  }

  predicate WordBit(w: bv32, k: nat)
    requires k < 32
  {
    w & (1 << k) != 0
  }

  lemma BitsOfHalf(p: Byte, q: Byte, k: nat)
    requires k < 8
    ensures HalfBit(Word16(p, q), k) == ByteBit(p, k) && HalfBit(Word16(p, q), 8 + k) == ByteBit(q, k)
  {
  }

  lemma LowBitsOfWord(p: Byte, q: Byte, r: Byte, s: Byte, k: nat)
    requires k < 8
    ensures WordBit(Word32(p, q, r, s), k) == ByteBit(p, k) && WordBit(Word32(p, q, r, s), 8 + k) == ByteBit(q, k)
  {
  }

  lemma HighBitsOfWord(p: Byte, q: Byte, r: Byte, s: Byte, k: nat)
    requires k < 8
    ensures WordBit(Word32(p, q, r, s), 16 + k) == ByteBit(r, k)
    ensures WordBit(Word32(p, q, r, s), 24 + k) == ByteBit(s, k)
  {
  }

  lemma BitsOfWord32(p: Byte, q: Byte, r: Byte, s: Byte, k: nat)
    requires k < 32
    ensures WordBit(Word32(p, q, r, s), k) == ByteBit([p, q, r, s][k / 8], k % 8)
  {
    if k < 16 {
      LowBitsOfWord(p, q, r, s, if k < 8 then k else k - 8);
    } else {
      HighBitsOfWord(p, q, r, s, if k < 24 then k - 16 else k - 24);
    }
  }

  /** Bit `k` of a word is bit `k % 8` of its byte `k / 8`, counted from the end the byte order says. */
  lemma BitsOfWord(b: Bytes, at: nat, k: nat)
    requires at + 4 <= |b| && k < 32
    ensures WordBit(LittleWord(b, at), k) == ByteBit(b[at + k / 8], k % 8)
    ensures WordBit(BigWord(b, at), k) == ByteBit(b[at + 3 - k / 8], k % 8)
  {
    BitsOfWord32(b[at], b[at + 1], b[at + 2], b[at + 3], k);
    BitsOfWord32(b[at + 3], b[at + 2], b[at + 1], b[at], k);
    assert k / 8 < 4;
  }
}
