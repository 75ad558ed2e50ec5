/** The checksum as section 8 of RFC 1952 writes it: one table entry per byte instead of eight steps. */
module CrcTable {
  import opened Base
  import opened Profile

  /** The table entry of `n`. */
  function TableEntry(n: bv32): bv32 {
    CrcBits(n, BitsPerByte())
  }

  function Xor(a: bv32, b: bv32): bv32 { a ^ b }

  function TableStep(crc: bv32, absorbed: bv32): bv32 {
    Xor(TableEntry(absorbed & 0xFF), crc >> 8)
  }

  function WithByte(crc: bv32, byte: Byte): bv32 {
    TableStep(crc, Absorb(crc, byte))
  }

  function UpdateCrc(crc: bv32, name: Bytes): bv32 {
    if |name| == 0 then crc
    else WithByte(UpdateCrc(crc, name[..|name| - 1]), name[|name| - 1])
  }

  function TableCrc(name: Bytes): bv32 {
    Complemented(UpdateCrc(0xFFFFFFFF, name))
  }

  // ---------------------------------------------------------------- repeated steps

  function Iterate<T>(step: T -> T, x: T, n: nat): T {
    if n == 0 then x else step(Iterate(step, x, n - 1))
  }

  lemma {:induction false} IterateAdds<T(!new)>(step: T -> T, add: (T, T) -> T, x: T, y: T, n: nat)
    requires forall a, b :: step(add(a, b)) == add(step(a), step(b))
    ensures Iterate(step, add(x, y), n) == add(Iterate(step, x, n), Iterate(step, y, n))
  {
    if n == 0 {
    } else {
      IterateAdds(step, add, x, y, n - 1);
    }
  }

  lemma EightSteps<T>(step: T -> T, s0: T, s1: T, s2: T, s3: T, s4: T, s5: T, s6: T, s7: T)
    requires step(s0) == s1 && step(s1) == s2 && step(s2) == s3 && step(s3) == s4
    requires step(s4) == s5 && step(s5) == s6 && step(s6) == s7
    ensures Iterate(step, s0, BitsPerByte()) == step(s7)
  {
    assert Iterate(step, s0, 0) == s0;
    assert Iterate(step, s0, 1) == s1;
    assert Iterate(step, s0, 2) == s2;
    assert Iterate(step, s0, 3) == s3;
    assert Iterate(step, s0, 4) == s4;
    assert Iterate(step, s0, 5) == s5;
    assert Iterate(step, s0, 6) == s6;
    assert Iterate(step, s0, 7) == s7;
  }

  lemma {:induction false} BitsAreIterated(crc: bv32, n: nat)
    ensures CrcBits(crc, n) == Iterate(CrcBit, crc, n)
  {
    if n == 0 {
    } else {
      BitsAreIterated(crc, n - 1);
    }
  }

  // ---------------------------------------------------------------- steps are linear

  lemma HalvesXor(x: bv32, y: bv32)
    ensures (x ^ y) >> 1 == (x >> 1) ^ (y >> 1) && (x ^ y) & 1 == (x & 1) ^ (y & 1)
    ensures x & 1 == 0 || x & 1 == 1
  {
  }

  lemma XorAcross(a: bv32, b: bv32, p: bv32)
    ensures (a ^ p) ^ b == (a ^ b) ^ p && a ^ (b ^ p) == (a ^ b) ^ p && (a ^ p) ^ (b ^ p) == a ^ b
  {
  }

  lemma StepIsLinear(x: bv32, y: bv32)
    ensures CrcBit(Xor(x, y)) == Xor(CrcBit(x), CrcBit(y))
  {
    HalvesXor(x, y);
    HalvesXor(y, x);
    XorAcross(x >> 1, y >> 1, 0xEDB88320);
  }

  lemma StepsAreLinear(x: bv32, y: bv32, n: nat)
    ensures CrcBits(Xor(x, y), n) == Xor(CrcBits(x, n), CrcBits(y, n))
  {
    forall a: bv32, b: bv32 ensures CrcBit(Xor(a, b)) == Xor(CrcBit(a), CrcBit(b)) {
      StepIsLinear(a, b);
    }
    IterateAdds(CrcBit, Xor, x, y, n);
    BitsAreIterated(Xor(x, y), n);
    BitsAreIterated(x, n);
    BitsAreIterated(y, n);
  }

  // ---------------------------------------------------------------- zero bits are only shifted out

  function Half(x: bv32): bv32 { x >> 1 }

  lemma HalfEven(x: bv32, mask: bv32)
    requires mask & 1 == 1 && x & mask == 0
    ensures x & 1 == 0 && Half(x) & Half(mask) == 0
  {
  }

  /** While the bits under the mask are zero, a step only shifts. */
  lemma EvenStep(x: bv32, mask: bv32)
    requires mask & 1 == 1 && x & mask == 0
    ensures CrcBit(x) == Half(x) && Half(x) & Half(mask) == 0
  {
    HalfEven(x, mask);
  }

  lemma EightHalves(x: bv32)
    ensures Half(Half(Half(Half(Half(Half(Half(Half(x)))))))) == x >> 8
  {
  }

  lemma EightEvenSteps(s0: bv32, s1: bv32, s2: bv32, s3: bv32, s4: bv32, s5: bv32, s6: bv32, s7: bv32)
    requires s0 & 0xFF == 0
    requires s1 == Half(s0) && s2 == Half(s1) && s3 == Half(s2) && s4 == Half(s3)
    requires s5 == Half(s4) && s6 == Half(s5) && s7 == Half(s6)
    ensures CrcBits(s0, BitsPerByte()) == Half(s7)
  {
    EvenStep(s0, 0xFF);
    EvenStep(s1, 0x7F);
    EvenStep(s2, 0x3F);
    EvenStep(s3, 0x1F);
    EvenStep(s4, 0xF);
    EvenStep(s5, 7);
    EvenStep(s6, 3);
    EvenStep(s7, 1);
    EightSteps(CrcBit, s0, s1, s2, s3, s4, s5, s6, s7);
    BitsAreIterated(s0, BitsPerByte());
  }

  lemma ZeroByteShifted(x: bv32)
    requires x & 0xFF == 0
    ensures CrcBits(x, BitsPerByte()) == x >> 8
  {
    EightHalves(x);
    var s1 := Half(x);
    var s2 := Half(s1);
    var s3 := Half(s2);
    var s4 := Half(s3);
    var s5 := Half(s4);
    var s6 := Half(s5);
    EightEvenSteps(x, s1, s2, s3, s4, s5, s6, Half(s6));
  }

  // ---------------------------------------------------------------- the table gives the same checksum

  /** What is absorbed changes the low byte only. */
  lemma Split(crc: bv32, b: bv32)
    requires b < 256
    ensures crc ^ b == Xor((crc ^ b) & 0xFF, crc & 0xFFFFFF00)
    ensures (crc & 0xFFFFFF00) & 0xFF == 0 && (crc & 0xFFFFFF00) >> 8 == crc >> 8
  {
  }

  lemma FromParts(x: bv32, low: bv32, high: bv32, shifted: bv32)
    requires x == Xor(low, high) && CrcBits(high, BitsPerByte()) == shifted
    ensures CrcBits(x, BitsPerByte()) == Xor(TableEntry(low), shifted)
  {
    StepsAreLinear(low, high, BitsPerByte());
  }

  lemma WordByTable(crc: bv32, b: bv32, absorbed: bv32)
    requires b < 256 && absorbed == crc ^ b
    ensures CrcBits(absorbed, BitsPerByte()) == TableStep(crc, absorbed)
  {
    Split(crc, b);
    ZeroByteShifted(crc & 0xFFFFFF00);
    FromParts(absorbed, absorbed & 0xFF, crc & 0xFFFFFF00, crc >> 8);
  }

  lemma Absorbed(crc: bv32, byte: Byte) returns (b: bv32)
    ensures b < 256 && Absorb(crc, byte) == crc ^ b
  {
    b := byte as bv32;
  }

  lemma ByteByTable(crc: bv32, byte: Byte)
    ensures CrcByte(crc, byte) == WithByte(crc, byte)
  {
    var b := Absorbed(crc, byte);
    WordByTable(crc, b, Absorb(crc, byte));
  }

  lemma {:induction false} RegisterByTable(name: Bytes)
    ensures CrcRegister(name) == UpdateCrc(0xFFFFFFFF, name)
  {
    if |name| == 0 {
    } else {
      var n := |name| - 1;
      RegisterByTable(name[..n]);
      ByteByTable(CrcRegister(name[..n]), name[n]);
    }
  }

  /** The bit-by-bit checksum is the table-driven one, for every name. */
  lemma ChecksumByTable(name: Bytes)
    ensures Crc32(name) == TableCrc(name)
  {
    RegisterByTable(name);
  }
}
