/** The CRC hooks on machine words: the same arithmetic as on bit sequences, and the published check values. */
module CrcWords {
  import opened Crc

  /** The single-bit masks of a 16-bit word, most significant first. */
  const MASKS: seq<bv16> := [0x8000, 0x4000, 0x2000, 0x1000, 0x0800, 0x0400, 0x0200, 0x0100,
                             0x0080, 0x0040, 0x0020, 0x0010, 0x0008, 0x0004, 0x0002, 0x0001]

  /** The bits of a 16-bit word, most significant first. */
  function Word16(b: bv16): (r: Word)
    ensures |r| == 16 && forall i :: 0 <= i < 16 ==> r[i] == (b & MASKS[i] != 0)
  {
    seq(16, i requires 0 <= i < 16 => b & MASKS[i] != 0)
  }

  /** The bits of a byte, most significant first. */
  function Word8(b: bv8): (r: Octet)
    ensures |r| == 8
  {
    Word16(b as bv16)[8..]
  }

  function Octets(data: seq<bv8>): (r: seq<Octet>)
    ensures |r| == |data|
  {
    seq(|data|, i requires 0 <= i < |data| => Word8(data[i]))
  }

  lemma MaskBits(i: nat)
    requires i < 16
    ensures MASKS[i] & (MASKS[i] - 1) == 0
    ensures i < 15 ==> MASKS[i] == MASKS[i + 1] << 1 && MASKS[i + 1] & 0x8000 == 0
    ensures i < 8 ==> MASKS[i] == MASKS[8 + i] << 8 && MASKS[8 + i] & 0xFF00 == 0
    ensures i >= 8 ==> MASKS[i] & 0xFF00 == 0
  {
    assert i in {0, 1, 2, 3, 4, 5, 6, 7, 8, 9, 10, 11, 12, 13, 14, 15};
  }

  lemma XorMask(a: bv16, b: bv16, m: bv16)
    requires m & (m - 1) == 0
    ensures (a ^ b) & m != 0 <==> (a & m != 0) != (b & m != 0)
  {
  }

  lemma ShiftMask(b: bv16, m: bv16)
    ensures m & 0x8000 == 0 ==> ((b << 1) & (m << 1) != 0 <==> b & m != 0)
    ensures m & 0xFF00 == 0 ==> ((b << 8) & (m << 8) != 0 <==> b & m != 0)
  {
  }

  lemma XorBits(a: bv16, b: bv16)
    ensures Xor(Word16(a), Word16(b)) == Word16(a ^ b)
  {
    forall i | 0 <= i < 16
      ensures Word16(a ^ b)[i] == (Word16(a)[i] != Word16(b)[i])
    {
      MaskBits(i);
      XorMask(a, b, MASKS[i]);
    }
  }

  lemma ShiftBit(b: bv16, i: nat)
    requires i < 16
    ensures ((b << 1) & MASKS[i] != 0) == (i < 15 && b & MASKS[i + 1] != 0)
  {
    if i < 15 {
      MaskBits(i);
      ShiftMask(b, MASKS[i + 1]);
    } else {
      LastBit(b);
    }
  }

  lemma LastBit(b: bv16)
    ensures (b << 1) & 0x0001 == 0
  {
  }

  lemma ShiftBits(b: bv16)
    ensures ShiftLeft(Word16(b)) == Word16(b << 1)
  {
    forall i | 0 <= i < 16
      ensures Word16(b << 1)[i] == ShiftLeft(Word16(b))[i]
    {
      ShiftBit(b, i);
    }
  }

  lemma PadBits(d: bv8)
    ensures Pad(Word8(d), 16) == Word16((d as bv16) << 8)
  {
    forall i | 0 <= i < 16
      ensures Word16((d as bv16) << 8)[i] == (i < 8 && Word8(d)[i])
    {
      MaskBits(i);
      assert i < 8 ==> Word8(d)[i] == Word16(d as bv16)[8 + i];
      if i < 8 {
        ShiftMask(d as bv16, MASKS[8 + i]);
      } else {
        LowByte(d as bv16, MASKS[i]);
      }
    }
  }

  lemma LowByte(b: bv16, m: bv16)
    requires m & 0xFF00 == 0
    ensures (b << 8) & m == 0
  {
  }

  // ----- CRC-16

  /** One bit of the inner loop on a 16-bit word. */
  function Shift16(crc: bv16): bv16 {
    if crc & 0x8000 != 0 then (crc << 1) ^ 0x1021 else crc << 1
  }

  /** The bit step on words is the bit step on their bits. */
  lemma Step16(crc: bv16)
    ensures Step(POLY16, Word16(crc)) == Word16(Shift16(crc))
  {
    hide Xor, ShiftLeft;
    ShiftBits(crc);
    assert POLY16 == Word16(0x1021);
    XorBits(crc << 1, 0x1021);
  }

  function Shifts16(crc: bv16, n: nat): bv16
    decreases n
  {
    if n == 0 then crc else Shifts16(Shift16(crc), n - 1)
  }

  lemma {:induction false} Steps16(crc: bv16, n: nat)
    ensures Steps(POLY16, Word16(crc), n) == Word16(Shifts16(crc, n))
    decreases n
  {
    hide Step, Shift16, Word16;
    if n != 0 {
      Step16(crc);
      Steps16(Shift16(crc), n - 1);
    }
  }

  /** The CRC-16 hook in 16-bit arithmetic. */
  function Crc16(crc: bv16, data: seq<bv8>): bv16
    decreases |data|
  {
    if |data| == 0 then crc else Crc16(Shifts16(crc ^ ((data[0] as bv16) << 8), 8), data[1..])
  }

  /** Its bits are those of the bit-sequence CRC. */
  lemma {:induction false} Crc16Bits(crc: bv16, data: seq<bv8>)
    ensures Word16(Crc16(crc, data)) == Accumulated(POLY16, Word16(crc), Octets(data))
    decreases |data|
  {
    hide Word16, Word8, Shifts16, Steps, Xor, Pad;
    if |data| != 0 {
      var m := Octets(data);
      var mixed := (data[0] as bv16) << 8;
      PadBits(data[0]);
      XorBits(crc, mixed);
      Steps16(crc ^ mixed, 8);
      assert m[1..] == Octets(data[1..]);
      Crc16Bits(Shifts16(crc ^ mixed, 8), data[1..]);
    }
  }

  /** The nine characters "123456789". */
  const DIGITS: seq<bv8> := [0x31, 0x32, 0x33, 0x34, 0x35, 0x36, 0x37, 0x38, 0x39]

  lemma {:induction false} Crc16Empty(crc: bv16)
    ensures Crc16(crc, []) == crc
  {
  }

  /** One digit: `mixed` is the word it gives with the accumulator, and `next` follows after eight shifts. */
  lemma Crc16Step(crc: bv16, k: nat, mixed: bv16, next: bv16)
    requires k < |DIGITS| && crc ^ ((DIGITS[k] as bv16) << 8) == mixed
    requires Shift16(Shift16(Shift16(Shift16(Shift16(Shift16(Shift16(Shift16(mixed)))))))) == next
    ensures Crc16(crc, DIGITS[k..]) == Crc16(next, DIGITS[k + 1..])
  {
    hide Shift16;
    assert Shifts16(mixed, 8) == Shifts16(Shift16(Shift16(Shift16(Shift16(mixed)))), 4);
    assert DIGITS[k..][1..] == DIGITS[k + 1..];
  }

  /** The published check value of CRC-16 with polynomial 0x1021 and initial value 0xFFFF. */
  lemma Crc16Check()
    ensures Crc16(0xFFFF, DIGITS) == 0x29B1
  {
    hide Crc16;
    assert DIGITS[0..] == DIGITS && DIGITS[9..] == [];
    Crc16Empty(0x29B1);
    Crc16Step(0xFFFF, 0, 0xCEFF, 0xC782);
    Crc16Step(0xC782, 1, 0xF582, 0x3DBA);
    Crc16Step(0x3DBA, 2, 0x0EBA, 0x5BCE);
    Crc16Step(0x5BCE, 3, 0x6FCE, 0x5349);
    Crc16Step(0x5349, 4, 0x6649, 0x4560);
    Crc16Step(0x4560, 5, 0x7360, 0x2EF4);
    Crc16Step(0x2EF4, 6, 0x19F4, 0x7718);
    Crc16Step(0x7718, 7, 0x4F18, 0xA12B);
    Crc16Step(0xA12B, 8, 0x982B, 0x29B1);
  }

  // ----- CRC-8

  /** One bit of the inner loop on a byte. */
  function Shift8(crc: bv8): bv8 {
    if crc & 0x80 != 0 then (crc << 1) ^ 0x07 else crc << 1
  }

  lemma Widen(a: bv8, b: bv8)
    ensures (a ^ b) as bv16 == (a as bv16) ^ (b as bv16)
    ensures (a << 1) as bv16 == ((a as bv16) << 1) & 0x00FF
    ensures (a & 0x80 != 0) == ((a as bv16) & 0x0080 != 0)
  {
  }

  lemma XorBytes(a: bv8, b: bv8)
    ensures Xor(Word8(a), Word8(b)) == Word8(a ^ b)
  {
    Widen(a, b);
    XorBits(a as bv16, b as bv16);
    var x, y := Word16(a as bv16), Word16(b as bv16);
    assert Xor(x[8..], y[8..]) == Xor(x, y)[8..];
  }

  lemma ShiftByte(b: bv8)
    ensures ShiftLeft(Word8(b)) == Word8(b << 1)
  {
    var w := b as bv16;
    Widen(b, b);
    ShiftBits(w);
    var x, y := Word16((w << 1) & 0x00FF), Word16(w << 1);
    forall i | 8 <= i < 16
      ensures x[i] == y[i]
    {
      MaskBits(i);
      LowMask(w << 1, MASKS[i]);
    }
    assert x[8..] == y[8..];
    assert ShiftLeft(Word16(w)[8..]) == ShiftLeft(Word16(w))[8..];
  }

  lemma LowMask(b: bv16, m: bv16)
    requires m & 0xFF00 == 0
    ensures (b & 0x00FF) & m == b & m
  {
  }

  lemma Step8(crc: bv8)
    ensures Step(POLY8, Word8(crc)) == Word8(Shift8(crc))
  {
    hide Xor, ShiftLeft;
    Widen(crc, crc);
    ShiftByte(crc);
    assert POLY8 == Word8(0x07);
    XorBytes(crc << 1, 0x07);
  }

  function Shifts8(crc: bv8, n: nat): bv8
    decreases n
  {
    if n == 0 then crc else Shifts8(Shift8(crc), n - 1)
  }

  lemma {:induction false} Steps8(crc: bv8, n: nat)
    ensures Steps(POLY8, Word8(crc), n) == Word8(Shifts8(crc, n))
    decreases n
  {
    hide Step, Shift8, Word8;
    if n != 0 {
      Step8(crc);
      Steps8(Shift8(crc), n - 1);
    }
  }

  /** The CRC-8 hook in 8-bit arithmetic. */
  function Crc8(crc: bv8, data: seq<bv8>): bv8
    decreases |data|
  {
    if |data| == 0 then crc else Crc8(Shifts8(crc ^ data[0], 8), data[1..])
  }

  /** Its bits are those of the bit-sequence CRC. */
  lemma {:induction false} Crc8Bits(crc: bv8, data: seq<bv8>)
    ensures Word8(Crc8(crc, data)) == Accumulated(POLY8, Word8(crc), Octets(data))
    decreases |data|
  {
    hide Word8, Shifts8, Steps, Xor;
    if |data| != 0 {
      var m := Octets(data);
      assert Pad(m[0], 8) == m[0];
      XorBytes(crc, data[0]);
      Steps8(crc ^ data[0], 8);
      assert m[1..] == Octets(data[1..]);
      Crc8Bits(Shifts8(crc ^ data[0], 8), data[1..]);
    }
  }

  lemma {:induction false} Crc8Empty(crc: bv8)
    ensures Crc8(crc, []) == crc
  {
  }

  lemma Crc8Step(crc: bv8, k: nat, mixed: bv8, next: bv8)
    requires k < |DIGITS| && crc ^ DIGITS[k] == mixed
    requires Shift8(Shift8(Shift8(Shift8(Shift8(Shift8(Shift8(Shift8(mixed)))))))) == next
    ensures Crc8(crc, DIGITS[k..]) == Crc8(next, DIGITS[k + 1..])
  {
    hide Shift8;
    assert Shifts8(mixed, 8) == Shifts8(Shift8(Shift8(Shift8(Shift8(mixed)))), 4);
    assert DIGITS[k..][1..] == DIGITS[k + 1..];
  }

  /** The published check value of CRC-8 with polynomial 0x07 and initial value 0. */
  lemma Crc8Check()
    ensures Crc8(0x00, DIGITS) == 0xF4
  {
    hide Crc8;
    assert DIGITS[0..] == DIGITS && DIGITS[9..] == [];
    Crc8Empty(0xF4);
    Crc8Step(0x00, 0, 0x31, 0x97);
    Crc8Step(0x97, 1, 0xA5, 0x72);
    Crc8Step(0x72, 2, 0x41, 0xC0);
    Crc8Step(0xC0, 3, 0xF4, 0xC2);
    Crc8Step(0xC2, 4, 0xF7, 0xCB);
    Crc8Step(0xCB, 5, 0xFD, 0xFD);
    Crc8Step(0xFD, 6, 0xCA, 0x78);
    Crc8Step(0x78, 7, 0x40, 0xC7);
    Crc8Step(0xC7, 8, 0xFE, 0xF4);
  }
}
