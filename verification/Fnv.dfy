/** The FNV-1a hash: its shift-and-add form, and why no single-byte change can go unnoticed. */
module Fnv {
  import opened Arith
  import opened Bytes

  const FNV_PRIME: U32 := 0x0100_0193
  const FNV_INIT: U32 := 0x811C_9DC5
  const MODULUS: nat := 0x1_0000_0000

  /** Exclusive or of the low `bits` bits. */
  function Xor(bits: nat, a: nat, b: nat): (r: nat)
    ensures r <= Ones(bits)
  {
    if bits == 0 then 0 else (if a % 2 == b % 2 then 0 else 1) + 2 * Xor(bits - 1, a / 2, b / 2)
  }

  /** Bit `k` of a number. */
  function BitOf(x: nat, k: nat): bool {
    if k == 0 then x % 2 == 1 else BitOf(x / 2, k - 1)
  }

  /** Each result bit tells whether the operand bits differ. */
  lemma {:induction false} XorBit(bits: nat, a: nat, b: nat, k: nat)
    requires k < bits
    ensures BitOf(Xor(bits, a, b), k) <==> BitOf(a, k) != BitOf(b, k)
  {
    var rest := Xor(bits - 1, a / 2, b / 2);
    assert Xor(bits, a, b) / 2 == rest;
    if k != 0 {
      XorBit(bits - 1, a / 2, b / 2, k - 1);
    }
  }

  /** A byte changes the low byte alone. */
  lemma MixLow(h: U32, b: Byte)
    ensures Mix(h, b) / 256 == h / 256
  {
    Ones32();
    assert Ones(8) == 0xFF;
    XorHigh(32, 8, h, b);
    DivPow(h);
    DivPow(Mix(h, b));
  }

  /** `x` without its low `k` bits. */
  function Drop(x: nat, k: nat): nat {
    if k == 0 then x else Drop(x / 2, k - 1)
  }

  lemma {:induction false} DropTwo(x: nat, k: nat)
    ensures Drop(x, k + 2) == Drop(x / 4, k)
  {
    assert Drop(x, k + 2) == Drop(x / 2, k + 1) == Drop(x / 2 / 2, k);
  }

  lemma {:induction false} DivPow(x: nat)
    ensures Drop(x, 8) == x / 256
  {
    DropTwo(x, 6);
    DropTwo(x / 4, 4);
    DropTwo(x / 4 / 4, 2);
    DropTwo(x / 4 / 4 / 4, 0);
  }

  lemma {:induction false} XorHigh(bits: nat, k: nat, a: nat, b: nat)
    requires k <= bits && a <= Ones(bits) && b <= Ones(k)
    ensures Drop(Xor(bits, a, b), k) == Drop(a, k)
  {
    if k != 0 {
      XorHigh(bits - 1, k - 1, a / 2, b / 2);
      assert Xor(bits, a, b) / 2 == Xor(bits - 1, a / 2, b / 2);
    } else {
      XorZero(bits, a);
    }
  }

  lemma {:induction false} XorZero(bits: nat, a: nat)
    requires a <= Ones(bits)
    ensures Xor(bits, a, 0) == a
  {
    if bits != 0 {
      XorZero(bits - 1, a / 2);
    }
  }

  lemma {:induction false} XorUndo(bits: nat, a: nat, b: nat)
    requires a <= Ones(bits) && b <= Ones(bits)
    ensures Xor(bits, Xor(bits, a, b), b) == a && Xor(bits, a, Xor(bits, a, b)) == b
  {
    if bits != 0 {
      XorUndo(bits - 1, a / 2, b / 2);
      var r, rest := Xor(bits, a, b), Xor(bits - 1, a / 2, b / 2);
      assert r / 2 == rest && r % 2 == if a % 2 == b % 2 then 0 else 1;
    }
  }

  lemma Ones32()
    ensures Ones(32) == 0xFFFF_FFFF && Ones(24) == 0xFF_FFFF
  {
    assert Ones(8) == 0xFF;
    assert Ones(16) == 0xFFFF;
    assert Ones(24) == 0xFF_FFFF;
  }

  function Mix(h: U32, b: Byte): U32 {
    Ones32();
    Xor(32, h, b)
  }

  /** A mixed word gives back each of its parts from the other. */
  lemma {:induction false} MixUndo(h: U32, b: Byte)
    ensures Xor(32, Mix(h, b), b) == h && Xor(32, h, Mix(h, b)) == b
  {
    Ones32();
    XorUndo(32, h, b);
  }

  /** The hash in its multiply form. */
  function Fnv1a(h: U32, data: seq<Byte>): U32
    decreases |data|
  {
    if |data| == 0 then h else Fnv1a(Mul32(Mix(h, data[0]), FNV_PRIME), data[1..])
  }

  lemma XorNext(bits: nat, a: nat, b: nat, rest: nat)
    requires bits > 0 && Xor(bits - 1, a / 2, b / 2) == rest
    ensures Xor(bits, a, b) == (if a % 2 == b % 2 then 0 else 1) + 2 * rest
  {
  }

  lemma FirstMix()
    ensures Mix(0x811C_9DC5, 0x61) == 0x811C_9DA4
  {
    Ones32();
    hide Xor, Ones;
    XorZero(24, 0x81_1C9D);
    XorNext(25, 0x102393B, 0x0, 0x811C9D);
    XorNext(26, 0x2047277, 0x1, 0x102393B);
    XorNext(27, 0x408E4EE, 0x3, 0x2047276);
    XorNext(28, 0x811C9DC, 0x6, 0x408E4ED);
    XorNext(29, 0x102393B8, 0xC, 0x811C9DA);
    XorNext(30, 0x20472771, 0x18, 0x102393B4);
    XorNext(31, 0x408E4EE2, 0x30, 0x20472769);
    XorNext(32, 0x811C9DC5, 0x61, 0x408E4ED2);
  }

  lemma {:induction false} OneByte(h: U32, b: Byte)
    ensures Fnv1a(h, [b]) == Mul32(Mix(h, b), FNV_PRIME)
  {
    assert [b][1..] == [];
  }

  /** The published hashes of the empty text and of "a". */
  lemma KnownHashes()
    ensures Fnv1a(FNV_INIT, []) == 0x811C_9DC5 && Fnv1a(FNV_INIT, [0x61]) == 0xE40C_292C
  {
    hide Mix;
    FirstMix();
    OneByte(FNV_INIT, 0x61);
  }

  /** `h + (h<<1) + (h<<4) + (h<<7) + (h<<8) + (h<<24)` with every operation wrapping. */
  function ShiftAdd(h: U32): U32 {
    Add32(h, Add32(Add32(Add32(Add32(Mul32(h, 2), Mul32(h, 16)), Mul32(h, 128)), Mul32(h, 256)), Mul32(h, 0x100_0000)))
  }

  lemma PlusMul(h: U32, a: nat, b: nat)
    ensures Add32(Mul32(h, a), Mul32(h, b)) == Mul32(h, a + b)
  {
    var x, y := h * a, h * b;
    assert h * (a + b) == x + y;
    ModSum(x, y);
  }

  lemma ModSum(x: nat, y: nat)
    ensures (x % MODULUS + y % MODULUS) % MODULUS == (x + y) % MODULUS
  {
  }

  /** Shifting and adding is multiplying by the FNV prime. */
  lemma ShiftAddIsMultiply(h: U32)
    ensures ShiftAdd(h) == Mul32(h, FNV_PRIME)
  {
    hide Add32;
    PlusMul(h, 2, 16);
    PlusMul(h, 18, 128);
    PlusMul(h, 146, 256);
    PlusMul(h, 402, 0x100_0000);
    assert Mul32(h, 1) == h;
    PlusMul(h, 1, 402 + 0x100_0000);
  }

  /** The buffer loop, in either compiled form. */
  method FnvBuf(data: seq<Byte>, init: U32, shiftAdd: bool) returns (hval: U32)
    ensures hval == Fnv1a(init, data)
  {
    hval := init;
    var i: nat := 0;
    while i < |data|
      invariant i <= |data| && Fnv1a(init, data) == Fnv1a(hval, data[i..])
    {
      assert data[i..][1..] == data[i + 1..];
      hval := Mix(hval, data[i]);
      if shiftAdd {
        ShiftAddIsMultiply(hval);
        hval := ShiftAdd(hval);
      } else {
        hval := Mul32(hval, FNV_PRIME);
      }
      i := i + 1;
    }
  }

  lemma {:induction false} Concatenates(h: U32, a: seq<Byte>, b: seq<Byte>)
    ensures Fnv1a(h, a + b) == Fnv1a(Fnv1a(h, a), b)
    decreases |a|
  {
    if |a| == 0 {
      assert a + b == b;
    } else {
      assert (a + b)[1..] == a[1..] + b;
      Concatenates(Mul32(Mix(h, a[0]), FNV_PRIME), a[1..], b);
    }
  }

  const FNV_INVERSE: nat := 0x359C_449B

  /** The prime is odd, so the multiplication can be undone. */
  lemma MultiplyUndo(x: U32)
    ensures Mul32(Mul32(x, FNV_PRIME), FNV_INVERSE) == x
  {
    var q, r := x * FNV_PRIME / MODULUS, x * FNV_PRIME % MODULUS;
    assert FNV_PRIME * FNV_INVERSE == 3513497 * MODULUS + 1;
    assert r == x * FNV_PRIME - q * MODULUS;
    assert r * FNV_INVERSE == x * (FNV_PRIME * FNV_INVERSE) - q * FNV_INVERSE * MODULUS;
    assert r * FNV_INVERSE == (x * 3513497 - q * FNV_INVERSE) * MODULUS + x;
    DivUnique(x * 3513497 - q * FNV_INVERSE, MODULUS, x);
  }

  lemma {:induction false} StatesKeep(g: U32, h: U32, data: seq<Byte>)
    requires g != h
    ensures Fnv1a(g, data) != Fnv1a(h, data)
    decreases |data|
  {
    if |data| != 0 {
      MixUndo(g, data[0]);
      MixUndo(h, data[0]);
      MultiplyUndo(Mix(g, data[0]));
      MultiplyUndo(Mix(h, data[0]));
      StatesKeep(Mul32(Mix(g, data[0]), FNV_PRIME), Mul32(Mix(h, data[0]), FNV_PRIME), data[1..]);
    }
  }

  /** Words that differ in their low byte alone differ above it after a multiplication. */
  lemma MultiplySpreads(x: U32, y: U32)
    requires x / 256 == y / 256 && x != y
    ensures Mul32(x, FNV_PRIME) / 256 != Mul32(y, FNV_PRIME) / 256
  {
    if y < x {
      MultiplySpreads(y, x);
    } else {
      var d := y - x;
      assert 0 < d < 256;
      var p, q := Mul32(x, FNV_PRIME), Mul32(y, FNV_PRIME);
      MultiplyStep(x, d);
      assert q == p + d * FNV_PRIME || q == p + d * FNV_PRIME - MODULUS;
      assert FNV_PRIME <= d * FNV_PRIME <= 255 * FNV_PRIME;
    }
  }

  lemma MultiplyStep(x: U32, d: nat)
    requires x + d < MODULUS && d < 256
    ensures var p, q := Mul32(x, FNV_PRIME), Mul32(x + d, FNV_PRIME);
      q == p + d * FNV_PRIME || q == p + d * FNV_PRIME - MODULUS
  {
    var k, p := x * FNV_PRIME / MODULUS, x * FNV_PRIME % MODULUS;
    assert (x + d) * FNV_PRIME == k * MODULUS + (p + d * FNV_PRIME);
    assert d * FNV_PRIME < MODULUS;
    var r := p + d * FNV_PRIME;
    if r < MODULUS {
      DivUnique(k, MODULUS, r);
    } else {
      DivUnique(k + 1, MODULUS, r - MODULUS);
    }
  }

  /** Inputs that differ in two adjacent bytes never hash alike. */
  lemma {:induction false} AdjacentBytesChange(h: U32, p: seq<Byte>, a: seq<Byte>, b: seq<Byte>, s: seq<Byte>)
    requires |a| == |b| == 2 && a != b
    ensures Fnv1a(h, p + a + s) != Fnv1a(h, p + b + s)
  {
    var g := Fnv1a(h, p);
    Concatenates(h, p + a, s);
    Concatenates(h, p + b, s);
    Concatenates(h, p, a);
    Concatenates(h, p, b);
    PairDiffers(g, a, b);
    StatesKeep(Fnv1a(g, a), Fnv1a(g, b), s);
  }

  lemma {:induction false} PairDiffers(g: U32, a: seq<Byte>, b: seq<Byte>)
    requires |a| == |b| == 2 && a != b
    ensures Fnv1a(g, a) != Fnv1a(g, b)
  {
    hide Mix, Mul32;
    var x, y := Mul32(Mix(g, a[0]), FNV_PRIME), Mul32(Mix(g, b[0]), FNV_PRIME);
    assert a[1..] == [a[1]] && b[1..] == [b[1]] && [a[1]][1..] == [] && [b[1]][1..] == [];
    assert Fnv1a(g, a) == Fnv1a(x, [a[1]]) == Mul32(Mix(x, a[1]), FNV_PRIME);
    assert Fnv1a(g, b) == Fnv1a(y, [b[1]]) == Mul32(Mix(y, b[1]), FNV_PRIME);
    MixUndo(g, a[0]);
    MixUndo(g, b[0]);
    MixUndo(x, a[1]);
    MixUndo(y, b[1]);
    MultiplyUndo(Mix(x, a[1]));
    MultiplyUndo(Mix(y, b[1]));
    if a[0] != b[0] {
      MixLow(g, a[0]);
      MixLow(g, b[0]);
      MultiplySpreads(Mix(g, a[0]), Mix(g, b[0]));
      MixLow(x, a[1]);
      MixLow(y, b[1]);
    }
  }

  /** Inputs that differ in exactly one byte never hash alike. */
  lemma {:induction false} SingleByteChanges(h: U32, p: seq<Byte>, a: Byte, b: Byte, s: seq<Byte>)
    requires a != b
    ensures Fnv1a(h, p + [a] + s) != Fnv1a(h, p + [b] + s)
  {
    var g := Fnv1a(h, p);
    Concatenates(h, p + [a], s);
    Concatenates(h, p + [b], s);
    Concatenates(h, p, [a]);
    Concatenates(h, p, [b]);
    MixUndo(g, a);
    MixUndo(g, b);
    MultiplyUndo(Mix(g, a));
    MultiplyUndo(Mix(g, b));
    assert [a][1..] == [] && [b][1..] == [];
    StatesKeep(Fnv1a(g, [a]), Fnv1a(g, [b]), s);
  }
}
