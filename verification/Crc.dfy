/** The default CRC hooks, CRC-16 (polynomial 0x1021) and CRC-8 (polynomial 0x07), and what they detect.
    Machine words are bit sequences, most significant bit first. */
module Crc {

  type Word = seq<bool>

  const POLY16: Word := [false, false, false, true, false, false, false, false,
                         false, false, true, false, false, false, false, true]
  const POLY8: Word := [false, false, false, false, false, true, true, true]

  /** A byte of a message. */
  type Octet = w: Word | |w| == 8 witness [false, false, false, false, false, false, false, false]

  /** A generator polynomial whose lowest bit is set, at least one byte wide. */
  predicate OddPoly(p: Word) {
    |p| >= 8 && p[|p| - 1]
  }

  function Zeros(n: nat): (r: Word)
    ensures |r| == n && forall i :: 0 <= i < n ==> !r[i]
  {
    seq(n, _ => false)
  }

  function Xor(a: Word, b: Word): (r: Word)
    requires |a| == |b|
    ensures |r| == |a| && forall i :: 0 <= i < |r| ==> r[i] == (a[i] != b[i])
  {
    seq(|a|, i requires 0 <= i < |a| => a[i] != b[i])
  }

  function ShiftLeft(x: Word): (r: Word)
    requires |x| > 0
    ensures |r| == |x|
  {
    x[1..] + [false]
  }

  /** One bit step: shift, and mix in the polynomial when the top bit falls out. */
  function Step(p: Word, x: Word): (r: Word)
    requires |p| == |x| > 0
    ensures |r| == |x|
  {
    if x[0] then Xor(ShiftLeft(x), p) else ShiftLeft(x)
  }

  function Unstep(p: Word, y: Word): (r: Word)
    requires |p| == |y| > 0
    ensures |r| == |y|
  {
    var top := y[|y| - 1];
    [top] + Xor(y, if top then p else Zeros(|p|))[..|y| - 1]
  }

  /** With an odd polynomial the step can be undone. */
  lemma StepReverses(p: Word, x: Word)
    requires OddPoly(p) && |p| == |x|
    ensures Unstep(p, Step(p, x)) == x
  {
    var y := Step(p, x);
    assert y[|x| - 1] == x[0];
    forall i | 0 < i < |x|
      ensures Unstep(p, y)[i] == x[i]
    {
      assert ShiftLeft(x)[i - 1] == x[i];
    }
  }

  /** So distinct states stay distinct. */
  lemma StepInjective(p: Word, x: Word, y: Word)
    requires OddPoly(p) && |p| == |x| == |y| && x != y
    ensures Step(p, x) != Step(p, y)
  {
    StepReverses(p, x);
    StepReverses(p, y);
  }

  function Steps(p: Word, x: Word, n: nat): (r: Word)
    requires |p| == |x| > 0
    ensures |r| == |x|
    decreases n
  {
    if n == 0 then x else Steps(p, Step(p, x), n - 1)
  }

  lemma {:induction false} StepsInjective(p: Word, x: Word, y: Word, n: nat)
    requires OddPoly(p) && |p| == |x| == |y| && x != y
    ensures Steps(p, x, n) != Steps(p, y, n)
    decreases n
  {
    hide Step;
    if n != 0 {
      StepInjective(p, x, y);
      StepsInjective(p, Step(p, x), Step(p, y), n - 1);
    }
  }

  /** `d` aligned with the top of a `w`-bit word. */
  function Pad(d: Word, w: nat): (r: Word)
    requires |d| <= w
    ensures |r| == w
  {
    d + Zeros(w - |d|)
  }

  /** One message byte: mixed into the top of the state, then eight bit steps. */
  function ByteStep(p: Word, x: Word, d: Octet): (r: Word)
    requires |p| == |x| >= 8
    ensures |r| == |x|
  {
    Steps(p, Xor(x, Pad(d, |x|)), 8)
  }

  function Accumulated(p: Word, x: Word, data: seq<Octet>): (r: Word)
    requires |p| == |x| >= 8
    ensures |r| == |x|
    decreases |data|
  {
    if |data| == 0 then x else Accumulated(p, ByteStep(p, x, data[0]), data[1..])
  }

  /** The inner bit loop. */
  method MixByte(p: Word, crc: Word, d: Octet) returns (r: Word)
    requires |p| == |crc| >= 8
    ensures |r| == |crc| && r == ByteStep(p, crc, d)
  {
    hide Pad, Xor, ShiftLeft;
    r := Xor(crc, Pad(d, |crc|));
    var bit: nat := 0;
    while bit < 8
      invariant bit <= 8 && |r| == |p| && ByteStep(p, crc, d) == Steps(p, r, 8 - bit)
    {
      r := if r[0] then Xor(ShiftLeft(r), p) else ShiftLeft(r);
      bit := bit + 1;
    }
  }

  /** The accumulate routines, one byte after the other. */
  method Accumulate(p: Word, crc: Word, data: seq<Octet>) returns (r: Word)
    requires |p| == |crc| >= 8
    ensures |r| == |crc| && r == Accumulated(p, crc, data)
  {
    hide ByteStep;
    r := crc;
    if |data| == 0 {
      return;
    }
    var i: nat := 0;
    while i < |data|
      invariant i <= |data| && |r| == |p| && Accumulated(p, crc, data) == Accumulated(p, r, data[i..])
    {
      r := MixByte(p, r, data[i]);
      assert data[i..][1..] == data[i + 1..];
      i := i + 1;
    }
  }

  /** Accumulating the pieces of a message one after the other is accumulating the whole message. */
  lemma {:induction false} Concatenates(p: Word, x: Word, a: seq<Octet>, b: seq<Octet>)
    requires |p| == |x| >= 8
    ensures Accumulated(p, x, a + b) == Accumulated(p, Accumulated(p, x, a), b)
    decreases |a|
  {
    if |a| == 0 {
      assert a + b == b;
    } else {
      assert (a + b)[1..] == a[1..] + b;
      Concatenates(p, ByteStep(p, x, a[0]), a[1..], b);
    }
  }

  // ----- Bit by bit

  function BitStep(p: Word, x: Word, bit: bool): (r: Word)
    requires |p| == |x| > 0
    ensures |r| == |x|
  {
    Step(p, Xor(x, Pad([bit], |x|)))
  }

  function CrcBits(p: Word, x: Word, bits: seq<bool>): (r: Word)
    requires |p| == |x| > 0
    ensures |r| == |x|
    decreases |bits|
  {
    if |bits| == 0 then x else CrcBits(p, BitStep(p, x, bits[0]), bits[1..])
  }

  /** A word mixed in beforehand acts like its first bit now and the rest one step later. */
  lemma StepMix(p: Word, x: Word, d: Word)
    requires 0 < |d| <= |x| == |p|
    ensures Step(p, Xor(x, Pad(d, |x|))) == Xor(BitStep(p, x, d[0]), Pad(d[1..], |x|))
  {
    var w := |x|;
    var whole, first := Xor(x, Pad(d, w)), Xor(x, Pad([d[0]], w));
    assert whole[0] == first[0];
    forall i | 0 <= i < w
      ensures Step(p, whole)[i] == Xor(Step(p, first), Pad(d[1..], w))[i]
    {
      if i < w - 1 {
        assert ShiftLeft(whole)[i] == whole[i + 1] && ShiftLeft(first)[i] == first[i + 1];
        assert Pad(d[1..], w)[i] == Pad(d, w)[i + 1];
      }
    }
  }

  lemma {:induction false} BitsAsWord(p: Word, x: Word, d: Word)
    requires |d| <= |x| == |p| && |p| > 0
    ensures Steps(p, Xor(x, Pad(d, |x|)), |d|) == CrcBits(p, x, d)
    decreases |d|
  {
    if |d| == 0 {
      assert Xor(x, Pad(d, |x|)) == x;
    } else {
      StepMix(p, x, d);
      BitsAsWord(p, BitStep(p, x, d[0]), d[1..]);
    }
  }

  lemma {:induction false} BitsConcatenate(p: Word, x: Word, a: seq<bool>, b: seq<bool>)
    requires |p| == |x| > 0
    ensures CrcBits(p, x, a + b) == CrcBits(p, CrcBits(p, x, a), b)
    decreases |a|
  {
    if |a| == 0 {
      assert a + b == b;
    } else {
      assert (a + b)[1..] == a[1..] + b;
      BitsConcatenate(p, BitStep(p, x, a[0]), a[1..], b);
    }
  }

  function BitsOf(data: seq<Octet>): seq<bool> {
    if |data| == 0 then [] else data[0] + BitsOf(data[1..])
  }

  /** The byte-wise routine is the bit-serial CRC of the message bits. */
  lemma {:induction false} BytesAsBits(p: Word, x: Word, data: seq<Octet>)
    requires |p| == |x| >= 8
    ensures Accumulated(p, x, data) == CrcBits(p, x, BitsOf(data))
    decreases |data|
  {
    if |data| != 0 {
      BitsAsWord(p, x, data[0]);
      BitsConcatenate(p, x, data[0], BitsOf(data[1..]));
      BytesAsBits(p, ByteStep(p, x, data[0]), data[1..]);
    }
  }

  // ----- Detection

  lemma XorInjective(x: Word, a: Word, b: Word)
    requires |x| == |a| == |b| && a != b
    ensures Xor(x, a) != Xor(x, b)
  {
    var i :| 0 <= i < |a| && a[i] != b[i];
    assert Xor(x, a)[i] != Xor(x, b)[i];
  }

  lemma {:induction false} SuffixKeeps(p: Word, x: Word, y: Word, bits: seq<bool>)
    requires OddPoly(p) && |p| == |x| == |y| && x != y
    ensures CrcBits(p, x, bits) != CrcBits(p, y, bits)
    decreases |bits|
  {
    if |bits| != 0 {
      var w := Pad([bits[0]], |p|);
      XorInjective(w, x, y);
      assert Xor(w, x) == Xor(x, w) && Xor(w, y) == Xor(y, w);
      StepInjective(p, Xor(x, w), Xor(y, w));
      SuffixKeeps(p, BitStep(p, x, bits[0]), BitStep(p, y, bits[0]), bits[1..]);
    }
  }

  /** Distinct windows no wider than the state lead to distinct states. */
  lemma {:induction false} WindowKeeps(p: Word, s: Word, d: Word, d': Word)
    requires OddPoly(p) && |p| == |s| && |d| == |d'| <= |p| && d != d'
    ensures CrcBits(p, s, d) != CrcBits(p, s, d')
  {
    hide CrcBits, Steps;
    BitsAsWord(p, s, d);
    BitsAsWord(p, s, d');
    var i :| 0 <= i < |d| && d[i] != d'[i];
    assert Pad(d, |p|)[i] != Pad(d', |p|)[i];
    XorInjective(s, Pad(d, |p|), Pad(d', |p|));
    StepsInjective(p, Xor(s, Pad(d, |p|)), Xor(s, Pad(d', |p|)), |d|);
  }

  /** Burst detection: messages of any length that differ only within a window no wider than the CRC
      have different checksums. */
  lemma {:induction false} BurstDetected(p: Word, x: Word, prefix: seq<bool>, d: Word, d': Word, suffix: seq<bool>)
    requires OddPoly(p) && |p| == |x| && |d| == |d'| <= |p| && d != d'
    ensures CrcBits(p, x, prefix + d + suffix) != CrcBits(p, x, prefix + d' + suffix)
  {
    hide CrcBits;
    var s := CrcBits(p, x, prefix);
    BitsConcatenate(p, x, prefix, d);
    BitsConcatenate(p, x, prefix, d');
    BitsConcatenate(p, x, prefix + d, suffix);
    BitsConcatenate(p, x, prefix + d', suffix);
    WindowKeeps(p, s, d, d');
    SuffixKeeps(p, CrcBits(p, s, d), CrcBits(p, s, d'), suffix);
  }

  lemma {:induction false} BitsOfSplit(a: seq<Octet>, b: seq<Octet>)
    ensures BitsOf(a + b) == BitsOf(a) + BitsOf(b)
  {
    if |a| == 0 {
      assert a + b == b;
    } else {
      assert (a + b)[1..] == a[1..] + b;
      BitsOfSplit(a[1..], b);
    }
  }

  lemma {:induction false} BitsOfMiddle(a: seq<Octet>, m: seq<Octet>, b: seq<Octet>)
    ensures BitsOf(a + m + b) == BitsOf(a) + BitsOf(m) + BitsOf(b)
  {
    BitsOfSplit(a, m);
    BitsOfSplit(a + m, b);
  }

  /** CRC-16 changes on any corruption confined to two adjacent bytes. */
  lemma {:induction false} AdjacentBytesDetected(x: Word, p: seq<Octet>, a: Octet, b: Octet, a': Octet, b': Octet,
                                                 s: seq<Octet>)
    requires |x| == 16 && (a != a' || b != b')
    ensures Accumulated(POLY16, x, p + [a, b] + s) != Accumulated(POLY16, x, p + [a', b'] + s)
  {
    BytesAsBits(POLY16, x, p + [a, b] + s);
    BytesAsBits(POLY16, x, p + [a', b'] + s);
    BitsOfMiddle(p, [a, b], s);
    BitsOfMiddle(p, [a', b'], s);
    PairBits(a, b);
    PairBits(a', b');
    assert (a + b)[..8] == a && (a + b)[8..] == b;
    assert (a' + b')[..8] == a' && (a' + b')[8..] == b';
    BurstDetected(POLY16, x, BitsOf(p), a + b, a' + b', BitsOf(s));
  }

  lemma PairBits(a: Octet, b: Octet)
    ensures BitsOf([a, b]) == a + b && BitsOf([a]) == a
  {
    assert [a, b][1..] == [b] && [b][1..] == [] && [a][1..] == [];
    assert BitsOf([b]) == b + BitsOf([]);
    assert BitsOf([a, b]) == a + BitsOf([b]);
  }

  /** A CRC with an odd polynomial changes on any corruption of a single byte. */
  lemma {:induction false} OctetDetected(p: Word, x: Word, front: seq<Octet>, a: Octet, a': Octet, back: seq<Octet>)
    requires OddPoly(p) && |p| == |x| && a != a'
    ensures Accumulated(p, x, front + [a] + back) != Accumulated(p, x, front + [a'] + back)
  {
    hide Accumulated, BitsOf, CrcBits;
    BytesAsBits(p, x, front + [a] + back);
    BytesAsBits(p, x, front + [a'] + back);
    BitsOfMiddle(front, [a], back);
    BitsOfMiddle(front, [a'], back);
    PairBits(a, a);
    PairBits(a', a');
    BurstDetected(p, x, BitsOf(front), a, a', BitsOf(back));
  }

  /** So CRC-8 detects it. */
  lemma {:induction false} SingleByteDetected(x: Word, p: seq<Octet>, a: Octet, a': Octet, s: seq<Octet>)
    requires |x| == 8 && a != a'
    ensures Accumulated(POLY8, x, p + [a] + s) != Accumulated(POLY8, x, p + [a'] + s)
  {
    hide Accumulated;
    OctetDetected(POLY8, x, p, a, a', s);
  }
}
