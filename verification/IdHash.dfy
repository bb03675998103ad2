/** The multiplicative ID hash: bucket widths chosen by the generator and by the C build, and how they relate. */
module IdHash {
  import opened Arith
  import opened Bytes

  const GOLDEN_RATIO_32: U32 := 0x61C8_8647

  function Pow2(n: nat): (r: nat)
    ensures r > 0
  {
    if n == 0 then 1 else 2 * Pow2(n - 1)
  }

  lemma {:induction false} PowAdd(a: nat, b: nat)
    ensures Pow2(a + b) == Pow2(a) * Pow2(b)
  {
    if b != 0 {
      PowAdd(a, b - 1);
      assert Pow2(a) * Pow2(b) == 2 * (Pow2(a) * Pow2(b - 1));
    }
  }

  lemma {:induction false} PowMono(a: nat, b: nat)
    requires a < b
    ensures Pow2(a) < Pow2(b)
  {
    if a < b - 1 {
      PowMono(a, b - 1);
    }
  }

  lemma DivDiv(x: nat, a: nat, b: nat)
    requires a > 0 && b > 0
    ensures a * b > 0 && x / (a * b) == (x / a) / b
  {
    var p := x / a;
    var q, r, s := p / b, p % b, x % a;
    assert x == (q * b + r) * a + s;
    assert (q * b + r) * a == q * (a * b) + r * a;
    MulMono(r, b - 1, a);
    assert (b - 1) * a == a * b - a;
    MulMono(1, a, b);
    DivUnique(q, a * b, r * a + s);
  }

  /** Bucket of an ID in a table of `2^bits` buckets: the top bits of a wrapping 32-bit product. */
  function HashId(value: nat, bits: nat): nat
    requires bits <= 32
  {
    Quotient(HashWord(value), Pow2(32 - bits))
  }

  function HashWord(value: nat): U32 {
    value * GOLDEN_RATIO_32 % 0x1_0000_0000
  }

  function Quotient(x: nat, m: nat): nat
    requires m > 0
  {
    x / m
  }

  /** The multiplication permutes the 32-bit words: multiplying by 0xEBB3_4377 undoes it. */
  lemma HashUndone(value: U32)
    ensures HashWord(value) * 0xEBB3_4377 % 0x1_0000_0000 == value
  {
    var p := value * 0x61C8_8647;
    var q, h := p / 0x1_0000_0000, p % 0x1_0000_0000;
    assert h * 0xEBB3_4377 == (value * 0x5A07_8C3E - q * 0xEBB3_4377) * 0x1_0000_0000 + value;
    DivUnique(value * 0x5A07_8C3E - q * 0xEBB3_4377, 0x1_0000_0000, value);
  }

  /** So different IDs fall into one bucket only because the table is narrower than the word. */
  lemma FullWidthInjective(a: U32, b: U32)
    requires a != b
    ensures HashId(a, 32) != HashId(b, 32)
  {
    HashUndone(a);
    HashUndone(b);
  }

  /** A narrower bucket is a prefix of the wider one. */
  lemma {:induction false} HashPrefix(value: nat, narrow: nat, wide: nat)
    requires narrow <= wide <= 32
    ensures HashId(value, narrow) == HashId(value, wide) / Pow2(wide - narrow)
  {
    PowAdd(32 - wide, wide - narrow);
    DivDiv(HashWord(value), Pow2(32 - wide), Pow2(wide - narrow));
  }

  lemma {:induction false} HashRange(value: nat, bits: nat)
    requires bits <= 32
    ensures HashId(value, bits) < Pow2(bits)
  {
    HashPrefix(value, 0, bits);
    PowAdd(0, 32);
    Pow32();
    var h := HashId(value, bits);
    assert HashId(value, 0) == 0;
    DivTimes(h, Pow2(bits));
    assert h / Pow2(bits) == 0;
  }

  lemma Pow32()
    ensures Pow2(32) == 0x1_0000_0000
  {
    assert Pow2(8) == 256;
    PowAdd(8, 8);
    PowAdd(16, 16);
  }

  /** Distinct buckets stay distinct in every wider table. */
  lemma CollisionFreeLifts(a: nat, b: nat, narrow: nat, wide: nat)
    requires narrow <= wide <= 32 && HashId(a, narrow) != HashId(b, narrow)
    ensures HashId(a, wide) != HashId(b, wide)
  {
    HashPrefix(a, narrow, wide);
    HashPrefix(b, narrow, wide);
  }

  // ----- Table widths

  /** Least width of at least `from` bits with room for `buckets`. */
  function BitsFrom(buckets: nat, from: nat): (r: nat)
    ensures r >= from && Pow2(r) >= buckets
    ensures r == from || Pow2(r - 1) < buckets
    decreases buckets - Pow2(from)
  {
    if Pow2(from) >= buckets then from else BitsFrom(buckets, from + 1)
  }

  lemma {:induction false} BitsMono(x: nat, y: nat)
    requires x <= y
    ensures BitsFrom(x, 1) <= BitsFrom(y, 1)
  {
    var least, bound := BitsFrom(x, 1), BitsFrom(y, 1);
    if bound < least {
      if bound < least - 1 {
        PowMono(bound, least - 1);
      }
    }
  }

  lemma {:induction false} BitsBound(buckets: nat, bits: nat)
    requires 1 <= bits && buckets <= Pow2(bits)
    ensures BitsFrom(buckets, 1) <= bits
  {
    var b := BitsFrom(buckets, 1);
    if bits < b {
      if bits < b - 1 {
        PowMono(bits, b - 1);
      }
    }
  }

  /** The generator's search loop. */
  method HashBits(minRows: nat) returns (bits: nat)
    ensures bits == BitsFrom(2 * if minRows > 1 then minRows else 1, 1)
  {
    var minBuckets := 2 * if minRows > 1 then minRows else 1;
    bits := 1;
    while Pow2(bits) < minBuckets
      invariant 1 <= bits && BitsFrom(minBuckets, bits) == BitsFrom(minBuckets, 1)
      decreases minBuckets - Pow2(bits)
    {
      bits := bits + 1;
    }
  }

  /** The preprocessor ladder of the C build: thresholds up to `2^17`, then 18. */
  function LadderBits(buckets: nat): (r: nat)
    ensures 1 <= r <= 18
  {
    if buckets <= 0x2 then 1 else if buckets <= 0x4 then 2 else if buckets <= 0x8 then 3
    else if buckets <= 0x10 then 4 else if buckets <= 0x20 then 5 else if buckets <= 0x40 then 6
    else if buckets <= 0x80 then 7 else if buckets <= 0x100 then 8 else if buckets <= 0x200 then 9
    else if buckets <= 0x400 then 10 else if buckets <= 0x800 then 11 else if buckets <= 0x1000 then 12
    else if buckets <= 0x2000 then 13 else if buckets <= 0x4000 then 14 else if buckets <= 0x8000 then 15
    else if buckets <= 0x1_0000 then 16 else if buckets <= 0x2_0000 then 17 else 18
  }

  lemma BitsUnique(buckets: nat, bits: nat)
    requires 1 <= bits && buckets <= Pow2(bits) && (bits == 1 || Pow2(bits - 1) < buckets)
    ensures BitsFrom(buckets, 1) == bits
  {
    BitsBound(buckets, bits);
    var least := BitsFrom(buckets, 1);
    if least < bits - 1 {
      PowMono(least, bits - 1);
    }
  }

  /** The ladder finds the least sufficient width exactly as long as 18 bits suffice. */
  lemma {:induction false} LadderIsLeast(buckets: nat)
    ensures LadderBits(buckets) == BitsFrom(buckets, 1) <==> buckets <= 0x4_0000
    ensures buckets > 0x4_0000 ==> LadderBits(buckets) == 18
  {
    hide Pow2, BitsFrom;
    var bits := LadderBits(buckets);
    PowTable(bits);
    PowTable(bits - 1);
    if buckets <= 0x4_0000 {
      BitsUnique(buckets, bits);
    }
  }

  lemma {:induction false} PowTable(n: nat)
    requires n <= 18
    ensures Pow2(n) == [0x1, 0x2, 0x4, 0x8, 0x10, 0x20, 0x40, 0x80, 0x100, 0x200, 0x400, 0x800, 0x1000, 0x2000, 0x4000,
                        0x8000, 0x1_0000, 0x2_0000, 0x4_0000][n]
    decreases n
  {
    if n != 0 {
      PowTable(n - 1);
    }
  }
}
