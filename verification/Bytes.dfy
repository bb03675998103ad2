/** Bytes, little-endian words and the bitwise AND that flash programming performs. */
module Bytes {

  type Byte = x: int | 0 <= x < 256
  type U16 = x: int | 0 <= x < 0x1_0000
  type U32 = x: int | 0 <= x < 0x1_0000_0000

  /** Wrapping unsigned 32-bit addition and multiplication. */
  function Add32(x: nat, y: nat): U32 {
    (x + y) % 0x1_0000_0000
  }

  function Mul32(x: nat, y: nat): U32 {
    Product(x, y) % 0x1_0000_0000
  }

  function Product(x: nat, y: nat): nat {
    x * y
  }

  /** The value every flash cell holds after an erase. */
  const ERASED: Byte := 0xFF

  predicate IsErased(s: seq<Byte>) {
    forall i :: 0 <= i < |s| ==> s[i] == ERASED
  }

  function Blank(n: nat): (r: seq<Byte>)
    ensures |r| == n && IsErased(r)
  {
    seq(n, _ => ERASED)
  }

  /** Replaces `|data|` bytes of `s` starting at `at`. */
  function Splice(s: seq<Byte>, at: nat, data: seq<Byte>): (r: seq<Byte>)
    requires at + |data| <= |s|
    ensures |r| == |s|
    ensures forall i :: 0 <= i < |s| ==> r[i] == if at <= i < at + |data| then data[i - at] else s[i]
  {
    s[..at] + data + s[at + |data|..]
  }

  /** Two sequences that agree on a prefix agree on every slice of it. */
  lemma PrefixSlice<T>(s: seq<T>, t: seq<T>, n: nat, a: nat, b: nat)
    requires n <= |s| && n <= |t| && s[..n] == t[..n] && a <= b <= n
    ensures s[a..b] == t[a..b]
  {
    forall i | a <= i < b
      ensures s[i] == t[i]
    {
      assert s[i] == s[..n][i] && t[i] == t[..n][i];
    }
  }

  /** Two sequences that agree on a suffix agree on every slice of it. */
  lemma SuffixSlice<T>(s: seq<T>, t: seq<T>, n: nat, a: nat, b: nat)
    requires n <= a <= b <= |s| == |t| && s[n..] == t[n..]
    ensures s[a..b] == t[a..b]
  {
    forall i | a <= i < b
      ensures s[i] == t[i]
    {
      assert s[i] == s[n..][i - n] && t[i] == t[n..][i - n];
    }
  }

  lemma SliceOfSlice<T>(s: seq<T>, a: nat, b: nat, c: nat, d: nat)
    requires a <= b <= |s| && c <= d <= b - a
    ensures s[a..b][c..d] == s[a + c..a + d]
  {
    forall i | 0 <= i < d - c
      ensures s[a..b][c..d][i] == s[a + c..a + d][i]
    {
    }
  }

  lemma ErasedPart(s: seq<Byte>, a: nat, b: nat)
    requires IsErased(s) && a <= b <= |s|
    ensures IsErased(s[a..b])
  {
  }

  /** A slice of a spliced sequence that avoids the spliced range. */
  lemma SpliceOutside(s: seq<Byte>, at: nat, data: seq<Byte>, a: nat, b: nat)
    requires at + |data| <= |s| && a <= b <= |s|
    requires b <= at || at + |data| <= a
    ensures Splice(s, at, data)[a..b] == s[a..b]
  {
    forall i | a <= i < b
      ensures Splice(s, at, data)[i] == s[i]
    {
    }
  }

  /** A slice of a spliced sequence that lies inside the spliced range. */
  lemma SpliceInside(s: seq<Byte>, at: nat, data: seq<Byte>, a: nat, b: nat)
    requires at + |data| <= |s| && at <= a <= b <= at + |data|
    ensures Splice(s, at, data)[a..b] == data[a - at..b - at]
  {
    forall i | a <= i < b
      ensures Splice(s, at, data)[i] == data[i - at]
    {
    }
  }

  /** Splicing inside a prefix is splicing the prefix. */
  lemma SplicePrefix(s: seq<Byte>, at: nat, data: seq<Byte>, n: nat)
    requires at + |data| <= n <= |s|
    ensures Splice(s, at, data)[..n] == Splice(s[..n], at, data)
  {
  }

  /** Bitwise AND on naturals, bit by bit from the least significant one. */
  function And(a: nat, b: nat): (r: nat)
    ensures r <= b
  {
    if a == 0 || b == 0 then 0 else (a % 2) * (b % 2) + 2 * And(a / 2, b / 2)
  }

  lemma {:induction false} AndSelf(x: nat)
    ensures And(x, x) == x
  {
    if x != 0 {
      AndSelf(x / 2);
    }
  }

  /** Programming an erased cell stores exactly the programmed byte. */
  lemma {:induction false} AndErased(x: Byte)
    ensures And(ERASED, x) == x
  {
    AndOnes(8, x);
  }

  function Ones(bits: nat): nat {
    if bits == 0 then 0 else 1 + 2 * Ones(bits - 1)
  }

  lemma {:induction false} AndOnes(bits: nat, x: nat)
    requires x <= Ones(bits)
    ensures And(Ones(bits), x) == x
  {
    if bits != 0 && x != 0 {
      AndOnes(bits - 1, x / 2);
    }
  }

  function PutU16(v: U16): (r: seq<Byte>)
    ensures |r| == 2
  {
    [v % 256, v / 256]
  }

  function GetU16(s: seq<Byte>): U16
    requires |s| == 2
  {
    s[0] as int + 256 * (s[1] as int)
  }

  function PutU32(v: U32): (r: seq<Byte>)
    ensures |r| == 4
  {
    PutU16(v % 0x1_0000) + PutU16(v / 0x1_0000)
  }

  function GetU32(s: seq<Byte>): U32
    requires |s| == 4
  {
    GetU16(s[..2]) + 0x1_0000 * GetU16(s[2..])
  }

  lemma WordRoundTrip(v: U32, h: U16)
    ensures GetU32(PutU32(v)) == v
    ensures GetU16(PutU16(h)) == h
  {
    assert PutU32(v)[..2] == PutU16(v % 0x1_0000);
    assert PutU32(v)[2..] == PutU16(v / 0x1_0000);
  }

  /** Reading a word and writing it back gives the same bytes. */
  lemma BytesRoundTrip(w: seq<Byte>, h: seq<Byte>)
    requires |w| == 4 && |h| == 2
    ensures PutU32(GetU32(w)) == w && PutU16(GetU16(h)) == h
  {
    HalfWord(w[..2]);
    HalfWord(w[2..]);
    HalfWord(h);
    var lo, hi := GetU16(w[..2]), GetU16(w[2..]);
    assert GetU32(w) % 0x1_0000 == lo && GetU32(w) / 0x1_0000 == hi;
    assert w == w[..2] + w[2..];
  }

  lemma HalfWord(h: seq<Byte>)
    requires |h| == 2
    ensures PutU16(GetU16(h)) == h
  {
    var v: int := GetU16(h);
    assert v % 256 == h[0] && v / 256 == h[1];
  }
}
