/** The dirty bitmap of the cache window: one bit per cached line, packed into bytes. */
module DirtyMaps {

  function Bit(b: bv8, j: nat): bool
    requires j < 8
  {
    b & Mask(j) != 0
  }

  function Mask(j: nat): bv8
    requires j < 8
  {
    1 << j
  }

  lemma SetBit(b: bv8, j: nat, k: nat)
    requires j < 8 && k < 8
    ensures Bit(b | Mask(j), k) == (j == k || Bit(b, k))
  {
    OneHot(j, k);
    Distribute(b, Mask(j), Mask(k));
  }

  lemma Distribute(b: bv8, x: bv8, y: bv8)
    ensures (b | x) & y == (b & y) | (x & y)
  {
  }

  lemma OneHot(j: nat, k: nat)
    requires j < 8 && k < 8
    ensures if j == k then Mask(j) & Mask(k) != 0 else Mask(j) & Mask(k) == 0
  {
    MaskTable();
    assert j in {0, 1, 2, 3, 4, 5, 6, 7} && k in {0, 1, 2, 3, 4, 5, 6, 7};
  }

  lemma MaskTable()
    ensures Mask(0) == 1 && Mask(1) == 2 && Mask(2) == 4 && Mask(3) == 8
    ensures Mask(4) == 16 && Mask(5) == 32 && Mask(6) == 64 && Mask(7) == 128
  {
  }

  class DirtyMap {
    const bits: array<bv8>

    constructor (lines: nat)
      ensures fresh(bits) && bits.Length == (lines + 7) / 8
      ensures forall i :: 0 <= i < 8 * bits.Length ==> !IsDirty(i)
    {
      bits := new bv8[(lines + 7) / 8](_ => 0);
    }

    predicate IsDirty(line: nat)
      requires line < 8 * bits.Length
      reads bits
    {
      Bit(bits[line / 8], line % 8)
    }

    method Mark(line: nat)
      requires line < 8 * bits.Length
      modifies bits
      ensures forall i :: 0 <= i < 8 * bits.Length ==> IsDirty(i) == (i == line || old(IsDirty(i)))
    {
      bits[line / 8] := bits[line / 8] | Mask(line % 8);
      forall i | 0 <= i < 8 * bits.Length
        ensures IsDirty(i) == (i == line || old(IsDirty(i)))
      {
        if i / 8 == line / 8 {
          SetBit(old(bits[line / 8]), line % 8, i % 8);
        }
      }
    }

    method Clear()
      modifies bits
      ensures forall i :: 0 <= i < 8 * bits.Length ==> !IsDirty(i)
    {
      for b := 0 to bits.Length
        invariant forall k :: 0 <= k < b ==> bits[k] == 0
      {
        bits[b] := 0;
      }
    }

    method HasDirty() returns (r: bool)
      ensures r <==> exists i :: 0 <= i < 8 * bits.Length && IsDirty(i)
    {
      for b := 0 to bits.Length
        invariant forall k :: 0 <= k < b ==> bits[k] == 0
      {
        if bits[b] != 0 {
          NonZeroHasBit(bits[b]);
          var j :| 0 <= j < 8 && Bit(bits[b], j);
          assert IsDirty(8 * b + j);
          return true;
        }
      }
      return false;
    }

    function CountFrom(line: nat, end: nat): (n: nat)
      requires line <= end <= 8 * bits.Length
      reads bits
      ensures n <= end - line
      decreases end - line
    {
      if line == end then 0 else (if IsDirty(line) then 1 else 0) + CountFrom(line + 1, end)
    }

    lemma {:induction false} CleanCount(line: nat, end: nat)
      requires line <= end <= 8 * bits.Length
      requires forall i :: line <= i < end ==> !IsDirty(i)
      ensures CountFrom(line, end) == 0
      decreases end - line
    {
      if line < end {
        CleanCount(line + 1, end);
      }
    }

    /** The count of one stretch of dirty lines is its length. */
    lemma {:induction false} StretchCount(line: nat, end: nat, first: nat, last: nat)
      requires line <= first <= last < end <= 8 * bits.Length
      requires forall i :: line <= i < end ==> IsDirty(i) == (first <= i <= last)
      ensures CountFrom(line, end) == last - first + 1
      decreases end - line
    {
      if line < first {
        StretchCount(line + 1, end, first, last);
      } else if line < last {
        StretchCount(line + 1, end, line + 1, last);
      } else {
        CleanCount(line + 1, end);
      }
    }

    /** Number of dirty lines among the first `lines`. */
    method Count(lines: nat) returns (count: nat)
      requires lines <= 8 * bits.Length
      ensures count == CountFrom(0, lines)
    {
      count := 0;
      var line := 0;
      while line < lines
        invariant line <= lines
        invariant count + CountFrom(line, lines) == CountFrom(0, lines)
      {
        if IsDirty(line) {
          count := count + 1;
        }
        line := line + 1;
      }
    }
  }

  lemma NonZeroHasBit(b: bv8)
    requires b != 0
    ensures exists j :: 0 <= j < 8 && Bit(b, j)
  {
    MaskTable();
    assert Bit(b, 0) || Bit(b, 1) || Bit(b, 2) || Bit(b, 3) || Bit(b, 4) || Bit(b, 5) || Bit(b, 6) || Bit(b, 7);
  }
}
