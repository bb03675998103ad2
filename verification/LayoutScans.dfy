/** The run-time layout scan, and the shape of the offsets it assigns. */
module LayoutScans {
  import opened Arith
  import opened LayoutExprs
  import opened SchemaRows

  const MAX_ROWS: nat := 65535
  const MAX_CAPACITY: nat := 65535

  /** Slot offset of row `j` inside its storage group. */
  function Offset(rows: seq<Row>, j: nat): nat
    requires j < |rows|
  {
    Total(CountOf(WidthOf(rows[j].kind)), rows[..j])
  }

  /** Start of row `j` in the shared object pool. */
  function PoolStart(rows: seq<Row>, j: nat): nat
    requires j <= |rows|
  {
    Total(PoolBytes, rows[..j])
  }

  lemma {:induction false} TotalMono(m: Measure, rows: seq<Row>, i: nat, j: nat)
    requires i <= j <= |rows|
    ensures Total(m, rows[..i]) <= Total(m, rows[..j])
    ensures i < j ==> Total(m, rows[..i]) + Weight(m, rows[i]) <= Total(m, rows[..j])
    decreases j
  {
    if i < j {
      assert rows[..j][..j - 1] == rows[..j - 1];
      TotalMono(m, rows, i, j - 1);
    }
  }

  lemma {:induction false} CountBound(m: Measure, rows: seq<Row>)
    requires m != PoolBytes
    ensures Total(m, rows) <= |rows|
  {
    if |rows| != 0 {
      CountBound(m, rows[..|rows| - 1]);
    }
  }

  /** Pool offsets of a legal table fit 32 bits. */
  lemma {:induction false} PoolBound(rows: seq<Row>)
    requires forall i :: 0 <= i < |rows| ==> rows[i].capacity <= MAX_CAPACITY
    ensures Total(PoolBytes, rows) <= |rows| * MAX_CAPACITY
  {
    if |rows| != 0 {
      PoolBound(rows[..|rows| - 1]);
    }
  }

  /** Two rows of one group never share a slot. */
  lemma {:induction false} OffsetsUnique(rows: seq<Row>, i: nat, j: nat)
    requires i < j < |rows| && WidthOf(rows[i].kind) == WidthOf(rows[j].kind)
    ensures Offset(rows, i) < Offset(rows, j) < Total(CountOf(WidthOf(rows[j].kind)), rows)
  {
    var m := CountOf(WidthOf(rows[j].kind));
    TotalMono(m, rows, i, j);
    TotalMono(m, rows, j, |rows|);
    assert rows[..|rows|] == rows;
  }

  /** Every slot of a group belongs to some row. */
  lemma {:induction false} OffsetsDense(rows: seq<Row>, width: Width, slot: nat) returns (j: nat)
    requires slot < Total(CountOf(width), rows)
    ensures j < |rows| && WidthOf(rows[j].kind) == width && Offset(rows, j) == slot
  {
    var n := |rows| - 1;
    if slot < Total(CountOf(width), rows[..n]) {
      j := OffsetsDense(rows[..n], width, slot);
      assert rows[..n][..j] == rows[..j];
    } else {
      j := n;
    }
  }

  /** Object windows do not overlap and stay inside the pool. */
  lemma {:induction false} WindowsDisjoint(rows: seq<Row>, i: nat, j: nat)
    requires i < j < |rows| && NativeSize(rows[i].kind) == 0
    ensures PoolStart(rows, i) + rows[i].capacity <= PoolStart(rows, j) <= Total(PoolBytes, rows)
  {
    ScalarFits(rows[i].kind);
    TotalMono(PoolBytes, rows, i, j);
    TotalMono(PoolBytes, rows, j, |rows|);
    assert rows[..|rows|] == rows;
  }

  /** Every pool byte belongs to some object window. */
  lemma {:induction false} WindowsCover(rows: seq<Row>, b: nat) returns (j: nat)
    requires b < Total(PoolBytes, rows)
    ensures j < |rows| && NativeSize(rows[j].kind) == 0
    ensures PoolStart(rows, j) <= b < PoolStart(rows, j) + rows[j].capacity
  {
    var n := |rows| - 1;
    if b < Total(PoolBytes, rows[..n]) {
      j := WindowsCover(rows[..n], b);
      assert rows[..n][..j] == rows[..j];
    } else {
      j := n;
    }
  }

  // ----- The layout in terms of native types

  /** The rows below `n` whose native type has `size` bytes. */
  ghost function Peers(rows: seq<Row>, size: nat, n: nat): set<nat>
    requires n <= |rows|
  {
    set i | 0 <= i < n && NativeSize(rows[i].kind) == size
  }

  lemma {:induction false} CountIsPeers(rows: seq<Row>, width: Width, n: nat)
    requires n <= |rows|
    ensures Total(CountOf(width), rows[..n]) == |Peers(rows, ElementSize(width), n)|
  {
    hide WidthOf, NativeSize, ElementSize;
    if n == 0 {
      assert Peers(rows, ElementSize(width), n) == {};
    } else {
      CountIsPeers(rows, width, n - 1);
      assert rows[..n][..n - 1] == rows[..n - 1];
      GroupBySize(rows[n - 1].kind, width);
      var front := Peers(rows, ElementSize(width), n - 1);
      assert Peers(rows, ElementSize(width), n) ==
        if WidthOf(rows[n - 1].kind) == width then front + {n - 1} else front;
    }
  }

  /** The offset of a row is the number of earlier rows with a native type of the same size. */
  lemma OffsetIsPeers(rows: seq<Row>, j: nat)
    requires j < |rows|
    ensures Offset(rows, j) == |Peers(rows, NativeSize(rows[j].kind), j)|
  {
    ScalarFits(rows[j].kind);
    CountIsPeers(rows, WidthOf(rows[j].kind), j);
  }

  /** The counts are the numbers of rows of each native size, and the bytes of those without one. */
  lemma {:induction false} CountsArePeers(rows: seq<Row>)
    ensures var c, n := Counts(rows), |rows|;
      && c.count8 == |Peers(rows, 1, n)| && c.count16 == |Peers(rows, 2, n)| && c.count32 == |Peers(rows, 4, n)|
      && c.countObj == |Peers(rows, 0, n)| && c.poolBytes == ObjectBytes(rows, n)
  {
    assert rows[..|rows|] == rows;
    CountIsPeers(rows, Bits8, |rows|);
    CountIsPeers(rows, Bits16, |rows|);
    CountIsPeers(rows, Bits32, |rows|);
    CountIsPeers(rows, Object, |rows|);
    PoolIsObjects(rows, |rows|);
  }

  /** Capacities of the first `n` rows that have no native type. */
  ghost function ObjectBytes(rows: seq<Row>, n: nat): nat
    requires n <= |rows|
  {
    if n == 0 then 0
    else ObjectBytes(rows, n - 1) + if NativeSize(rows[n - 1].kind) == 0 then rows[n - 1].capacity else 0
  }

  lemma {:induction false} PoolIsObjects(rows: seq<Row>, n: nat)
    requires n <= |rows|
    ensures PoolStart(rows, n) == ObjectBytes(rows, n)
  {
    if n != 0 {
      PoolIsObjects(rows, n - 1);
      assert rows[..n][..n - 1] == rows[..n - 1];
      ScalarFits(rows[n - 1].kind);
    }
  }

  /** Row `j` occupies byte `b` of the group of its native size. */
  ghost predicate Occupies(rows: seq<Row>, j: nat, b: nat)
    requires j < |rows|
  {
    var size := NativeSize(rows[j].kind);
    Times(Offset(rows, j), size) <= b < Times(Offset(rows, j), size) + size
  }

  /** The slots of the typed groups tile them: every byte of a group belongs to exactly one row of that native size. */
  lemma SlotsTile(rows: seq<Row>, width: Width, b: nat) returns (j: nat)
    requires width != Object && b < Times(Total(CountOf(width), rows), ElementSize(width))
    ensures j < |rows| && NativeSize(rows[j].kind) == ElementSize(width) && Occupies(rows, j, b)
    ensures forall i :: 0 <= i < |rows| && NativeSize(rows[i].kind) == ElementSize(width) && Occupies(rows, i, b) ==>
      i == j
  {
    var size := ElementSize(width);
    DivTimes(b, size);
    var slot := b / size;
    if Total(CountOf(width), rows) <= slot {
      TimesMonoEq(Total(CountOf(width), rows), slot, size);
    }
    j := OffsetsDense(rows, width, slot);
    ScalarFits(rows[j].kind);
    forall i | 0 <= i < |rows| && NativeSize(rows[i].kind) == size && Occupies(rows, i, b)
      ensures i == j
    {
      GroupBySize(rows[i].kind, width);
      TimesDiv(Offset(rows, i), size, b - Times(Offset(rows, i), size));
      if i < j {
        OffsetsUnique(rows, i, j);
      } else if j < i {
        OffsetsUnique(rows, j, i);
      }
    }
  }

  lemma {:induction false} TimesMonoEq(a: nat, b: nat, m: nat)
    requires a <= b
    ensures Times(a, m) <= Times(b, m)
  {
    if a < b {
      TimesMono(a, b, m);
    }
  }

  datatype LayoutCount = LayoutCount(count8: nat, count16: nat, count32: nat, countObj: nat, poolBytes: nat)

  function Counts(rows: seq<Row>): LayoutCount {
    LayoutCount(Total(CountOf(Bits8), rows), Total(CountOf(Bits16), rows), Total(CountOf(Bits32), rows),
                Total(CountOf(Object), rows), Total(PoolBytes, rows))
  }

  /** Run-time offset tables, filled in one pass over the compiled rows. */
  class LayoutScan {
    const offset: array<nat>
    const poolOffset: array<nat>

    constructor (numOf: nat)
      ensures fresh(offset) && fresh(poolOffset) && offset != poolOffset
      ensures offset.Length == poolOffset.Length == numOf
      ensures forall j :: 0 <= j < numOf ==> offset[j] == poolOffset[j] == 0
    {
      offset := new nat[numOf](_ => 0);
      poolOffset := new nat[numOf](_ => 0);
    }

    /** The scan, with its 16-bit and 32-bit counters written out; it accepts exactly matching counts. */
    method Init(rows: seq<Row>, expected: LayoutCount) returns (ok: bool)
      requires offset != poolOffset && offset.Length == poolOffset.Length == |rows|
      requires |rows| <= MAX_ROWS && forall i :: 0 <= i < |rows| ==> rows[i].capacity <= MAX_CAPACITY
      modifies offset, poolOffset
      ensures forall j :: 0 <= j < |rows| ==>
        offset[j] == Offset(rows, j) == |Peers(rows, NativeSize(rows[j].kind), j)|
      ensures forall j :: 0 <= j < |rows| ==>
        poolOffset[j] == if NativeSize(rows[j].kind) == 0 then ObjectBytes(rows, j) else old(poolOffset[j])
      ensures ok <==> expected == Counts(rows)
    {
      hide Total;
      var count8: nat, count16: nat, count32: nat, countObj: nat, poolBytes: nat := 0, 0, 0, 0, 0;
      var it: nat := 0;
      ScanStart(rows);
      while it < |rows|
        invariant it <= |rows|
        invariant LayoutCount(count8, count16, count32, countObj, poolBytes) == Counts(rows[..it])
        invariant forall j :: 0 <= j < it ==> offset[j] == Offset(rows, j)
        invariant forall j :: 0 <= j < |rows| ==>
          poolOffset[j] == if j < it && WidthOf(rows[j].kind) == Object then PoolStart(rows, j) else old(poolOffset[j])
        modifies offset, poolOffset
      {
        ScanNext(rows, it);
        match rows[it].kind {
          case TypeU8 | TypeI8 =>
            offset[it] := count8;
            count8 := (count8 + 1) % 0x1_0000;
          case TypeU16 | TypeI16 =>
            offset[it] := count16;
            count16 := (count16 + 1) % 0x1_0000;
          case TypeU32 | TypeI32 | TypeF32 =>
            offset[it] := count32;
            count32 := (count32 + 1) % 0x1_0000;
          case TypeStr | TypeBytes | TypeArrU8 | TypeArrU16 | TypeArrU32 =>
            offset[it] := countObj;
            poolOffset[it] := poolBytes;
            countObj := (countObj + 1) % 0x1_0000;
            poolBytes := (poolBytes + rows[it].capacity) % 0x1_0000_0000;
        }
        it := it + 1;
      }
      assert rows[..it] == rows;
      forall j | 0 <= j < |rows|
        ensures Offset(rows, j) == |Peers(rows, NativeSize(rows[j].kind), j)|
        ensures WidthOf(rows[j].kind) == Object <==> NativeSize(rows[j].kind) == 0
        ensures PoolStart(rows, j) == ObjectBytes(rows, j)
      {
        OffsetIsPeers(rows, j);
        ScalarFits(rows[j].kind);
        PoolIsObjects(rows, j);
      }
      ok := expected == LayoutCount(count8, count16, count32, countObj, poolBytes);
    }
  }

  lemma ScanStart(rows: seq<Row>)
    ensures Counts(rows[..0]) == LayoutCount(0, 0, 0, 0, 0)
  {
  }

  lemma ScanNext(rows: seq<Row>, it: nat)
    requires it < |rows| <= MAX_ROWS && forall i :: 0 <= i < |rows| ==> rows[i].capacity <= MAX_CAPACITY
    ensures forall m :: Total(m, rows[..it + 1]) == Total(m, rows[..it]) + Weight(m, rows[it])
    ensures forall w :: Total(CountOf(w), rows[..it]) < 0xFFFF
    ensures Total(PoolBytes, rows[..it]) + rows[it].capacity < 0x1_0000_0000
  {
    forall m
      ensures Total(m, rows[..it + 1]) == Total(m, rows[..it]) + Weight(m, rows[it])
    {
      TotalAppend(m, rows[..it], rows[it]);
      assert rows[..it + 1] == rows[..it] + [rows[it]];
    }
    forall w
      ensures Total(CountOf(w), rows[..it]) < 0xFFFF
    {
      CountBound(CountOf(w), rows[..it]);
    }
    PoolBound(rows[..it]);
  }

  /** Generated tables equal scanned tables: for any table and any truth assignment to its row conditions,
      the emitted offset, pool and total expressions evaluate to what the scan computes on the compiled rows. */
  lemma {:induction false} GeneratedMatchesScan(rows: seq<Row>, on: seq<bool>, k: nat)
    requires Assignment(rows, on) && k < |rows| && on[k]
    ensures var c, j, width := Compiled(rows, on), CountOn(on[..k]), WidthOf(rows[k].kind);
      && j < |c| && c[j] == rows[k]
      && InTable(ExprOf(rows[..k], CountAll), |on|) && Eval(ExprOf(rows[..k], CountAll), on) == j
      && InTable(ExprOf(rows[..k], CountOf(width)), |on|) && Eval(ExprOf(rows[..k], CountOf(width)), on) == Offset(c, j)
      && InTable(ExprOf(rows[..k], PoolBytes), |on|) && Eval(ExprOf(rows[..k], PoolBytes), on) == PoolStart(c, j)
  {
    PriorMeaning(rows, CountAll, on, k);
    PriorMeaning(rows, CountOf(WidthOf(rows[k].kind)), on, k);
    PriorMeaning(rows, PoolBytes, on, k);
    CountAllIsLength(Compiled(rows, on)[..CountOn(on[..k])]);
  }

  /** The emitted totals are the counts the scan checks itself against. */
  lemma {:induction false} GeneratedCounts(rows: seq<Row>, on: seq<bool>)
    requires Assignment(rows, on)
    ensures Counts(Compiled(rows, on)) == LayoutCount(
      Eval(ExprOf(rows, CountOf(Bits8)), on), Eval(ExprOf(rows, CountOf(Bits16)), on),
        Eval(ExprOf(rows, CountOf(Bits32)), on),
      Eval(ExprOf(rows, CountOf(Object)), on), Eval(ExprOf(rows, PoolBytes), on))
  {
    ExprMeaning(rows, CountOf(Bits8), on);
    ExprMeaning(rows, CountOf(Bits16), on);
    ExprMeaning(rows, CountOf(Bits32), on);
    ExprMeaning(rows, CountOf(Object), on);
    ExprMeaning(rows, PoolBytes, on);
  }
}
