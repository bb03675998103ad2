/** Rows of the parameter table and the subsets of them that one build configuration compiles. */
module SchemaRows {

  datatype Kind = TypeU8 | TypeI8 | TypeU16 | TypeI16 | TypeU32 | TypeI32 | TypeF32
                | TypeStr | TypeBytes | TypeArrU8 | TypeArrU16 | TypeArrU32

  /** The ID column: a number, or empty/AUTO. */
  datatype IdSpec = Explicit(value: int) | Auto

  /** One normalized table row; `capacity` is the object payload size in bytes. */
  datatype Row = Row(enumName: string, group: string, conditional: bool, idSpec: IdSpec, kind: Kind, capacity: nat)

  /** Storage groups of the layout. */
  datatype Width = Bits8 | Bits16 | Bits32 | Object

  function WidthOf(kind: Kind): Width {
    match kind
    case TypeU8 | TypeI8 => Bits8
    case TypeU16 | TypeI16 => Bits16
    case TypeU32 | TypeI32 | TypeF32 => Bits32
    case _ => Object
  }

  /** Bytes of the native C type of a scalar; objects have none. */
  function NativeSize(kind: Kind): nat {
    match kind
    case TypeU8 => 1
    case TypeU16 => 2
    case TypeU32 => 4
    case TypeI8 => 1
    case TypeI16 => 2
    case TypeI32 => 4
    case TypeF32 => 4
    case _ => 0
  }

  /** Bytes of one element of a typed storage group. */
  function ElementSize(width: Width): nat {
    match width
    case Bits8 => 1
    case Bits16 => 2
    case Bits32 => 4
    case Object => 0
  }

  /** Every scalar fills an element of its group exactly, and the object group holds what has no native size. */
  lemma ScalarFits(kind: Kind)
    ensures ElementSize(WidthOf(kind)) == NativeSize(kind)
    ensures WidthOf(kind) == Object <==> NativeSize(kind) == 0
  {
  }

  lemma GroupBySize(kind: Kind, width: Width)
    ensures WidthOf(kind) == width <==> NativeSize(kind) == ElementSize(width)
  {
  }

  ghost predicate DistinctEnums(rows: seq<Row>) {
    forall i, j :: 0 <= i < j < |rows| ==> rows[i].enumName != rows[j].enumName
  }

  /** A truth assignment to the row conditions: unconditional rows are always on. */
  ghost predicate Assignment(rows: seq<Row>, on: seq<bool>) {
    |on| == |rows| && forall i :: 0 <= i < |rows| && !rows[i].conditional ==> on[i]
  }

  /** The entries that a build keeps, in order. */
  function Compiled<T>(xs: seq<T>, on: seq<bool>): (r: seq<T>)
    requires |xs| == |on|
    ensures |r| == CountOn(on)
  {
    if |xs| == 0 then []
    else
      var n := |xs| - 1;
      Compiled(xs[..n], on[..n]) + if on[n] then [xs[n]] else []
  }

  function CountOn(on: seq<bool>): (r: nat)
    ensures r <= |on|
  {
    if |on| == 0 then 0 else CountOn(on[..|on| - 1]) + if on[|on| - 1] then 1 else 0
  }

  /** A kept entry sits at the number of kept entries before it, and so does the part before it. */
  lemma {:induction false} CompiledAt<T>(xs: seq<T>, on: seq<bool>, k: nat)
    requires |xs| == |on| && k < |xs| && on[k]
    ensures CountOn(on[..k]) < |Compiled(xs, on)|
    ensures Compiled(xs, on)[CountOn(on[..k])] == xs[k]
    ensures Compiled(xs, on)[..CountOn(on[..k])] == Compiled(xs[..k], on[..k])
  {
    var n := |xs| - 1;
    if k < n {
      CompiledAt(xs[..n], on[..n], k);
      assert on[..n][..k] == on[..k] && xs[..n][..k] == xs[..k];
    }
  }

  /** Every kept entry comes from a row that is on. */
  lemma {:induction false} CompiledFrom<T>(xs: seq<T>, on: seq<bool>, j: nat) returns (k: nat)
    requires |xs| == |on| && j < |Compiled(xs, on)|
    ensures k < |xs| && on[k] && CountOn(on[..k]) == j && Compiled(xs, on)[j] == xs[k]
  {
    var n := |xs| - 1;
    if j < |Compiled(xs[..n], on[..n])| {
      k := CompiledFrom(xs[..n], on[..n], j);
      assert on[..n][..k] == on[..k];
    } else {
      k := n;
    }
  }

  lemma {:induction false} CountOnMono(on: seq<bool>, i: nat, j: nat)
    requires i <= j <= |on|
    ensures CountOn(on[..i]) <= CountOn(on[..j])
    ensures i < j && on[i] ==> CountOn(on[..i]) < CountOn(on[..j])
    decreases j
  {
    if i < j {
      assert on[..j][..j - 1] == on[..j - 1];
      CountOnMono(on, i, j - 1);
    }
  }
}
