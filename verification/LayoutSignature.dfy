/** The layout signature: the generator's chunked sum against the flat sum the preprocessor expands. */
module LayoutSignature {
  import opened Arith
  import opened Bytes
  import opened LayoutExprs
  import opened LayoutScans
  import opened SchemaRows

  const SIGNATURE_MOD: nat := 65521
  const CHUNK_SIZE: nat := 8

  function TypeCode(kind: Kind): nat {
    match kind
    case TypeU8 => 1 case TypeI8 => 2 case TypeU16 => 3 case TypeI16 => 4
    case TypeU32 => 5 case TypeI32 => 6 case TypeF32 => 7
    case TypeStr => 8 case TypeBytes => 9 case TypeArrU8 => 10 case TypeArrU16 => 11 case TypeArrU32 => 12
  }

  /** The same codes as the C header defines them, scalars by width and objects behind them. */
  function MacroCode(kind: Kind): nat {
    match kind
    case TypeU8 => 1 case TypeU16 => 3 case TypeU32 => 5
    case TypeI8 => 2 case TypeI16 => 4 case TypeI32 => 6
    case TypeF32 => 7
    case TypeStr => 8 case TypeBytes => 9
    case TypeArrU8 => 10 case TypeArrU16 => 11 case TypeArrU32 => 12
  }

  /** Generator and header agree on every code. */
  lemma CodesAgree(kind: Kind)
    ensures TypeCode(kind) == MacroCode(kind)
  {
  }

  function ObjectBytes(row: Row): nat {
    if WidthOf(row.kind) == Object then row.capacity else 0
  }

  // ----- Terms

  datatype Part = PartA | PartB

  /** One row's contribution in 32-bit arithmetic, as both macros write it. */
  function Term32(part: Part, index: nat, id: nat, code: nat, bytes: nat): U32 {
    match part
    case PartA =>
      Add32(Add32(Add32(
        Mul32(Mul32(Add32(index, 1), Add32(code, 1)), 257),
        Mul32(Mul32(Add32(index, 1), Add32(id % 257, 1)), 17)),
        Mul32(id, 5)),
        Mul32(Add32(bytes, 1), 31)) % SIGNATURE_MOD
    case PartB =>
      Add32(Add32(Add32(
        Mul32(Add32(index, 1), Add32(id % 257, 1)),
        Mul32(id, 3)),
        Mul32(code, 389)),
        Mul32(Add32(bytes, 1), 13)) % SIGNATURE_MOD
  }

  /** The same contribution over the integers. */
  function TermOf(part: Part, index: nat, id: nat, code: nat, bytes: nat): nat {
    match part
    case PartA =>
      (Product(Product(index + 1, code + 1), 257) + Product(Product(index + 1, id % 257 + 1), 17) + id * 5 +
        (bytes + 1) * 31) % SIGNATURE_MOD
    case PartB =>
      (Product(index + 1, id % 257 + 1) + id * 3 + code * 389 + (bytes + 1) * 13) % SIGNATURE_MOD
  }

  lemma ProductBound(x: nat, y: nat, a: nat, b: nat)
    requires x <= a && y <= b
    ensures Product(x, y) <= a * b
  {
    MulMono(x, a, y);
    MulMono(y, b, a);
  }

  lemma AddFits(x: nat, y: nat)
    requires x + y < 0x1_0000_0000
    ensures Add32(x, y) == x + y
  {
  }

  lemma MulFits(x: nat, y: nat, a: nat, b: nat)
    requires x <= a && y <= b && a * b < 0x1_0000_0000
    ensures Mul32(x, y) == Product(x, y) <= a * b
  {
    ProductBound(x, y, a, b);
  }

  lemma ProductIs(x: nat, y: nat)
    ensures Product(x, y) == x * y
  {
  }

  /** No term overflows: the 32-bit value is the integer value. */
  lemma TermExact(part: Part, index: nat, id: nat, code: nat, bytes: nat)
    requires index < MAX_ROWS && id <= 65535 && code <= 12 && bytes <= MAX_CAPACITY
    ensures Term32(part, index, id, code, bytes) == TermOf(part, index, id, code, bytes) < SIGNATURE_MOD
  {
    hide Add32, Mul32, Product;
    AddFits(index, 1);
    AddFits(bytes, 1);
    AddFits(id % 257, 1);
    ProductIs(bytes + 1, 31);
    ProductIs(bytes + 1, 13);
    ProductIs(id, 5);
    ProductIs(id, 3);
    ProductIs(code, 389);
    MulFits(index + 1, id % 257 + 1, 65535, 257);
    var p := Product(index + 1, id % 257 + 1);
    match part {
      case PartA =>
        AddFits(code, 1);
        MulFits(index + 1, code + 1, 65535, 13);
        MulFits(Product(index + 1, code + 1), 257, 851955, 257);
        MulFits(p, 17, 16842495, 17);
        MulFits(id, 5, 65535, 5);
        MulFits(bytes + 1, 31, 65536, 31);
        AddFits(Product(Product(index + 1, code + 1), 257), Product(p, 17));
        AddFits(Product(Product(index + 1, code + 1), 257) + Product(p, 17), id * 5);
        AddFits(Product(Product(index + 1, code + 1), 257) + Product(p, 17) + id * 5, (bytes + 1) * 31);
      case PartB =>
        MulFits(id, 3, 65535, 3);
        MulFits(code, 389, 12, 389);
        MulFits(bytes + 1, 13, 65536, 13);
        AddFits(p, id * 3);
        AddFits(p + id * 3, code * 389);
        AddFits(p + id * 3 + code * 389, (bytes + 1) * 13);
    }
  }

  // ----- Sums

  function Sum(terms: seq<nat>): nat {
    if |terms| == 0 then 0 else Sum(terms[..|terms| - 1]) + terms[|terms| - 1]
  }

  /** The preprocessor's left-to-right 32-bit sum. */
  function Sum32(terms: seq<nat>): U32 {
    if |terms| == 0 then 0 else Add32(Sum32(terms[..|terms| - 1]), terms[|terms| - 1])
  }

  ghost predicate Reduced(terms: seq<nat>) {
    forall i :: 0 <= i < |terms| ==> terms[i] < SIGNATURE_MOD
  }

  lemma {:induction false} SumBound(terms: seq<nat>)
    requires Reduced(terms)
    ensures Sum(terms) <= |terms| * (SIGNATURE_MOD - 1)
  {
    if |terms| != 0 {
      SumBound(terms[..|terms| - 1]);
    }
  }

  lemma {:induction false} SumExact(terms: seq<nat>)
    requires Reduced(terms) && |terms| <= 65552
    ensures Sum32(terms) == Sum(terms)
  {
    if |terms| != 0 {
      SumExact(terms[..|terms| - 1]);
      SumBound(terms);
    }
  }

  lemma {:induction false} SumConstant(n: nat, x: nat)
    ensures Sum(seq(n, _ => x)) == n * x
  {
    if n != 0 {
      SumConstant(n - 1, x);
      assert seq(n, _ => x)[..n - 1] == seq(n - 1, _ => x);
    }
  }

  /** The one-pass sum of any `n` reduced terms is free of overflow exactly when `n <= 65552`, more than a table has. */
  lemma FlatSumFits(n: nat)
    ensures (forall terms: seq<nat> :: |terms| == n && Reduced(terms) ==> Sum(terms) < 0x1_0000_0000) <==> n <= 65552
  {
    if n <= 65552 {
      forall terms: seq<nat> | |terms| == n && Reduced(terms)
        ensures Sum(terms) < 0x1_0000_0000
      {
        SumBound(terms);
      }
    } else {
      var worst := seq(n, _ => 65520);
      SumConstant(n, 65520);
      assert |worst| == n && Reduced(worst);
    }
  }

  // ----- Chunks

  /** The chunk macros: sums of up to eight terms, each reduced. */
  function Chunks(terms: seq<nat>): (r: seq<nat>)
    ensures Reduced(r) && |r| <= |terms|
    decreases |terms|
  {
    if |terms| == 0 then []
    else
      var n := if |terms| < CHUNK_SIZE then |terms| else CHUNK_SIZE;
      [Sum32(terms[..n]) % SIGNATURE_MOD] + Chunks(terms[n..])
  }

  /** Eight terms make one chunk. */
  lemma {:induction false} ChunkCount(terms: seq<nat>)
    ensures |Chunks(terms)| == (|terms| + 7) / 8
    decreases |terms|
  {
    if |terms| != 0 {
      ChunkCount(terms[if |terms| < CHUNK_SIZE then |terms| else CHUNK_SIZE..]);
    }
  }

  function Chunked(terms: seq<nat>): nat {
    Sum32(Chunks(terms)) % SIGNATURE_MOD
  }

  lemma {:induction false} SumSplit(a: seq<nat>, b: seq<nat>)
    ensures Sum(a + b) == Sum(a) + Sum(b)
  {
    if |b| == 0 {
      assert a + b == a;
    } else {
      SumSplit(a, b[..|b| - 1]);
      assert (a + b)[..|a + b| - 1] == a + b[..|b| - 1];
    }
  }

  lemma ModAdd(x: nat, y: nat)
    ensures (x % SIGNATURE_MOD + y) % SIGNATURE_MOD == (x + y) % SIGNATURE_MOD
  {
  }

  lemma {:induction false} ChunksSum(terms: seq<nat>)
    requires Reduced(terms)
    ensures Sum(Chunks(terms)) % SIGNATURE_MOD == Sum(terms) % SIGNATURE_MOD
    decreases |terms|
  {
    hide Sum, Sum32;
    if |terms| != 0 {
      var n := if |terms| < CHUNK_SIZE then |terms| else CHUNK_SIZE;
      var head, rest := terms[..n], terms[n..];
      ChunksSum(rest);
      SumExact(head);
      SumSplit(head, rest);
      SumOne(Sum(head) % SIGNATURE_MOD, Chunks(rest));
      assert head + rest == terms;
      ModChain(Sum(head), Sum(Chunks(rest)), Sum(rest));
    }
  }

  lemma {:induction false} SumOne(x: nat, rest: seq<nat>)
    ensures Sum([x] + rest) == x + Sum(rest)
  {
    SumSplit([x], rest);
    assert Sum([x]) == Sum([]) + x;
  }

  lemma ModChain(head: nat, chunked: nat, rest: nat)
    requires chunked % SIGNATURE_MOD == rest % SIGNATURE_MOD
    ensures (head % SIGNATURE_MOD + chunked) % SIGNATURE_MOD == (head + rest) % SIGNATURE_MOD
  {
    ModAdd(head, chunked);
    ModAdd(rest, head);
    ModAdd(chunked, head);
  }

  /** Chunking changes nothing: for up to 65535 rows both 32-bit sums reduce to the same value. */
  lemma {:induction false} ChunkedIsFlat(terms: seq<nat>)
    requires Reduced(terms) && |terms| <= MAX_ROWS
    ensures Chunked(terms) == Sum32(terms) % SIGNATURE_MOD
  {
    ChunksSum(terms);
    SumExact(terms);
    SumExact(Chunks(terms));
  }

  // ----- Generated against expanded

  /** What the preprocessor sums up over the compiled rows. */
  function FlatTerms(part: Part, rows: seq<Row>, ids: seq<nat>): (r: seq<nat>)
    requires |ids| == |rows|
    ensures |r| == |rows|
  {
    seq(|rows|, j requires 0 <= j < |rows| => Term32(part, j, ids[j], MacroCode(rows[j].kind), ObjectBytes(rows[j])))
  }

  /** What the generated term macros of all rows evaluate to: zero for rows that are off. */
  function GeneratedTerms(part: Part, rows: seq<Row>, ids: seq<nat>, on: seq<bool>): (r: seq<nat>)
    requires |ids| == |rows| == |on|
    ensures |r| == |rows|
  {
    seq(|rows|, k requires 0 <= k < |rows| =>
      if on[k]
      then Term32(part, Eval(ExprOf(rows[..k], CountAll), on), ids[k], TypeCode(rows[k].kind), ObjectBytes(rows[k]))
      else 0)
  }

  lemma {:induction false} ZeroesVanish(terms: seq<nat>, on: seq<bool>)
    requires |terms| == |on| && forall k :: 0 <= k < |on| && !on[k] ==> terms[k] == 0
    ensures Sum(terms) == Sum(Compiled(terms, on))
  {
    if |terms| != 0 {
      var n := |terms| - 1;
      ZeroesVanish(terms[..n], on[..n]);
      SumSplit(Compiled(terms[..n], on[..n]), if on[n] then [terms[n]] else []);
    }
  }

  ghost predicate Legal(rows: seq<Row>, ids: seq<nat>) {
    && |ids| == |rows| <= MAX_ROWS
    && forall k :: 0 <= k < |rows| ==> ids[k] <= 65535 && rows[k].capacity <= MAX_CAPACITY
  }

  /** The signature of every legal table is computed without overflow: each term and the whole sum equal their values
      over the integers. */
  lemma TableSumExact(part: Part, rows: seq<Row>, ids: seq<nat>)
    requires Legal(rows, ids)
    ensures forall j :: 0 <= j < |rows| ==>
      FlatTerms(part, rows, ids)[j] == TermOf(part, j, ids[j], MacroCode(rows[j].kind), ObjectBytes(rows[j]))
    ensures Sum32(FlatTerms(part, rows, ids)) == Sum(FlatTerms(part, rows, ids))
  {
    hide Term32, TermOf, Sum, Sum32;
    var terms := FlatTerms(part, rows, ids);
    forall j | 0 <= j < |rows|
      ensures terms[j] == TermOf(part, j, ids[j], MacroCode(rows[j].kind), ObjectBytes(rows[j])) < SIGNATURE_MOD
    {
      TermExact(part, j, ids[j], MacroCode(rows[j].kind), ObjectBytes(rows[j]));
    }
    SumExact(terms);
  }

  lemma {:induction false} CompiledTogether(rows: seq<Row>, ids: seq<nat>, on: seq<bool>, k: nat)
    requires |ids| == |rows| == |on| && k < |on| && on[k]
    ensures CountOn(on[..k]) < CountOn(on)
    ensures Compiled(rows, on)[CountOn(on[..k])] == rows[k] && Compiled(ids, on)[CountOn(on[..k])] == ids[k]
  {
    CompiledAt(rows, on, k);
    CompiledAt(ids, on, k);
  }

  /** The generated terms of the compiled rows are exactly the preprocessor's terms. */
  lemma {:induction false} TermsAgree(part: Part, rows: seq<Row>, ids: seq<nat>, on: seq<bool>)
    requires Assignment(rows, on) && |ids| == |rows|
    ensures Compiled(GeneratedTerms(part, rows, ids, on), on) == FlatTerms(part, Compiled(rows, on), Compiled(ids, on))
  {
    hide Term32;
    var terms, flat := GeneratedTerms(part, rows, ids, on), FlatTerms(part, Compiled(rows, on), Compiled(ids, on));
    forall j | 0 <= j < CountOn(on)
      ensures Compiled(terms, on)[j] == flat[j]
    {
      var k := CompiledFrom(terms, on, j);
      GeneratedMatchesScan(rows, on, k);
      CodesAgree(rows[k].kind);
      CompiledTogether(rows, ids, on, k);
    }
  }

  /** The freshness check of the build passes for the table it was generated from, in every configuration. */
  lemma {:induction false} SignaturesAgree(part: Part, rows: seq<Row>, ids: seq<nat>, on: seq<bool>)
    requires Assignment(rows, on) && Legal(rows, ids)
    ensures Chunked(GeneratedTerms(part, rows, ids, on))
      == Sum32(FlatTerms(part, Compiled(rows, on), Compiled(ids, on))) % SIGNATURE_MOD
  {
    hide Term32, TypeCode, MacroCode;
    var terms, flat := GeneratedTerms(part, rows, ids, on), FlatTerms(part, Compiled(rows, on), Compiled(ids, on));
    TermsAgree(part, rows, ids, on);
    TermsReduced(part, rows, ids, on);
    ChunkedIsFlat(terms);
    ZeroesVanish(terms, on);
    SumExact(terms);
    SumExact(flat);
  }

  lemma {:induction false} TermsReduced(part: Part, rows: seq<Row>, ids: seq<nat>, on: seq<bool>)
    requires Assignment(rows, on) && |ids| == |rows|
    ensures Reduced(GeneratedTerms(part, rows, ids, on))
    ensures Reduced(FlatTerms(part, Compiled(rows, on), Compiled(ids, on)))
  {
    forall index: nat, id: nat, code: nat, bytes: nat
      ensures Term32(part, index, id, code, bytes) < SIGNATURE_MOD
    {
    }
  }

  // ----- What the signature notices

  /** Different kinds have different codes, none of them zero. */
  lemma CodesDiffer(a: Kind, b: Kind)
    ensures 1 <= MacroCode(a) <= 12 && (a != b ==> MacroCode(a) != MacroCode(b))
  {
  }

  /** Adding different small amounts to the same number gives different remainders. */
  lemma RemaindersDiffer(x: nat, a: nat, b: nat)
    requires a < b < a + SIGNATURE_MOD
    ensures (x + a) % SIGNATURE_MOD != (x + b) % SIGNATURE_MOD
  {
  }

  /** A changed type code always changes the second part of a term. */
  lemma CodeChangesTerm(index: nat, id: nat, a: nat, b: nat, bytes: nat)
    requires a <= 12 && b <= 12 && a != b
    ensures TermOf(PartB, index, id, a, bytes) != TermOf(PartB, index, id, b, bytes)
  {
    if b < a {
      CodeChangesTerm(index, id, b, a, bytes);
    } else {
      RemaindersDiffer(Product(index + 1, id % 257 + 1) + id * 3 + (bytes + 1) * 13, a * 389, b * 389);
    }
  }

  /** A changed size changes both parts of a term exactly unless it changes by a multiple of the modulus. */
  lemma BytesChangeTerm(part: Part, index: nat, id: nat, code: nat, a: nat, b: nat)
    requires a <= b
    ensures TermOf(part, index, id, code, a) == TermOf(part, index, id, code, b) <==> (b - a) % SIGNATURE_MOD == 0
  {
    var d := b - a;
    match part {
      case PartA =>
        var x := Product(Product(index + 1, code + 1), 257) + Product(Product(index + 1, id % 257 + 1), 17) + id * 5 +
          (a + 1) * 31;
        SameRemainder(x, 31 * d);
        Cancel(31, 25363, 12, d);
      case PartB =>
        var x := Product(index + 1, id % 257 + 1) + id * 3 + code * 389 + (a + 1) * 13;
        SameRemainder(x, 13 * d);
        Cancel(13, 60481, 12, d);
    }
  }

  lemma SameRemainder(x: nat, d: nat)
    ensures (x + d) % SIGNATURE_MOD == x % SIGNATURE_MOD <==> d % SIGNATURE_MOD == 0
  {
  }

  /** The modulus is prime, so a factor with an inverse can be cancelled. */
  lemma Cancel(c: nat, inverse: nat, q: nat, d: nat)
    requires c * inverse == q * SIGNATURE_MOD + 1
    ensures (c * d) % SIGNATURE_MOD == 0 <==> d % SIGNATURE_MOD == 0
  {
    if d % SIGNATURE_MOD == 0 {
      var k := d / SIGNATURE_MOD;
      assert c * d == (c * k) * SIGNATURE_MOD;
      DivUnique(c * k, SIGNATURE_MOD, 0);
    }
    if (c * d) % SIGNATURE_MOD == 0 {
      var k := c * d / SIGNATURE_MOD;
      assert inverse * (c * d) == (inverse * k) * SIGNATURE_MOD;
      assert (c * inverse) * d == (q * d) * SIGNATURE_MOD + d;
      assert inverse * (c * d) == (c * inverse) * d;
      assert d == (inverse * k - q * d) * SIGNATURE_MOD;
      DivUnique(inverse * k - q * d, SIGNATURE_MOD, 0);
    }
  }

  /** One changed term changes the reduced sum. */
  lemma OneTermDecides(terms: seq<nat>, j: nat, t: nat)
    requires Reduced(terms) && |terms| <= MAX_ROWS && j < |terms| && t < SIGNATURE_MOD
    ensures Sum32(terms[j := t]) % SIGNATURE_MOD == Sum32(terms) % SIGNATURE_MOD <==> t == terms[j]
  {
    hide Sum, Sum32;
    SumExact(terms);
    SumExact(terms[j := t]);
    var a, b := terms[..j], terms[j + 1..];
    assert terms == a + ([terms[j]] + b) && terms[j := t] == a + ([t] + b);
    SumSplit(a, [terms[j]] + b);
    SumSplit(a, [t] + b);
    SumOne(terms[j], b);
    SumOne(t, b);
    var rest := Sum(a) + Sum(b);
    if t < terms[j] {
      RemaindersDiffer(rest, t, terms[j]);
    } else if terms[j] < t {
      RemaindersDiffer(rest, terms[j], t);
    }
  }

  ghost function Signature(part: Part, rows: seq<Row>, ids: seq<nat>): nat
    requires |ids| == |rows|
  {
    Sum32(FlatTerms(part, rows, ids)) % SIGNATURE_MOD
  }

  /** With one row replaced the signature stays the same exactly when the term of that row does. */
  lemma OneRowDecides(part: Part, rows: seq<Row>, ids: seq<nat>, j: nat, row: Row)
    requires Legal(rows, ids) && j < |rows| && row.capacity <= MAX_CAPACITY
    ensures Signature(part, rows[j := row], ids) == Signature(part, rows, ids) <==>
      TermOf(part, j, ids[j], MacroCode(row.kind), ObjectBytes(row)) ==
      TermOf(part, j, ids[j], MacroCode(rows[j].kind), ObjectBytes(rows[j]))
  {
    hide Term32, TermOf, Sum32, MacroCode;
    var terms := FlatTerms(part, rows, ids);
    var t := Term32(part, j, ids[j], MacroCode(row.kind), ObjectBytes(row));
    CodesDiffer(row.kind, row.kind);
    CodesDiffer(rows[j].kind, rows[j].kind);
    TermExact(part, j, ids[j], MacroCode(row.kind), ObjectBytes(row));
    TermExact(part, j, ids[j], MacroCode(rows[j].kind), ObjectBytes(rows[j]));
    forall k | 0 <= k < |rows|
      ensures terms[k] < SIGNATURE_MOD
    {
      CodesDiffer(rows[k].kind, rows[k].kind);
      TermExact(part, k, ids[k], MacroCode(rows[k].kind), ObjectBytes(rows[k]));
    }
    assert FlatTerms(part, rows[j := row], ids) == terms[j := t];
    OneTermDecides(terms, j, t);
  }

  /** Changing the kind of one row always changes the second signature. */
  lemma KindChangeSeen(rows: seq<Row>, ids: seq<nat>, j: nat, kind: Kind)
    requires Legal(rows, ids) && j < |rows| && kind != rows[j].kind
    requires NativeSize(kind) == 0 <==> NativeSize(rows[j].kind) == 0
    ensures Signature(PartB, rows[j := rows[j].(kind := kind)], ids) != Signature(PartB, rows, ids)
  {
    hide TermOf;
    var row := rows[j].(kind := kind);
    ScalarFits(kind);
    ScalarFits(rows[j].kind);
    CodesDiffer(kind, rows[j].kind);
    CodesDiffer(rows[j].kind, kind);
    OneRowDecides(PartB, rows, ids, j, row);
    CodeChangesTerm(j, ids[j], MacroCode(kind), MacroCode(rows[j].kind), ObjectBytes(row));
  }

  lemma SmallMultiple(d: nat)
    requires 0 < d < 2 * SIGNATURE_MOD
    ensures d % SIGNATURE_MOD == 0 <==> d == SIGNATURE_MOD
  {
  }

  /** Changing the capacity of one row changes both signatures exactly for an object, unless by 65521 bytes. */
  lemma CapacityChangeSeen(part: Part, rows: seq<Row>, ids: seq<nat>, j: nat, capacity: nat)
    requires Legal(rows, ids) && j < |rows| && rows[j].capacity < capacity <= MAX_CAPACITY
    ensures Signature(part, rows[j := rows[j].(capacity := capacity)], ids) != Signature(part, rows, ids) <==>
      NativeSize(rows[j].kind) == 0 && capacity - rows[j].capacity != 65521
  {
    assert rows[j].capacity <= MAX_CAPACITY;
    hide TermOf, Signature, MacroCode, NativeSize, Legal, FlatTerms;
    var row := rows[j].(capacity := capacity);
    ScalarFits(row.kind);
    SmallMultiple(capacity - rows[j].capacity);
    OneRowDecides(part, rows, ids, j, row);
    if NativeSize(row.kind) == 0 {
      BytesChangeTerm(part, j, ids[j], MacroCode(row.kind), rows[j].capacity, capacity);
    }
  }
}
