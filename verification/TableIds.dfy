/** The table-ID digest of a stored parameter prefix. */
module TableIds {
  import opened Arith
  import opened Bytes
  import opened Fnv
  import opened NvmFormat

  /** One row of the compiled parameter table, as the digest sees it. */
  datatype TableRow = TableRow(persistent: bool, object_: bool, param: Param)

  /** Format constants that every digest covers. */
  datatype Profile = Profile(schemaVersion: U32, recordLayout: U32, storedIds: bool)

  predicate Counts(row: TableRow) {
    row.persistent && !row.object_
  }

  /** The persistent scalars of a table, in slot order. */
  function Scalars(rows: seq<TableRow>): (r: seq<Param>)
    ensures |r| <= |rows|
  {
    if |rows| == 0 then []
    else Scalars(rows[..|rows| - 1]) + if Counts(rows[|rows| - 1]) then [rows[|rows| - 1].param] else []
  }

  function EntryBytes(f: Profile, p: Param): seq<Byte> {
    [p.kind] + IdBytes(f, p)
  }

  function IdBytes(f: Profile, p: Param): seq<Byte> {
    if f.storedIds then PutU16(p.id) else []
  }

  function EntriesBytes(f: Profile, params: seq<Param>): seq<Byte> {
    if |params| == 0 then [] else EntriesBytes(f, params[..|params| - 1]) + EntryBytes(f, params[|params| - 1])
  }

  function Preamble(f: Profile, count: U16): seq<Byte> {
    PutU32(f.schemaVersion) + PutU32(f.recordLayout) + PutU16(count)
  }

  /** Digest of a stored prefix: a function of the profile and of these parameters alone. */
  function TableId(f: Profile, params: seq<Param>): U32
    requires |params| <= 0xFFFF
  {
    Fnv1a(FNV_INIT, Preamble(f, |params|) + EntriesBytes(f, params))
  }

  lemma {:induction false} ScalarsSplit(a: seq<TableRow>, b: seq<TableRow>)
    ensures Scalars(a + b) == Scalars(a) + Scalars(b)
  {
    if |b| == 0 {
      assert a + b == a;
    } else {
      ScalarsSplit(a, b[..|b| - 1]);
      assert (a + b)[..|a + b| - 1] == a + b[..|b| - 1];
    }
  }

  lemma ScalarsNext(rows: seq<TableRow>, k: nat)
    requires k < |rows|
    ensures Scalars(rows[..k + 1]) == Scalars(rows[..k]) + if Counts(rows[k]) then [rows[k].param] else []
    ensures |Scalars(rows[..k + 1])| <= |Scalars(rows)|
    ensures Scalars(rows)[..|Scalars(rows[..k])|] == Scalars(rows[..k])
  {
    assert rows[..k + 1][..k] == rows[..k];
    ScalarsSplit(rows[..k], rows[k..]);
    ScalarsSplit(rows[..k + 1], rows[k + 1..]);
    assert rows[..k] + rows[k..] == rows && rows[..k + 1] + rows[k + 1..] == rows;
  }

  lemma {:induction false} EntriesNext(f: Profile, params: seq<Param>, p: Param)
    ensures EntriesBytes(f, params + [p]) == EntriesBytes(f, params) + EntryBytes(f, p)
  {
    assert (params + [p])[..|params|] == params;
  }

  method HashUpdate(hval: U32, size: nat, value: seq<Byte>) returns (hval': U32, size': nat)
    ensures hval' == Fnv1a(hval, value) && size' == size + |value|
  {
    hval' := FnvBuf(value, hval, true);
    size' := size + |value|;
  }

  /** The digest loop stands in front of row `k` and has hashed every scalar slot before it. */
  ghost predicate Hashing(f: Profile, rows: seq<TableRow>, count: nat, k: nat, hashed: nat, hval: U32) {
    && k <= |rows| && count <= |Scalars(rows)| && count <= 0xFFFF
    && hashed == |Scalars(rows[..k])| <= count
    && hval == Fnv1a(FNV_INIT, Preamble(f, count) + EntriesBytes(f, Scalars(rows[..k])))
  }

  lemma {:induction false} HashingStart(f: Profile, rows: seq<TableRow>, count: nat, hval: U32)
    requires count <= |Scalars(rows)| && count <= 0xFFFF && hval == Fnv1a(FNV_INIT, Preamble(f, count))
    ensures Hashing(f, rows, count, 0, 0, hval)
  {
    hide Fnv1a;
    assert Preamble(f, count) + [] == Preamble(f, count);
  }

  lemma HashingSkip(f: Profile, rows: seq<TableRow>, count: nat, k: nat, hashed: nat, hval: U32)
    requires Hashing(f, rows, count, k, hashed, hval) && k < |rows| && !Counts(rows[k])
    ensures Hashing(f, rows, count, k + 1, hashed, hval)
  {
    hide Fnv1a;
    ScalarsNext(rows, k);
    assert Scalars(rows[..k]) + [] == Scalars(rows[..k]);
  }

  lemma {:induction false} HashingNext(f: Profile, rows: seq<TableRow>, count: nat, k: nat, hashed: nat, hval: U32,
                                       hval': U32)
    requires Hashing(f, rows, count, k, hashed, hval) && k < |rows| && Counts(rows[k]) && hashed < count
    requires hval' == Fnv1a(hval, EntryBytes(f, rows[k].param))
    ensures Hashing(f, rows, count, k + 1, hashed + 1, hval')
  {
    hide Fnv1a, EntryBytes;
    var done := Scalars(rows[..k]);
    ScalarsNext(rows, k);
    EntriesNext(f, done, rows[k].param);
    var sofar := Preamble(f, count) + EntriesBytes(f, done);
    Concatenates(FNV_INIT, sofar, EntryBytes(f, rows[k].param));
    assert sofar + EntryBytes(f, rows[k].param) ==
      Preamble(f, count) + (EntriesBytes(f, done) + EntryBytes(f, rows[k].param));
  }

  lemma {:induction false} HashingDone(f: Profile, rows: seq<TableRow>, count: nat, k: nat, hashed: nat, hval: U32)
    requires Hashing(f, rows, count, k, hashed, hval)
    requires k == |rows| || (Counts(rows[k]) && hashed >= count)
    ensures hval == TableId(f, Scalars(rows)[..count])
  {
    hide Fnv1a, EntryBytes;
    if k < |rows| {
      ScalarsNext(rows, k);
    } else {
      assert rows[..k] == rows;
    }
    assert Scalars(rows)[..count] == Scalars(rows[..k]);
  }

  /** The loop over the whole table: skips rows without a scalar slot, stops after `count` slots. */
  method CalcForCount(f: Profile, rows: seq<TableRow>, count: nat) returns (id: U32)
    requires count <= |Scalars(rows)| && count <= 0xFFFF
    ensures id == TableId(f, Scalars(rows)[..count])
  {
    hide Fnv1a, EntryBytes, Hashing, TableId, Scalars, PutU32, PutU16;
    var hval, size := HashUpdate(FNV_INIT, 0, PutU32(f.schemaVersion));
    hval, size := HashUpdate(hval, size, PutU32(f.recordLayout));
    hval, size := HashUpdate(hval, size, PutU16(count));
    Concatenates(FNV_INIT, PutU32(f.schemaVersion), PutU32(f.recordLayout));
    Concatenates(FNV_INIT, PutU32(f.schemaVersion) + PutU32(f.recordLayout), PutU16(count));
    var hashed: nat, k: nat := 0, 0;
    HashingStart(f, rows, count, hval);
    while k < |rows|
      invariant k <= |rows| && Hashing(f, rows, count, k, hashed, hval)
    {
      if !rows[k].persistent || rows[k].object_ {
        HashingSkip(f, rows, count, k, hashed, hval);
        k := k + 1;
        continue;
      }
      if hashed >= count {
        break;
      }
      ghost var before := hval;
      hval := HashEntry(f, rows[k].param, hval);
      HashingNext(f, rows, count, k, hashed, before, hval);
      hashed, k := hashed + 1, k + 1;
    }
    HashingDone(f, rows, count, k, hashed, hval);
    id := hval;
  }

  method HashEntry(f: Profile, p: Param, hval: U32) returns (hval': U32)
    ensures hval' == Fnv1a(hval, EntryBytes(f, p))
  {
    hide Fnv1a;
    var size;
    hval', size := HashUpdate(hval, 0, [p.kind]);
    if f.storedIds {
      hval', size := HashUpdate(hval', size, PutU16(p.id));
      Concatenates(hval, [p.kind], PutU16(p.id));
    } else {
      assert [p.kind] + [] == [p.kind];
    }
  }

  // ----- Stability and sensitivity

  /** Rows that come later never change the ID of a stored prefix. */
  lemma {:induction false} LaterRowsKeepId(f: Profile, rows: seq<TableRow>, more: seq<TableRow>, n: nat)
    requires n <= |Scalars(rows)| && n <= 0xFFFF
    ensures n <= |Scalars(rows + more)| && TableId(f, Scalars(rows + more)[..n]) == TableId(f, Scalars(rows)[..n])
  {
    hide TableId;
    ScalarsSplit(rows, more);
    assert (Scalars(rows) + Scalars(more))[..n] == Scalars(rows)[..n];
  }

  /** Rows without a scalar slot can be inserted anywhere. */
  lemma {:induction false} OtherRowsKeepId(f: Profile, rows: seq<TableRow>, extra: seq<TableRow>, more: seq<TableRow>,
                                           n: nat)
    requires n <= |Scalars(rows + more)| && n <= 0xFFFF
    requires forall k :: 0 <= k < |extra| ==> !Counts(extra[k])
    ensures n <= |Scalars(rows + extra + more)|
    ensures TableId(f, Scalars(rows + extra + more)[..n]) == TableId(f, Scalars(rows + more)[..n])
  {
    hide TableId;
    ScalarsSplit(rows, extra);
    ScalarsSplit(rows + extra, more);
    ScalarsSplit(rows, more);
    NoScalars(extra);
    assert Scalars(rows) + [] == Scalars(rows);
  }

  lemma {:induction false} NoScalars(rows: seq<TableRow>)
    requires forall k :: 0 <= k < |rows| ==> !Counts(rows[k])
    ensures Scalars(rows) == []
  {
    if |rows| != 0 {
      NoScalars(rows[..|rows| - 1]);
    }
  }

  lemma {:induction false} EntriesSplit(f: Profile, a: seq<Param>, b: seq<Param>)
    ensures EntriesBytes(f, a + b) == EntriesBytes(f, a) + EntriesBytes(f, b)
  {
    hide EntryBytes;
    if |b| == 0 {
      assert a + b == a;
    } else {
      EntriesSplit(f, a, b[..|b| - 1]);
      assert (a + b)[..|a + b| - 1] == a + b[..|b| - 1];
    }
  }

  /** The digested bytes around the type code of one parameter. */
  lemma {:induction false} AroundType(f: Profile, front: seq<Byte>, p: seq<Param>, x: Param, s: seq<Param>)
    ensures front + EntriesBytes(f, p + [x] + s)
      == (front + EntriesBytes(f, p)) + [x.kind] + (IdBytes(f, x) + EntriesBytes(f, s))
  {
    hide IdBytes;
    EntriesSplit(f, p + [x], s);
    EntriesNext(f, p, x);
    Reassociate(front, EntriesBytes(f, p), [x.kind], IdBytes(f, x), EntriesBytes(f, s));
  }

  lemma Reassociate(a: seq<Byte>, b: seq<Byte>, c: seq<Byte>, d: seq<Byte>, e: seq<Byte>)
    ensures a + ((b + (c + d)) + e) == (a + b) + c + (d + e)
  {
  }

  /** Changing the type of one stored parameter always changes the ID. */
  lemma TypeChangeDetected(f: Profile, p: seq<Param>, x: Param, y: Param, s: seq<Param>)
    requires |p| + 1 + |s| <= 0xFFFF && x.kind != y.kind && x.id == y.id
    ensures TableId(f, p + [x] + s) != TableId(f, p + [y] + s)
  {
    hide Fnv1a, EntriesBytes, Preamble, PutU16;
    var front := Preamble(f, |p| + 1 + |s|);
    AroundType(f, front, p, x, s);
    AroundType(f, front, p, y, s);
    SingleByteChanges(FNV_INIT, front + EntriesBytes(f, p), x.kind, y.kind, IdBytes(f, x) + EntriesBytes(f, s));
  }

  lemma {:induction false} AroundId(f: Profile, front: seq<Byte>, p: seq<Param>, x: Param, s: seq<Param>)
    ensures front + EntriesBytes(f, p + [x] + s)
      == (front + EntriesBytes(f, p) + [x.kind]) + IdBytes(f, x) + EntriesBytes(f, s)
  {
    hide IdBytes;
    AroundType(f, front, p, x, s);
    assert front + EntriesBytes(f, p + [x] + s) ==
      (front + EntriesBytes(f, p) + [x.kind]) + (IdBytes(f, x) + EntriesBytes(f, s));
  }

  /** Changing the external ID of one stored parameter changes the ID of the table exactly when records store IDs. */
  lemma IdChangeExactly(f: Profile, p: seq<Param>, x: Param, y: Param, s: seq<Param>)
    requires |p| + 1 + |s| <= 0xFFFF && x.kind == y.kind && x.id != y.id
    ensures TableId(f, p + [x] + s) != TableId(f, p + [y] + s) <==> f.storedIds
  {
    hide Fnv1a, EntriesBytes, Preamble, PutU16;
    var front := Preamble(f, |p| + 1 + |s|);
    AroundId(f, front, p, x, s);
    AroundId(f, front, p, y, s);
    if f.storedIds {
      WordRoundTrip(0, x.id);
      WordRoundTrip(0, y.id);
      AdjacentBytesChange(FNV_INIT, front + EntriesBytes(f, p) + [x.kind], PutU16(x.id), PutU16(y.id),
        EntriesBytes(f, s));
    }
  }

  /** Changing the schema version by its lowest byte always changes the ID. */
  lemma VersionBumpDetected(f: Profile, version: U32, params: seq<Param>)
    requires |params| <= 0xFFFF && version != f.schemaVersion && version / 256 == f.schemaVersion / 256
    ensures TableId(f.(schemaVersion := version), params) != TableId(f, params)
  {
    hide Fnv1a;
    var g := f.(schemaVersion := version);
    SameEntries(f, g, params);
    VersionBytes(f.schemaVersion, version);
    var a, b := PutU32(f.schemaVersion), PutU32(version);
    var back := a[1..] + PutU32(f.recordLayout) + PutU16(|params|) + EntriesBytes(f, params);
    SingleByteChanges(FNV_INIT, [], a[0], b[0], back);
    assert [] + [a[0]] + back == Preamble(f, |params|) + EntriesBytes(f, params);
    assert [] + [b[0]] + back == Preamble(g, |params|) + EntriesBytes(g, params);
  }

  lemma {:induction false} SameEntries(f: Profile, g: Profile, params: seq<Param>)
    requires f.storedIds == g.storedIds
    ensures EntriesBytes(f, params) == EntriesBytes(g, params)
  {
    if |params| != 0 {
      SameEntries(f, g, params[..|params| - 1]);
    }
  }

  lemma VersionBytes(a: U32, b: U32)
    requires a != b && a / 256 == b / 256
    ensures PutU32(a)[0] != PutU32(b)[0] && PutU32(a)[1..] == PutU32(b)[1..]
  {
    WordBytes(a);
    WordBytes(b);
    DivTimes(a, 256);
    DivTimes(b, 256);
  }

  lemma WordBytes(a: U32)
    ensures PutU32(a) == [a % 256, a / 256 % 256, a / 256 / 256 % 256, a / 256 / 256 / 256]
  {
    var q, r := a / 256, a % 256;
    var q2, r2 := q / 256, q % 256;
    assert a == 256 * q + r && q == 256 * q2 + r2;
    assert a == q2 * 0x1_0000 + (r2 * 256 + r);
    DivUnique(q2, 0x1_0000, r2 * 256 + r);
    DivUnique(r2, 256, r);
  }
}
