/** The serialized scalar NVM image: header, compact-payload records, and what a power-up makes of it. */
module NvmFormat {
  import opened Bytes
  import opened Wrappers

  const NVM_SIGN: U32 := 0xFF00_AA55
  const NVM_HEAD_SIZE: nat := 12
  const NVM_SIGN_SIZE: nat := 4
  const RECORD_OVERHEAD: nat := 4
  const NVM_CRC16_INIT: U16 := 0xFFFF
  const NVM_CRC8_INIT: Byte := 0

  /** Error and warning bits of a status word. */
  datatype Flag = Error | ErrorCrc | ErrorTableId | ErrorNvm | ErrorInit | WarSetToDef | WarRewritten
  type Status = set<Flag>

  predicate Failed(status: Status) {
    status * {Error, ErrorCrc, ErrorTableId, ErrorNvm, ErrorInit} != {}
  }

  /** Warnings alone are no failure. */
  lemma FailedExactly(status: Status)
    ensures Failed(status) <==> !(status <= {WarSetToDef, WarRewritten})
  {
    if !(status <= {WarSetToDef, WarRewritten}) {
      var f :| f in status && f !in {WarSetToDef, WarRewritten};
      assert f.Error? || f.ErrorCrc? || f.ErrorTableId? || f.ErrorNvm? || f.ErrorInit?;
      assert f in status * {Error, ErrorCrc, ErrorTableId, ErrorNvm, ErrorInit};
    }
  }

  type Value = seq<Byte>

  /** One persistent scalar: external ID, type code, payload width, and default value as native bytes. */
  datatype Param = Param(id: U16, kind: Byte, size: nat, initial: Value) {
    predicate Valid() {
      size in {1, 2, 4} && |initial| == size
    }
  }

  /** The compiled persistent table. The digest of a table prefix and the CRC hooks are parameters. */
  datatype Schema = Schema(
    params: seq<Param>,
    digest: seq<Param> -> U32,
    crc16: (U16, seq<Byte>) -> U16,
    crc8: (Byte, seq<Byte>) -> Byte,
    tableIdCheck: bool,
    writeVerify: bool)
  {
    ghost predicate Valid() {
      0 < |params| <= 0xFFFF && forall i :: 0 <= i < |params| ==> params[i].Valid()
    }
  }

  ghost predicate Typed(s: Schema, vs: seq<Value>) {
    |vs| == |s.params| && forall i :: 0 <= i < |vs| ==> |vs[i]| == s.params[i].size
  }

  function Defaults(s: Schema): (vs: seq<Value>)
    ensures |vs| == |s.params| && forall i :: 0 <= i < |vs| ==> vs[i] == s.params[i].initial
  {
    seq(|s.params|, i requires 0 <= i < |s.params| => s.params[i].initial)
  }

  // ----- Record addresses

  function RecSize(p: Param): nat {
    RECORD_OVERHEAD + p.size
  }

  /** Records are packed behind the header in slot order. */
  function Addr(s: Schema, i: nat): (r: nat)
    requires i <= |s.params|
    ensures r >= NVM_HEAD_SIZE
  {
    if i == 0 then NVM_HEAD_SIZE else Addr(s, i - 1) + RecSize(s.params[i - 1])
  }

  /** Payload bytes of the first `i` parameters. */
  function PayloadBytes(s: Schema, i: nat): nat
    requires i <= |s.params|
  {
    if i == 0 then 0 else s.params[i - 1].size + PayloadBytes(s, i - 1)
  }

  /** Behind the twelve header bytes every record takes its payload and four bytes more. */
  lemma {:induction false} Packed(s: Schema, i: nat)
    requires i <= |s.params|
    ensures Addr(s, i) == 12 + 4 * i + PayloadBytes(s, i)
  {
    if i != 0 {
      Packed(s, i - 1);
    }
  }

  /** Slots never overlap. */
  lemma {:induction false} SlotsDisjoint(s: Schema, i: nat, j: nat)
    requires i < j <= |s.params|
    ensures Addr(s, i) + RecSize(s.params[i]) <= Addr(s, j)
  {
    if i < j - 1 {
      SlotsDisjoint(s, i, j - 1);
    }
  }

  lemma {:induction false} SlotFits(s: Schema, img: seq<Byte>, i: nat)
    requires Addr(s, |s.params|) <= |img| && i < |s.params|
    ensures Addr(s, i) + RecSize(s.params[i]) <= |img|
  {
    SlotsDisjoint(s, i, |s.params|);
  }

  // ----- Records

  function RecordCrc(s: Schema, id: U16, size: Byte, payload: seq<Byte>): Byte {
    s.crc8(s.crc8(s.crc8(NVM_CRC8_INIT, PutU16(id)), [size]), payload)
  }

  function EncodeRecord(s: Schema, p: Param, v: Value): (r: seq<Byte>)
    requires p.Valid() && |v| == p.size
    ensures |r| == RecSize(p)
  {
    PutU16(p.id) + [p.size, RecordCrc(s, p.id, p.size, v)] + v
  }

  /** Size descriptor, CRC and ID are checked in this order. */
  function DecodeRecord(s: Schema, p: Param, rec: seq<Byte>): (r: Result<Value, Flag>)
    requires p.Valid() && |rec| == RecSize(p)
    ensures r.Ok? ==> |r.value| == p.size
    ensures r.Err? ==> r.error in {Error, ErrorCrc}
  {
    var id, size, crc, payload := GetU16(rec[..2]), rec[2], rec[3], rec[4..];
    if size as int != p.size then Err(Error)
    else if RecordCrc(s, id, size, payload) != crc then Err(ErrorCrc)
    else if id != p.id then Err(Error)
    else Ok(payload)
  }

  /** Reading back a record gives exactly what was written, and nothing else reads back as that value. */
  lemma RecordExact(s: Schema, p: Param, rec: seq<Byte>, v: Value)
    requires p.Valid() && |rec| == RecSize(p) && |v| == p.size
    ensures DecodeRecord(s, p, rec) == Ok(v) <==> rec == EncodeRecord(s, p, v)
  {
    WordRoundTrip(0, p.id);
    var e := EncodeRecord(s, p, v);
    assert e[..2] == PutU16(p.id) && e[4..] == v;
    if DecodeRecord(s, p, rec) == Ok(v) {
      assert PutU16(GetU16(rec[..2])) == rec[..2];
      assert rec == rec[..2] + [rec[2], rec[3]] + rec[4..];
    }
  }

  /** The same slot holding a record of another parameter. */
  function Renamed(p: Param, id: U16): Param {
    p.(id := id)
  }

  /** Every record has one verdict, decided by its cause: a wrong size descriptor, bytes that are the encoding of no
      parameter, or an intact record of another parameter. */
  lemma RecordVerdict(s: Schema, p: Param, rec: seq<Byte>)
    requires p.Valid() && |rec| == RecSize(p)
    ensures rec[2] as int != p.size ==> DecodeRecord(s, p, rec) == Err(Error)
    ensures rec[2] as int == p.size ==>
      var intact := exists id: U16 :: rec == EncodeRecord(s, Renamed(p, id), rec[4..]);
      DecodeRecord(s, p, rec) ==
        if !intact then Err(ErrorCrc)
        else if rec != EncodeRecord(s, p, rec[4..]) then Err(Error)
        else Ok(rec[4..])
  {
    hide RecordCrc, GetU16, EncodeRecord;
    var id := GetU16(rec[..2]);
    if rec[2] as int == p.size {
      forall other: U16
        ensures rec == EncodeRecord(s, Renamed(p, other), rec[4..]) <==>
          other == id && rec[3] == RecordCrc(s, id, rec[2], rec[4..])
      {
        FieldsMatch(s, Renamed(p, other), rec);
      }
      assert rec == EncodeRecord(s, Renamed(p, id), rec[4..]) <==> rec[3] == RecordCrc(s, id, rec[2], rec[4..]);
      assert rec == EncodeRecord(s, Renamed(p, p.id), rec[4..]) <==> rec == EncodeRecord(s, p, rec[4..]);
    }
  }

  lemma RecordFields(s: Schema, p: Param, v: Value)
    requires p.Valid() && |v| == p.size
    ensures var e := EncodeRecord(s, p, v);
      GetU16(e[..2]) == p.id && e[2] == p.size && e[4..] == v
  {
    WordRoundTrip(0, p.id);
    assert EncodeRecord(s, p, v)[..2] == PutU16(p.id);
  }

  lemma FieldsMatch(s: Schema, q: Param, rec: seq<Byte>)
    requires q.Valid() && |rec| == RecSize(q) && rec[2] as int == q.size
    ensures rec == EncodeRecord(s, q, rec[4..]) <==>
      q.id == GetU16(rec[..2]) && rec[3] == RecordCrc(s, q.id, rec[2], rec[4..])
  {
    hide RecordCrc, GetU16, PutU16;
    var e := EncodeRecord(s, q, rec[4..]);
    BytesRoundTrip([0, 0, 0, 0], rec[..2]);
    WordRoundTrip(0, q.id);
    assert e[..2] == PutU16(q.id) && e[4..] == rec[4..];
    assert e[2] == rec[2] && e[3] == RecordCrc(s, q.id, rec[2], rec[4..]);
    assert rec == rec[..2] + [rec[2], rec[3]] + rec[4..] && e == e[..2] + [e[2], e[3]] + e[4..];
  }

  function RecordAt(s: Schema, img: seq<Byte>, i: nat): (r: seq<Byte>)
    requires Addr(s, |s.params|) <= |img| && i < |s.params|
    ensures |r| == RecSize(s.params[i])
  {
    SlotFits(s, img, i);
    img[Addr(s, i)..Addr(s, i) + RecSize(s.params[i])]
  }

  lemma {:induction false} RecordBytes(s: Schema, img: seq<Byte>, i: nat)
    requires Addr(s, |s.params|) <= |img| && i < |s.params|
    ensures Addr(s, i) + RecSize(s.params[i]) <= |img|
    ensures RecordAt(s, img, i) == img[Addr(s, i)..Addr(s, i) + RecSize(s.params[i])]
  {
    SlotFits(s, img, i);
  }

  /** An image large enough for this schema. */
  ghost predicate Holds(s: Schema, img: seq<Byte>) {
    s.Valid() && Addr(s, |s.params|) <= |img|
  }

  /** The first `n` stored values, or the fault of the first bad record. */
  function Load(s: Schema, img: seq<Byte>, n: nat): (r: Result<seq<Value>, Flag>)
    requires Holds(s, img) && n <= |s.params|
    ensures r.Ok? ==> |r.value| == n && forall i :: 0 <= i < n ==> |r.value[i]| == s.params[i].size
    ensures r.Err? ==> r.error in {Error, ErrorCrc}
  {
    if n == 0 then Ok([])
    else match Load(s, img, n - 1)
      case Err(flag) => Err(flag)
      case Ok(vs) =>
        match DecodeRecord(s, s.params[n - 1], RecordAt(s, img, n - 1))
        case Err(flag) => Err(flag)
        case Ok(v) => Ok(vs + [v])
  }

  lemma {:induction false} LoadNone(s: Schema, img: seq<Byte>)
    requires Holds(s, img)
    ensures Load(s, img, 0) == Ok([])
  {
  }

  /** Restoring one more record into a full set of values. */
  lemma LoadInto(s: Schema, img: seq<Byte>, vs: seq<Value>, n: nat)
    requires Holds(s, img) && n < |vs| == |s.params| && Load(s, img, n) == Ok(vs[..n])
    ensures match DecodeRecord(s, s.params[n], RecordAt(s, img, n))
            case Ok(v) => Load(s, img, n + 1) == Ok(vs[n := v][..n + 1])
            case Err(flag) => Load(s, img, n + 1) == Err(flag)
  {
    hide DecodeRecord, RecordAt, Addr;
    var r := DecodeRecord(s, s.params[n], RecordAt(s, img, n));
    if r.Ok? {
      assert vs[n := r.value][..n + 1] == vs[..n] + [r.value];
    }
  }

  lemma LoadNext(s: Schema, img: seq<Byte>, vs: seq<Value>, n: nat)
    requires Holds(s, img) && Typed(s, vs) && n < |vs|
    requires Load(s, img, n) == Ok(vs[..n])
    requires RecordAt(s, img, n) == EncodeRecord(s, s.params[n], vs[n])
    ensures Load(s, img, n + 1) == Ok(vs[..n + 1])
  {
    hide EncodeRecord, RecordAt, DecodeRecord;
    RecordExact(s, s.params[n], RecordAt(s, img, n), vs[n]);
    assert vs[..n + 1] == vs[..n] + [vs[n]];
  }

  /** The first bad record decides the fault of the whole load. */
  lemma {:induction false} LoadFault(s: Schema, img: seq<Byte>, i: nat, n: nat)
    requires Holds(s, img) && i < n <= |s.params| && Load(s, img, i).Ok?
    requires DecodeRecord(s, s.params[i], RecordAt(s, img, i)).Err?
    ensures Load(s, img, n) == Err(DecodeRecord(s, s.params[i], RecordAt(s, img, i)).error)
  {
    hide DecodeRecord, RecordAt, Addr;
    if i < n - 1 {
      LoadFault(s, img, i, n - 1);
    }
  }

  /** Loading depends on the loaded records alone. */
  lemma {:induction false} LoadFrame(s: Schema, img: seq<Byte>, img': seq<Byte>, n: nat)
    requires Holds(s, img) && Holds(s, img') && n <= |s.params|
    requires forall i :: 0 <= i < n ==> RecordAt(s, img', i) == RecordAt(s, img, i)
    ensures Load(s, img', n) == Load(s, img, n)
  {
    if n != 0 {
      LoadFrame(s, img, img', n - 1);
    }
  }

  /** The records of a loaded image are the encodings of its values. */
  lemma {:induction false} StoredRecord(s: Schema, img: seq<Byte>, vs: seq<Value>, n: nat, k: nat)
    requires Holds(s, img) && k < n <= |s.params| == |vs| && Load(s, img, n) == Ok(vs[..n])
    ensures |vs[k]| == s.params[k].size && RecordAt(s, img, k) == EncodeRecord(s, s.params[k], vs[k])
  {
    hide DecodeRecord, EncodeRecord, RecordAt, Addr;
    assert Load(s, img, n - 1).value == vs[..n][..n - 1] == vs[..n - 1];
    if k == n - 1 {
      assert vs[..n][k] == vs[k];
      RecordExact(s, s.params[k], RecordAt(s, img, k), vs[k]);
    } else {
      StoredRecord(s, img, vs, n - 1, k);
    }
  }

  /** Records other than `k` are the same in both images. */
  ghost predicate SameRecordsExcept(s: Schema, img: seq<Byte>, img': seq<Byte>, k: nat) {
    && Holds(s, img) && Holds(s, img')
    && forall i :: 0 <= i < |s.params| && i != k ==> RecordAt(s, img', i) == RecordAt(s, img, i)
  }

  /** Rewriting one record changes one loaded value; damaging it changes that value alone or is reported. */
  lemma {:induction false} LoadUpdate(s: Schema, img: seq<Byte>, img': seq<Byte>, n: nat, k: nat)
    requires SameRecordsExcept(s, img, img', k) && k < n <= |s.params| && Load(s, img, n).Ok?
    ensures match DecodeRecord(s, s.params[k], RecordAt(s, img', k))
            case Ok(v) => Load(s, img', n) == Ok(Load(s, img, n).value[k := v])
            case Err(flag) => Load(s, img', n) == Err(flag)
  {
    hide DecodeRecord, RecordAt;
    var front, last := Load(s, img, n - 1).value, Load(s, img, n).value[n - 1];
    assert Load(s, img, n).value == front + [last];
    var r := DecodeRecord(s, s.params[k], RecordAt(s, img', k));
    if k < n - 1 {
      LoadUpdate(s, img, img', n - 1, k);
      assert r.Ok? ==> (front + [last])[k := r.value] == front[k := r.value] + [last];
    } else {
      LoadFrame(s, img, img', n - 1);
      assert r.Ok? ==> (front + [last])[k := r.value] == front + [r.value];
    }
  }

  // ----- Header

  function HeadCrc(s: Schema, count: U16, tableId: U32): U16 {
    s.crc16(s.crc16(NVM_CRC16_INIT, PutU16(count)), PutU32(tableId))
  }

  function EncodeHead(s: Schema, count: nat): (r: seq<Byte>)
    requires count <= |s.params| <= 0xFFFF
    ensures |r| == NVM_HEAD_SIZE
  {
    var tableId := s.digest(s.params[..count]);
    PutU32(NVM_SIGN) + PutU16(count) + PutU32(tableId) + PutU16(HeadCrc(s, count, tableId))
  }

  datatype Head = Head(count: U16, tableId: U32)

  /** Header validation: signature first, then the CRC over count and table ID. */
  function ReadHead(s: Schema, head: seq<Byte>): (r: Result<Head, Flag>)
    requires |head| == NVM_HEAD_SIZE
    ensures r.Err? ==> r.error in {Error, ErrorCrc}
  {
    var count, tableId := GetU16(head[4..6]), GetU32(head[6..10]);
    if GetU32(head[..4]) != NVM_SIGN then Err(Error)
    else if HeadCrc(s, count, tableId) != GetU16(head[10..12]) then Err(ErrorCrc)
    else Ok(Head(count, tableId))
  }

  /** How many records a valid header lets the loader restore. */
  function Accept(s: Schema, head: Head): (r: Result<nat, Flag>)
    ensures r.Ok? ==> r.value == head.count <= |s.params|
    ensures r.Err? ==> r.error in {Error, ErrorTableId}
  {
    if head.count as int > |s.params| then Err(if s.tableIdCheck then ErrorTableId else Error)
    else if s.tableIdCheck && head.tableId != s.digest(s.params[..head.count]) then Err(ErrorTableId)
    else Ok(head.count)
  }

  function Plan(s: Schema, img: seq<Byte>): (r: Result<nat, Flag>)
    requires Holds(s, img)
    ensures r.Ok? ==> r.value <= |s.params|
    ensures r.Err? ==> r.error in {Error, ErrorCrc, ErrorTableId}
  {
    match ReadHead(s, img[..NVM_HEAD_SIZE])
    case Err(flag) => Err(flag)
    case Ok(head) => Accept(s, head)
  }

  /** The header bytes: signature, record count and table ID, least significant byte first. */
  lemma HeadFields(s: Schema, count: nat)
    requires count <= |s.params| <= 0xFFFF
    ensures var h := EncodeHead(s, count);
      && h[..4] == [0x55, 0xAA, 0x00, 0xFF]
      && GetU16(h[4..6]) == count && GetU32(h[6..10]) == s.digest(s.params[..count])
  {
    var h, tableId := EncodeHead(s, count), s.digest(s.params[..count]);
    assert h[..4] == PutU32(NVM_SIGN) && h[4..6] == PutU16(count) && h[6..10] == PutU32(tableId);
    WordRoundTrip(tableId, count);
    assert PutU32(NVM_SIGN) == [0x55, 0xAA, 0x00, 0xFF];
  }

  /** A written header is accepted with exactly its count. */
  lemma HeadRoundTrip(s: Schema, count: nat)
    requires s.Valid() && count <= |s.params|
    ensures ReadHead(s, EncodeHead(s, count)) == Ok(Head(count, s.digest(s.params[..count])))
    ensures Accept(s, Head(count, s.digest(s.params[..count]))) == Ok(count)
  {
    var h, tableId := EncodeHead(s, count), s.digest(s.params[..count]);
    assert h[..4] == PutU32(NVM_SIGN) && h[4..6] == PutU16(count) && h[6..10] == PutU32(tableId);
    assert h[10..12] == PutU16(HeadCrc(s, count, tableId));
    WordRoundTrip(NVM_SIGN, count);
    WordRoundTrip(tableId, HeadCrc(s, count, tableId));
  }

  /** With table-ID checking, an image is accepted for `n` records exactly when its header is the one a save of
      `n` records writes. */
  lemma AcceptedHead(s: Schema, img: seq<Byte>, n: nat)
    requires Holds(s, img) && s.tableIdCheck && n <= |s.params|
    ensures Plan(s, img) == Ok(n) <==> img[..NVM_HEAD_SIZE] == EncodeHead(s, n)
  {
    hide GetU32, GetU16, PutU32, PutU16, HeadCrc;
    HeadRoundTrip(s, n);
    var h, e := img[..NVM_HEAD_SIZE], EncodeHead(s, n);
    if Plan(s, img) == Ok(n) {
      BytesRoundTrip(h[..4], h[4..6]);
      BytesRoundTrip(h[6..10], h[10..12]);
      assert h == h[..4] + h[4..6] + h[6..10] + h[10..12];
    }
  }

  // ----- What a power-up recovers

  /** The stored prefix, or the fault that forces a rebuild. */
  function Stored(s: Schema, img: seq<Byte>): (r: Result<seq<Value>, Flag>)
    requires Holds(s, img)
    ensures r.Ok? ==> |r.value| <= |s.params| && forall i :: 0 <= i < |r.value| ==> |r.value[i]| == s.params[i].size
    ensures r.Err? ==> r.error in {Error, ErrorCrc, ErrorTableId}
  {
    match Plan(s, img)
    case Err(flag) => Err(flag)
    case Ok(n) => Load(s, img, n)
  }

  /** Live values after a power-up on this image: the stored prefix with default tail, or all defaults. */
  function Booted(s: Schema, img: seq<Byte>): (vs: seq<Value>)
    requires Holds(s, img)
    ensures Typed(s, vs)
  {
    match Stored(s, img)
    case Err(_) => Defaults(s)
    case Ok(vs) => vs + Defaults(s)[|vs|..]
  }

  /** The image stores exactly `vs`: a power-up loads them all and has nothing to repair. */
  ghost predicate Settled(s: Schema, img: seq<Byte>, vs: seq<Value>) {
    Holds(s, img) && |vs| == |s.params| && Stored(s, img) == Ok(vs)
  }

  lemma StoredFault(s: Schema, img: seq<Byte>)
    requires Holds(s, img)
    ensures Stored(s, img).Err? ==> Booted(s, img) == Defaults(s)
  {
  }

  lemma SettledBoots(s: Schema, img: seq<Byte>, vs: seq<Value>)
    requires Settled(s, img, vs)
    ensures Booted(s, img) == vs && Typed(s, vs)
  {
  }
}
