/** The default CRC hooks and the table digest plugged into the formats they protect: what a power-up notices. */
module StockHooks {
  import opened Bytes
  import Crc
  import opened FlashFormat
  import opened Log
  import opened NvmFormat
  import opened TableIds
  import opened Wrappers

  // ----- Machine words as bit sequences

  /** The low `w` bits of `n`, most significant bit first. */
  function Bits(n: nat, w: nat): (r: Crc.Word)
    ensures |r| == w
  {
    if w == 0 then [] else Bits(n / 2, w - 1) + [n % 2 == 1]
  }

  function Value(x: Crc.Word): (n: nat)
    ensures n <= Ones(|x|)
  {
    if |x| == 0 then 0 else 2 * Value(x[..|x| - 1]) + if x[|x| - 1] then 1 else 0
  }

  lemma {:induction false} ValueBits(n: nat, w: nat)
    requires n <= Ones(w)
    ensures Value(Bits(n, w)) == n
  {
    if w != 0 {
      ValueBits(n / 2, w - 1);
      assert Bits(n, w)[..w - 1] == Bits(n / 2, w - 1);
    }
  }

  lemma {:induction false} BitsValue(x: Crc.Word)
    ensures Bits(Value(x), |x|) == x
  {
    if |x| != 0 {
      BitsValue(x[..|x| - 1]);
    }
  }

  function Octets(data: seq<Byte>): (r: seq<Crc.Octet>)
    ensures |r| == |data|
  {
    seq(|data|, i requires 0 <= i < |data| => Bits(data[i], 8))
  }

  /** A CRC routine on machine words. */
  function Accumulate(p: Crc.Word, crc: nat, data: seq<Byte>): (r: nat)
    requires |p| >= 8
    ensures r <= Ones(|p|)
  {
    Value(Crc.Accumulated(p, Bits(crc, |p|), Octets(data)))
  }

  function StockCrc16(crc: U16, data: seq<Byte>): U16 {
    assert Ones(8) == 0xFF;
    assert Ones(16) == 0xFFFF;
    Accumulate(Crc.POLY16, crc, data)
  }

  function StockCrc8(crc: Byte, data: seq<Byte>): Byte {
    assert Ones(8) == 0xFF;
    Accumulate(Crc.POLY8, crc, data)
  }

  /** Accumulating the pieces of a message one after the other is accumulating the whole message. */
  lemma Pieces(p: Crc.Word, crc: nat, a: seq<Byte>, b: seq<Byte>)
    requires |p| >= 8
    ensures Accumulate(p, Accumulate(p, crc, a), b) == Accumulate(p, crc, a + b)
  {
    hide Bits, Value;
    var x := Bits(crc, |p|);
    assert Octets(a + b) == Octets(a) + Octets(b);
    Crc.Concatenates(p, x, Octets(a), Octets(b));
    BitsValue(Crc.Accumulated(p, x, Octets(a)));
  }

  lemma {:induction false} SameValue(x: Crc.Word, y: Crc.Word)
    requires |x| == |y| && x != y
    ensures Value(x) != Value(y)
  {
    BitsValue(x);
    BitsValue(y);
  }

  /** Different states stay different. */
  lemma {:induction false} StatesDiffer(p: Crc.Word, a: nat, b: nat, data: seq<Byte>)
    requires Crc.OddPoly(p) && a <= Ones(|p|) && b <= Ones(|p|) && a != b
    ensures Accumulate(p, a, data) != Accumulate(p, b, data)
  {
    var x, y, m := Bits(a, |p|), Bits(b, |p|), Octets(data);
    ValueBits(a, |p|);
    ValueBits(b, |p|);
    Crc.BytesAsBits(p, x, m);
    Crc.BytesAsBits(p, y, m);
    Crc.SuffixKeeps(p, x, y, Crc.BitsOf(m));
    SameValue(Crc.Accumulated(p, x, m), Crc.Accumulated(p, y, m));
  }

  /** Changing one byte changes the checksum. */
  lemma ByteDetected(p: Crc.Word, crc: nat, data: seq<Byte>, i: nat, b: Byte)
    requires Crc.OddPoly(p) && i < |data| && b != data[i]
    ensures Accumulate(p, crc, data[i := b]) != Accumulate(p, crc, data)
  {
    hide Bits, Value, Octets;
    var x, m, m' := Bits(crc, |p|), Octets(data), Octets(data[i := b]);
    OctetReplaced(data, i, b);
    Crc.OctetDetected(p, x, m[..i], m[i], m'[i], m[i + 1..]);
    SameValue(Crc.Accumulated(p, x, m), Crc.Accumulated(p, x, m'));
  }

  lemma OctetReplaced(data: seq<Byte>, i: nat, b: Byte)
    requires i < |data| && b != data[i]
    ensures var m, m' := Octets(data), Octets(data[i := b]);
      m[i] != m'[i] && m == m[..i] + [m[i]] + m[i + 1..] && m' == m[..i] + [m'[i]] + m[i + 1..]
  {
    assert Ones(8) == 0xFF;
    ValueBits(data[i], 8);
    ValueBits(b, 8);
    hide Bits;
    var m, m' := Octets(data), Octets(data[i := b]);
    assert m[i] == Bits(data[i], 8) && m'[i] == Bits(b, 8);
    assert forall j :: 0 <= j < |m| && j != i ==> m'[j] == m[j];
  }

  lemma Polynomials()
    ensures Crc.OddPoly(Crc.POLY16) && |Crc.POLY16| == 16 && Crc.OddPoly(Crc.POLY8) && |Crc.POLY8| == 8
    ensures Ones(16) == 0xFFFF && Ones(8) == 0xFF
  {
    assert Ones(8) == 0xFF;
    assert Ones(16) == 0xFFFF;
  }

  lemma Differs16(a: U16, b: U16, data: seq<Byte>)
    requires a != b
    ensures StockCrc16(a, data) != StockCrc16(b, data)
  {
    hide Accumulate;
    Polynomials();
    StatesDiffer(Crc.POLY16, a, b, data);
  }

  lemma Detects16(crc: U16, data: seq<Byte>, i: nat, b: Byte)
    requires i < |data| && b != data[i]
    ensures StockCrc16(crc, data[i := b]) != StockCrc16(crc, data)
  {
    hide Accumulate;
    Polynomials();
    ByteDetected(Crc.POLY16, crc, data, i, b);
  }

  lemma Detects8(crc: Byte, data: seq<Byte>, i: nat, b: Byte)
    requires i < |data| && b != data[i]
    ensures StockCrc8(crc, data[i := b]) != StockCrc8(crc, data)
  {
    hide Accumulate;
    Polynomials();
    ByteDetected(Crc.POLY8, crc, data, i, b);
  }

  lemma Differs8(a: Byte, b: Byte, data: seq<Byte>)
    requires a != b
    ensures StockCrc8(a, data) != StockCrc8(b, data)
  {
    hide Accumulate;
    Polynomials();
    StatesDiffer(Crc.POLY8, a, b, data);
  }

  lemma WordsDiffer(w: seq<Byte>, v: seq<Byte>)
    requires |w| == |v| && w != v
    ensures |w| == 2 ==> GetU16(w) != GetU16(v)
    ensures |w| == 4 ==> GetU32(w) != GetU32(v)
  {
    hide GetU16, GetU32, PutU16, PutU32;
    if |w| == 2 {
      BytesRoundTrip([0, 0, 0, 0], w);
      BytesRoundTrip([0, 0, 0, 0], v);
    } else if |w| == 4 {
      BytesRoundTrip(w, [0, 0]);
      BytesRoundTrip(v, [0, 0]);
    }
  }

  // ----- Scalar NVM image

  /** One corrupted byte of a stored record is always noticed when it is decoded: the size byte as a wrong size, every
      other one by the checksum. */
  lemma RecordByteNoticed(s: Schema, p: Param, v: Value, i: nat, b: Byte)
    requires p.Valid() && |v| == p.size && s.crc8 == StockCrc8
    requires i < RecSize(p) && b != EncodeRecord(s, p, v)[i]
    ensures DecodeRecord(s, p, EncodeRecord(s, p, v)[i := b]) == Err(if i == 2 then Error else ErrorCrc)
  {
    hide StockCrc8, PutU16, GetU16;
    var e := EncodeRecord(s, p, v);
    var rec := e[i := b];
    var c := s.crc8(s.crc8(NVM_CRC8_INIT, PutU16(p.id)), [p.size]);
    assert e[..2] == PutU16(p.id) && e[4..] == v;
    WordRoundTrip(0, p.id);
    if i < 2 {
      assert rec[..2][i] == b;
      assert rec[..2] == PutU16(p.id)[i := b] && rec[4..] == v;
      BytesRoundTrip([0, 0, 0, 0], rec[..2]);
      Detects8(NVM_CRC8_INIT, PutU16(p.id), i, b);
      Differs8(s.crc8(NVM_CRC8_INIT, rec[..2]), s.crc8(NVM_CRC8_INIT, PutU16(p.id)), [p.size]);
      Differs8(s.crc8(s.crc8(NVM_CRC8_INIT, rec[..2]), [p.size]), c, v);
    } else {
      assert rec[..2] == e[..2];
      if i >= 4 {
        assert rec[4..] == v[i - 4 := b];
        Detects8(c, v, i - 4, b);
      } else {
        assert rec[4..] == v;
      }
    }
  }

  /** The checksum of a record covers its ID, size and payload bytes in order. */
  lemma RecordCovered(s: Schema, p: Param, v: Value)
    requires p.Valid() && |v| == p.size && s.crc8 == StockCrc8
    ensures var e := EncodeRecord(s, p, v); e[3] == StockCrc8(0x00, e[..3] + e[4..])
  {
    hide Accumulate;
    var e := EncodeRecord(s, p, v);
    Polynomials();
    Pieces(Crc.POLY8, 0x00, PutU16(p.id), [p.size]);
    Pieces(Crc.POLY8, 0x00, PutU16(p.id) + [p.size], v);
    assert e[..3] == PutU16(p.id) + [p.size] && e[4..] == v;
  }

  /** The checksum of the image header covers the record count and the table ID. */
  lemma HeadCovered(s: Schema, count: nat)
    requires s.Valid() && count <= |s.params| && s.crc16 == StockCrc16
    ensures var h := EncodeHead(s, count); GetU16(h[10..12]) == StockCrc16(0xFFFF, h[4..10])
  {
    hide Accumulate, GetU16, PutU16, PutU32;
    var h, tableId := EncodeHead(s, count), s.digest(s.params[..count]);
    Polynomials();
    Pieces(Crc.POLY16, 0xFFFF, PutU16(count), PutU32(tableId));
    assert h[4..10] == PutU16(count) + PutU32(tableId) && h[10..12] == PutU16(HeadCrc(s, count, tableId));
    WordRoundTrip(0, HeadCrc(s, count, tableId));
  }

  /** The header bytes a power-up checks: signature, count, table ID and CRC. */
  lemma HeadByteNoticed(s: Schema, head: seq<Byte>, x: nat, b: Byte)
    requires |head| == NVM_HEAD_SIZE && s.crc16 == StockCrc16 && ReadHead(s, head).Ok?
    requires x < NVM_HEAD_SIZE && b != head[x]
    ensures ReadHead(s, head[x := b]) == Err(if x < NVM_SIGN_SIZE then Error else ErrorCrc)
  {
    hide StockCrc16, GetU16, GetU32, PutU16, PutU32;
    var h := head[x := b];
    BytesRoundTrip(head[6..10], head[4..6]);
    BytesRoundTrip(h[6..10], h[4..6]);
    var c0 := s.crc16(NVM_CRC16_INIT, head[4..6]);
    if x < 4 {
      assert h[..4][x] == b;
      WordsDiffer(head[..4], h[..4]);
    } else if x < 6 {
      assert h[4..6] == head[4..6][x - 4 := b] && h[6..10] == head[6..10] && h[10..12] == head[10..12];
      Detects16(NVM_CRC16_INIT, head[4..6], x - 4, b);
      Differs16(s.crc16(NVM_CRC16_INIT, h[4..6]), c0, head[6..10]);
    } else if x < 10 {
      assert h[4..6] == head[4..6] && h[6..10] == head[6..10][x - 6 := b] && h[10..12] == head[10..12];
      Detects16(c0, head[6..10], x - 6, b);
    } else {
      assert h[4..6] == head[4..6] && h[6..10] == head[6..10] && h[10..12][x - 10] == b;
      WordsDiffer(head[10..12], h[10..12]);
    }
  }

  lemma {:induction false} SlotOf(s: Schema, n: nat, x: nat) returns (k: nat)
    requires n <= |s.params| && NVM_HEAD_SIZE <= x < Addr(s, n)
    ensures k < n && Addr(s, k) <= x < Addr(s, k) + RecSize(s.params[k])
  {
    if x >= Addr(s, n - 1) {
      k := n - 1;
    } else {
      k := SlotOf(s, n - 1, x);
    }
  }

  /** Address `x` holds the size descriptor of some record. */
  ghost predicate SizeByte(s: Schema, x: nat) {
    exists k :: 0 <= k < |s.params| && x == Addr(s, k) + 2
  }

  lemma {:induction false} SizeByteIn(s: Schema, k: nat, x: nat)
    requires s.Valid() && k < |s.params| && Addr(s, k) <= x < Addr(s, k) + RecSize(s.params[k])
    ensures SizeByte(s, x) <==> x == Addr(s, k) + 2
  {
    hide Addr;
    if j :| 0 <= j < |s.params| && x == Addr(s, j) + 2 {
      if j < k {
        SlotsDisjoint(s, j, k);
      } else if k < j {
        SlotsDisjoint(s, k, j);
      }
    }
  }

  lemma {:induction false} RecordByteInImage(s: Schema, img: seq<Byte>, vs: seq<Value>, k: nat, x: nat, b: Byte)
    requires k < |s.params| && Addr(s, k) <= x < Addr(s, k) + RecSize(s.params[k]) <= |img| && b != img[x]
    requires Settled(s, img, vs) && s.crc8 == StockCrc8
    ensures Holds(s, img[x := b])
    ensures Stored(s, img[x := b]) == Err(if x == Addr(s, k) + 2 then Error else ErrorCrc)
  {
    hide Addr, DecodeRecord, EncodeRecord, RecordAt, ReadHead, Accept, Load, StockCrc8;
    var n := |s.params|;
    var img' := img[x := b];
    forall i | 0 <= i < n && i != k
      ensures RecordAt(s, img', i) == RecordAt(s, img, i)
    {
      RecordBytes(s, img, i);
      RecordBytes(s, img', i);
      if i < k {
        SlotsDisjoint(s, i, k);
      } else {
        SlotsDisjoint(s, k, i);
      }
    }
    assert img'[..NVM_HEAD_SIZE] == img[..NVM_HEAD_SIZE];
    assert vs[..n] == vs;
    StoredRecord(s, img, vs, n, k);
    RecordBytes(s, img, k);
    RecordBytes(s, img', k);
    assert RecordAt(s, img', k) == RecordAt(s, img, k)[x - Addr(s, k) := b];
    RecordByteNoticed(s, s.params[k], vs[k], x - Addr(s, k), b);
    LoadUpdate(s, img, img', n, k);
  }

  /** With the stock hooks, one corrupted byte anywhere in a complete image makes the next power-up report a fault
      and restore the defaults, never a wrong value: a plain error for the signature and the size bytes, a checksum
      error for all others. */
  lemma {:induction false} CorruptByteNoticed(s: Schema, img: seq<Byte>, vs: seq<Value>, x: nat, b: Byte)
    requires Settled(s, img, vs) && s.crc8 == StockCrc8 && s.crc16 == StockCrc16
    requires x < Addr(s, |s.params|) && b != img[x]
    ensures Holds(s, img[x := b]) && Booted(s, img[x := b]) == Defaults(s)
    ensures Stored(s, img[x := b]) == Err(if x < NVM_SIGN_SIZE || SizeByte(s, x) then Error else ErrorCrc)
  {
    hide Addr, DecodeRecord, ReadHead, Accept, Load;
    var img' := img[x := b];
    if x < NVM_HEAD_SIZE {
      assert img'[..NVM_HEAD_SIZE] == img[..NVM_HEAD_SIZE][x := b];
      assert forall k :: 0 <= k < |s.params| ==> Addr(s, k) >= NVM_HEAD_SIZE;
      HeadByteNoticed(s, img[..NVM_HEAD_SIZE], x, b);
    } else {
      var k := SlotOf(s, |s.params|, x);
      RecordBytes(s, img, k);
      RecordByteInImage(s, img, vs, k, x, b);
      SizeByteIn(s, k, x);
    }
  }

  /** A complete image in which one slot holds an intact record of another parameter. */
  lemma ForeignRecordNoticed(s: Schema, img: seq<Byte>, vs: seq<Value>, k: nat, img': seq<Byte>, id: U16, v: Value)
    requires Settled(s, img, vs) && k < |s.params| && SameRecordsExcept(s, img, img', k)
    requires img'[..NVM_HEAD_SIZE] == img[..NVM_HEAD_SIZE]
    requires id != s.params[k].id && |v| == s.params[k].size
    requires RecordAt(s, img', k) == EncodeRecord(s, Renamed(s.params[k], id), v)
    ensures Stored(s, img') == Err(Error) && Booted(s, img') == Defaults(s)
  {
    hide Addr, DecodeRecord, EncodeRecord, RecordAt, ReadHead, Accept, Load;
    var p, rec := s.params[k], RecordAt(s, img', k);
    RecordVerdict(s, p, rec);
    RecordFields(s, Renamed(p, id), v);
    RecordFields(s, p, v);
    LoadUpdate(s, img, img', |s.params|, k);
  }

  /** The compiled digest hook. */
  function StockDigest(f: Profile): seq<Param> -> U32 {
    (params: seq<Param>) => if |params| <= 0xFFFF then TableId(f, params) else 0
  }

  /** With table-ID checking, a firmware that changes the type of a stored parameter never restores the old image. */
  lemma TypeChangeNoticed(a: Schema, b: Schema, f: Profile, img: seq<Byte>, vs: seq<Value>,
                          front: seq<Param>, p: Param, q: Param, back: seq<Param>)
    requires Settled(a, img, vs) && Holds(b, img) && a.tableIdCheck && b.tableIdCheck
    requires a.params == front + [p] + back && b.params == front + [q] + back && p.id == q.id && p.kind != q.kind
    requires a.crc16 == b.crc16 && a.digest == b.digest == StockDigest(f)
    ensures Stored(b, img) == Err(ErrorTableId) && Booted(b, img) == Defaults(b)
  {
    hide Addr, Load, ReadHead, TableId;
    var n := |a.params|;
    SameHeads(a, b, img[..NVM_HEAD_SIZE]);
    TypeChangeDetected(f, front, p, q, back);
    assert a.params[..n] == a.params && b.params[..n] == b.params;
    assert b.digest(b.params) == TableId(f, b.params) && a.digest(a.params) == TableId(f, a.params);
  }

  lemma SameHeads(a: Schema, b: Schema, head: seq<Byte>)
    requires |head| == NVM_HEAD_SIZE && a.crc16 == b.crc16
    ensures ReadHead(a, head) == ReadHead(b, head)
  {
    hide GetU16, GetU32, PutU16, PutU32;
  }

  // ----- Flash records and bank headers

  /** A line index of the geometry is never an erased word. */
  lemma LineNotErased(g: Geo, rec: seq<Byte>)
    requires g.Valid() && |rec| == g.recordSize && GetU32(rec[g.cfg.lineSize..g.cfg.lineSize + 4]) < g.lineCount
    ensures !IsErased(rec)
  {
    var ls := g.cfg.lineSize;
    var w := rec[ls..ls + 4];
    ErasedWord(w);
    assert forall i :: 0 <= i < 4 ==> w[i] == rec[ls + i];
  }

  lemma ErasedWord(w: seq<Byte>)
    requires |w| == 4
    ensures IsErased(w) ==> GetU32(w) == 0xFFFF_FFFF
  {
    assert w[..2] == [w[0], w[1]] && w[2..] == [w[2], w[3]];
  }

  /** One corrupted byte in the payload, metadata or commit unit of a committed record uncommits it; the rest of the
      slot is free. */
  lemma FlashByteNoticed(g: Geo, rec: seq<Byte>, x: nat, b: Byte)
    requires RecordGeometry(g) && g.cfg.crc16 == StockCrc16 && |rec| == g.recordSize
    requires View(g, rec).Committed? && x < |rec| && b != rec[x]
    ensures View(g, rec[x := b]) == View(g, rec) <==> g.cfg.lineSize + 8 <= x < g.commitOffset
    ensures View(g, rec[x := b]).Committed? <==> g.cfg.lineSize + 8 <= x < g.commitOffset
    ensures x < g.cfg.lineSize || g.cfg.lineSize + 6 <= x < g.cfg.lineSize + 8 ==>
      View(g, rec[x := b]) == Bad(RecordCrc)
    ensures g.cfg.lineSize + 4 <= x < g.cfg.lineSize + 6 ==> View(g, rec[x := b]) == Bad(RecordRange)
    ensures g.Valid() && x >= g.commitOffset ==>
      View(g, rec[x := b]) == if b == ERASED then Torn else Bad(RecordCommit)
  {
    hide StockCrc16, GetU16, GetU32, PutU16, PutU32, CommitUnit;
    var ls, c, r := g.cfg.lineSize, g.commitOffset, rec[x := b];
    if x < c {
      assert r[c..] == rec[c..];
      CommitVisible(g, r);
      if x < ls + 8 {
        FieldNoticed(g, rec, x, b);
      } else {
        assert r[..ls] == rec[..ls] && r[ls..ls + 4] == rec[ls..ls + 4];
        assert r[ls + 4..ls + 6] == rec[ls + 4..ls + 6] && r[ls + 6..ls + 8] == rec[ls + 6..ls + 8];
      }
    } else {
      assert r[c..][x - c] == b && rec[c..][x - c] != b;
      assert r[c..] == CommitUnit(g)[x - c := b];
      if g.Valid() {
        assert r[ls..ls + 4] == rec[ls..ls + 4];
        LineNotErased(g, r);
      }
    }
  }

  /** The checksum of a flash record covers payload, line index and payload size, that of a bank header its first
      seven words. */
  lemma FlashCovered(g: Geo, line: U32, data: seq<Byte>, seqNo: U32, state: U32)
    requires g.Valid() && g.cfg.crc16 == StockCrc16 && |data| == g.cfg.lineSize
    ensures var r, ls := RecordData(g, line, data), g.cfg.lineSize;
      GetU16(r[ls + 6..ls + 8]) == StockCrc16(0xFFFF, r[..ls + 6])
    ensures var h := EncodeHeader(g, seqNo, state);
      Word(h, 28) == StockCrc16(0xFFFF, h[..28])
  {
    hide Accumulate, GetU16, GetU32, PutU16, PutU32, EncodeHeader, HeaderPrefix;
    var r, ls := RecordData(g, line, data), g.cfg.lineSize;
    Polynomials();
    Pieces(Crc.POLY16, 0xFFFF, data, PutU32(line));
    Pieces(Crc.POLY16, 0xFFFF, data + PutU32(line), PutU16(ls));
    assert r[..ls + 6] == data + PutU32(line) + PutU16(ls);
    RecordDataFields(g, line, data);
    HeaderFields(g, seqNo, state);
  }

  /** Both records carry the same payload size. */
  ghost predicate SameSize(g: Geo, rec: seq<Byte>, r: seq<Byte>)
    requires g.cfg.lineSize + 8 <= |rec| == |r|
  {
    var ls := g.cfg.lineSize;
    GetU16(r[ls + 4..ls + 6]) == GetU16(rec[ls + 4..ls + 6])
  }

  lemma FieldNoticed(g: Geo, rec: seq<Byte>, x: nat, b: Byte)
    requires RecordGeometry(g) && |rec| == g.recordSize && x < g.cfg.lineSize + 8 && b != rec[x]
    requires g.cfg.crc16 == StockCrc16 && RecordIntact(g, rec)
    ensures !RecordIntact(g, rec[x := b]) || !SameSize(g, rec, rec[x := b])
  {
    hide StockCrc16, GetU16, GetU32, PutU16, PutU32;
    var ls, r := g.cfg.lineSize, rec[x := b];
    var data, line, size, crc := rec[..ls], rec[ls..ls + 4], rec[ls + 4..ls + 6], rec[ls + 6..ls + 8];
    BytesRoundTrip(line, size);
    BytesRoundTrip(r[ls..ls + 4], r[ls + 4..ls + 6]);
    var c1 := StockCrc16(CRC16_INIT, data);
    var c2 := StockCrc16(c1, line);
    if x < ls {
      assert r[..ls] == data[x := b] && r[ls..ls + 4] == line && r[ls + 4..ls + 6] == size && r[ls + 6..ls + 8] == crc;
      Detects16(CRC16_INIT, data, x, b);
      Differs16(StockCrc16(CRC16_INIT, r[..ls]), c1, line);
      Differs16(StockCrc16(StockCrc16(CRC16_INIT, r[..ls]), line), c2, size);
    } else if x < ls + 4 {
      assert r[..ls] == data && r[ls..ls + 4] == line[x - ls := b] && r[ls + 4..ls + 6] == size &&
        r[ls + 6..ls + 8] == crc;
      Detects16(c1, line, x - ls, b);
      Differs16(StockCrc16(c1, r[ls..ls + 4]), c2, size);
    } else if x < ls + 6 {
      assert r[ls + 4..ls + 6][x - ls - 4] == b && size[x - ls - 4] != b;
      WordsDiffer(r[ls + 4..ls + 6], size);
    } else {
      assert r[..ls] == data && r[ls..ls + 4] == line && r[ls + 4..ls + 6] == size;
      assert r[ls + 6..ls + 8][x - ls - 6] == b && crc[x - ls - 6] != b;
      WordsDiffer(r[ls + 6..ls + 8], crc);
    }
  }

  /** One corrupted byte in the checked part of an accepted bank header makes it unacceptable. */
  lemma HeaderByteNoticed(g: Geo, h: seq<Byte>, x: nat, b: Byte)
    requires |h| == HEADER_SIZE && g.cfg.crc16 == StockCrc16 && ProbeHeader(g, h) == None && x < 36 && b != h[x]
    ensures ProbeHeader(g, h[x := b]) ==
      if x < 4 then HeaderMagic else if x < 8 then HeaderVersion
      else if x < 32 then HeaderCrc else HeaderState
  {
    hide StockCrc16, GetU16, GetU32, PutU16, PutU32;
    var r := h[x := b];
    ActiveNotErased(h, r, x);
    if x < 28 {
      assert r[..28] == h[..28][x := b] && r[28..32] == h[28..32];
      Detects16(CRC16_INIT, h[..28], x, b);
      if x < 4 {
        assert r[0..4][x] == b && h[0..4][x] != b;
        WordsDiffer(r[0..4], h[0..4]);
      } else if x < 8 {
        assert r[0..4] == h[0..4] && r[4..8][x - 4] == b && h[4..8][x - 4] != b;
        WordsDiffer(r[4..8], h[4..8]);
      } else {
        assert r[0..4] == h[0..4] && r[4..8] == h[4..8] && r[32..36] == h[32..36];
      }
    } else if x < 32 {
      assert r[0..4] == h[0..4] && r[4..8] == h[4..8] && r[32..36] == h[32..36];
      assert r[..28] == h[..28] && r[28..32][x - 28] == b && h[28..32][x - 28] != b;
      WordsDiffer(r[28..32], h[28..32]);
    } else {
      assert r[0..4] == h[0..4] && r[4..8] == h[4..8];
      assert r[32..36][x - 32] == b && h[32..36][x - 32] != b;
      WordsDiffer(r[32..36], h[32..36]);
    }
  }

  lemma ActiveNotErased(h: seq<Byte>, r: seq<Byte>, x: nat)
    requires |h| == |r| == HEADER_SIZE && Word(h, 0) == HEADER_MAGIC && Word(h, STATE_OFFSET) == HEADER_ACTIVE
    requires forall i :: 0 <= i < HEADER_SIZE && i != x ==> r[i] == h[i]
    ensures !IsErased(r)
  {
    hide GetU32;
    BytesRoundTrip(h[0..4], [0, 0]);
    BytesRoundTrip(h[32..36], [0, 0]);
    assert PutU32(HEADER_MAGIC)[0] == 0x48 && PutU32(HEADER_ACTIVE)[0] == 0;
    assert h[0] == h[0..4][0] == 0x48 && h[32] == h[32..36][0] == 0;
  }
}
