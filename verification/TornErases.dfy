/** Cut bank erases: for which erase units a torn erase can forge an accepted bank header, and for which it cannot. */
module TornErases {
  import opened Arith
  import opened Banks
  import opened Bytes
  import opened Discipline
  import opened FlashFormat
  import opened FlashPorts
  import opened FlashSteps
  import opened Lines
  import opened Log

  /** Bytes of an ACTIVE header that are never erased ones, whatever the geometry and sequence number. */
  const MARKS: set<nat> := {0, 11, 15, 19, 23, 30, 33}

  /** Units that are multiples of eight bytes, and all units beyond the checked part of a header, are tear-safe. */
  lemma CommonUnits(unit: nat)
    requires unit > 0 && (unit % 8 == 0 || unit >= 36)
    ensures TearSafe(unit)
  {
    if unit < 36 {
      assert unit in {8, 16, 24, 32};
    }
  }

  lemma TopByte(v: U32)
    requires v < 0x8000_0000
    ensures PutU32(v)[3] != ERASED
  {
    assert v / 0x1_0000 < 0x8000;
  }

  lemma MarksStand(g: Geo, seqNo: U32)
    requires g.Valid()
    ensures forall m :: m in MARKS ==> m < HEADER_SIZE && EncodeHeader(g, seqNo, HEADER_ACTIVE)[m] != ERASED
  {
    hide Multiple;
    var p := HeaderPrefix(g, seqNo);
    var crc: U32 := g.cfg.crc16(CRC16_INIT, p);
    var e := EncodeHeader(g, seqNo, HEADER_ACTIVE);
    RecordFits(g);
    LogicalFits(g);
    TopByte(g.cfg.logicalSize);
    TopByte(g.cfg.lineSize);
    TopByte(g.recordSize);
    TopByte(g.bankSize);
    assert PutU32(HEADER_MAGIC)[0] == 0x48 && PutU32(HEADER_ACTIVE)[1] == 0 && PutU32(crc)[2] == 0;
    assert e[0] == PutU32(HEADER_MAGIC)[0] && e[11] == PutU32(g.cfg.logicalSize)[3];
    assert e[15] == PutU32(g.cfg.lineSize)[3] && e[19] == PutU32(g.recordSize)[3] && e[23] == PutU32(g.bankSize)[3];
    assert e[30] == PutU32(crc)[2] && e[33] == PutU32(HEADER_ACTIVE)[1];
  }

  /** The logical space is smaller than a bank. */
  lemma LogicalFits(g: Geo)
    requires g.Valid()
    ensures g.cfg.logicalSize < g.bankSize
  {
    hide Multiple;
    TimesIsProduct(g.lineCount, g.cfg.lineSize);
    TimesIsProduct(g.maxRecords, g.recordSize);
    MulMono(g.cfg.lineSize, g.recordSize, g.lineCount);
    MulMono(g.lineCount, g.maxRecords, g.recordSize);
  }

  lemma {:induction false} SameUnit(a: nat, b: nat, q: nat, unit: nat)
    requires unit > 0 && Times(q, unit) <= a < Times(q, unit) + unit && Times(q, unit) <= b < Times(q, unit) + unit
    ensures a / unit == b / unit == q
  {
    TimesDiv(q, unit, a - Times(q, unit));
    TimesDiv(q, unit, b - Times(q, unit));
  }

  /** From seven bytes on, a unit that reaches into the checked part of a header holds a marked byte, unless it starts
      at one of the last two state bytes. */
  lemma MarkInUnit(i: nat, unit: nat) returns (m: nat)
    requires i < 36 && unit >= 7 && Times(i / unit, unit) !in {34, 35}
    ensures m in MARKS && m / unit == i / unit
  {
    var q := i / unit;
    var start := Times(q, unit);
    DivTimes(i, unit);
    if q != 0 {
      TimesMono(0, q, unit);
      assert Times(0, unit) == 0;
    }
    TimesDiv(q, unit, 0);
    m := if start == 0 then 0 else if start <= 11 < start + unit then 11
      else if start <= 15 < start + unit then 15 else if start <= 19 < start + unit then 19
      else if start <= 23 < start + unit then 23 else if start <= 30 < start + unit then 30 else 33;
    SameUnit(i, m, q, unit);
  }

  /** The last two state bytes of a header are erased, as they are in PREPARE, ACTIVE and erased headers. */
  predicate TopErased(h: seq<Byte>)
    requires |h| == HEADER_SIZE
  {
    h[34] == ERASED && h[35] == ERASED
  }

  /** A torn header that is accepted kept every checked byte. */
  lemma TornHeader(g: Geo, h: seq<Byte>, h': seq<Byte>, unit: nat, kept: set<int>)
    requires g.Valid() && |h| == |h'| == HEADER_SIZE && ProbeHeader(g, h') == None
    requires TearSafe(unit) || (unit >= 7 && TopErased(h))
    requires forall i :: 0 <= i < HEADER_SIZE ==> h'[i] == if i / unit in kept then h[i] else ERASED
    ensures ProbeHeader(g, h) == None && HeaderSeq(h) == HeaderSeq(h')
  {
    hide ProbeHeader, EncodeHeader, Multiple;
    AcceptedExactly(g, h');
    forall i | 0 <= i < 36
      ensures h[i] == h'[i]
    {
      TornByte(g, h, h', unit, kept, i);
    }
    assert h[..36] == h'[..36];
    PrefixSlice(h, h', 36, 24, 28);
    AcceptedExactly(g, h);
  }

  lemma TornByte(g: Geo, h: seq<Byte>, h': seq<Byte>, unit: nat, kept: set<int>, i: nat)
    requires g.Valid() && |h| == |h'| == HEADER_SIZE && i < 36
    requires h'[..36] == EncodeHeader(g, HeaderSeq(h'), HEADER_ACTIVE)[..36]
    requires TearSafe(unit) || (unit >= 7 && TopErased(h))
    requires forall i :: 0 <= i < HEADER_SIZE ==> h'[i] == if i / unit in kept then h[i] else ERASED
    ensures h[i] == h'[i]
  {
    hide EncodeHeader, Multiple, Times;
    var e := EncodeHeader(g, HeaderSeq(h'), HEADER_ACTIVE);
    var start := Times(i / unit, unit);
    DivTimes(i, unit);
    TimesDiv(i / unit, unit, 0);
    if start !in {34, 35} {
      var m := MarkInUnit(i, unit);
      MarksStand(g, HeaderSeq(h'));
      assert h'[m] == h'[..36][m] == e[..36][m] == e[m];
    }
  }

  /** The header bytes of a bank after a torn erase, unit by unit. */
  lemma TornBytes(g: Geo, cells: seq<Byte>, cells': seq<Byte>, base: nat, kept: set<int>, i: nat)
    requires IsFlash(g, cells) && IsBase(g, base) && i < HEADER_SIZE
    requires ErasedExcept(cells, cells', base, g.bankSize, g.eraseSize, kept)
    ensures IsFlash(g, cells')
    ensures Header(g, BankAt(g, cells', base))[i] ==
      if i / g.eraseSize + base / g.eraseSize in kept then Header(g, BankAt(g, cells, base))[i] else ERASED
  {
    hide Multiple;
    var q, u := base / g.eraseSize, g.eraseSize;
    BaseMultiple(g, base);
    MultipleTimes(base, u);
    DivTimes(i, u);
    TimesAdd(q, i / u, u);
    TimesDiv(q + i / u, u, i % u);
    HeaderByte(g, cells, base, i);
    HeaderByte(g, cells', base, i);
  }

  /** A cut bank erase leaves an accepted header behind only if that header was accepted before. */
  lemma TornEraseHeader(g: Geo, cells: seq<Byte>, cells': seq<Byte>, base: nat)
    requires IsFlash(g, cells) && IsBase(g, base)
    requires TornErase(cells, cells', base, g.bankSize, g.eraseSize)
    ensures IsFlash(g, cells')
    ensures BankAt(g, cells', OtherBase(g, base)) == BankAt(g, cells, OtherBase(g, base))
    ensures TearSafe(g.eraseSize) || (g.eraseSize >= 7 && TopErased(Header(g, BankAt(g, cells, base)))) ==>
      HeaderKept(g, BankAt(g, cells, base), BankAt(g, cells', base))
  {
    hide ProbeHeader, Multiple;
    var kept :| ErasedExcept(cells, cells', base, g.bankSize, g.eraseSize, kept);
    RangeInBank(g, cells, cells', base, 0, g.bankSize);
    var h, h' := Header(g, BankAt(g, cells, base)), Header(g, BankAt(g, cells', base));
    if (TearSafe(g.eraseSize) || (g.eraseSize >= 7 && TopErased(h))) && ProbeHeader(g, h') == None {
      var q := base / g.eraseSize;
      var mine := set k: int | k in kept :: k - q;
      forall i | 0 <= i < HEADER_SIZE
        ensures h'[i] == if i / g.eraseSize in mine then h[i] else ERASED
      {
        TornBytes(g, cells, cells', base, kept, i);
        var k := i / g.eraseSize;
        assert k in mine <==> k + q in kept by {
          if k + q in kept {
            assert (k + q) - q in mine;
          }
        }
      }
      TornHeader(g, h, h', g.eraseSize, mine);
    }
  }

  // ----- What a cut erase of a bank the engine may erase does to the stored image

  /** The last two state bytes of both headers are erased. */
  ghost predicate TopsErased(g: Geo, cells: seq<Byte>)
    requires IsFlash(g, cells)
  {
    TopErased(Header(g, BankAt(g, cells, 0))) && TopErased(Header(g, BankAt(g, cells, g.bankSize)))
  }

  /** Cutting the erase of a bank the engine may erase, on sound flash, does not change the stored image. */
  ghost predicate TornHarmless(g: Geo, cells: seq<Byte>, cells': seq<Byte>, base: nat)
    requires IsFlash(g, cells) && |cells'| == |cells|
  {
    Sound(g, cells) && FreeBank(g, cells, base) && TornErase(cells, cells', base, g.bankSize, g.eraseSize) ==>
      Stored(g, cells') == Stored(g, cells)
  }

  lemma ErasedTops(g: Geo, cells: seq<Byte>)
    requires IsFlash(g, cells) && IsErased(cells)
    ensures TopsErased(g, cells)
  {
    forall base, i | base in {0, g.bankSize} && i in {34, 35}
      ensures Header(g, BankAt(g, cells, base))[i] == ERASED
    {
      HeaderByte(g, cells, base, i);
    }
  }

  /** Work in one bank keeps the last state bytes of the headers if it keeps those of its own header. */
  lemma TopsKept(g: Geo, cells: seq<Byte>, cells': seq<Byte>, base: nat)
    requires IsFlash(g, cells) && IsFlash(g, cells') && IsBase(g, base) && TopsErased(g, cells)
    requires BankAt(g, cells', OtherBase(g, base)) == BankAt(g, cells, OtherBase(g, base))
    requires TopErased(Header(g, BankAt(g, cells, base))) ==> TopErased(Header(g, BankAt(g, cells', base)))
    ensures TopsErased(g, cells')
  {
    hide Multiple, TopErased, Header, BankAt;
  }

  lemma DataTop(g: Geo, ok: bool, cells: seq<Byte>, cells': seq<Byte>, base: nat, k: nat, data: seq<Byte>)
    requires DataResult(g, ok, cells, cells', base, k, data) && TopsErased(g, cells)
    ensures TopsErased(g, cells')
  {
    hide Multiple, View, Views, TopErased, TopsErased, Header, BankAt;
    ViewsFrame(g, BankAt(g, cells, base), BankAt(g, cells', base), k);
    TopsKept(g, cells, cells', base);
  }

  lemma CommitTop(g: Geo, ok: bool, cells: seq<Byte>, cells1: seq<Byte>, cells': seq<Byte>, base: nat, k: nat,
                  record: seq<Byte>, line: nat, data: seq<Byte>)
    requires DataResult(g, true, cells, cells1, base, k, record) &&
      AppendResult(g, ok, cells, cells', base, k, line, data)
    requires TopsErased(g, cells1)
    ensures TopsErased(g, cells')
  {
    hide Multiple, View, Views, TopErased, TopsErased, Header, BankAt;
    ViewsFrame(g, BankAt(g, cells, base), BankAt(g, cells1, base), k);
    TopsKept(g, cells1, cells', base);
  }

  lemma EraseTop(g: Geo, cells: seq<Byte>, cells': seq<Byte>, base: nat)
    requires IsFlash(g, cells) && IsBase(g, base) && TopsErased(g, cells)
    requires TornErase(cells, cells', base, g.bankSize, g.eraseSize)
    ensures IsFlash(g, cells') && TopsErased(g, cells')
  {
    hide Multiple;
    var kept :| ErasedExcept(cells, cells', base, g.bankSize, g.eraseSize, kept);
    RangeInBank(g, cells, cells', base, 0, g.bankSize);
    forall i | i in {34, 35} && Header(g, BankAt(g, cells, base))[i] == ERASED
      ensures Header(g, BankAt(g, cells', base))[i] == ERASED
    {
      HeaderByte(g, cells, base, i);
      HeaderByte(g, cells', base, i);
    }
    TopsKept(g, cells, cells', base);
  }

  /** A cut bank erase: safe units keep the header verdict, and erased state bytes stay erased. */
  lemma CutErase(g: Geo, factory: bool, cells: seq<Byte>, cells': seq<Byte>, base: nat)
    requires IsFlash(g, cells) && IsBase(g, base) && (factory ==> TopsErased(g, cells))
    requires TornErase(cells, cells', base, g.bankSize, g.eraseSize)
    ensures IsFlash(g, cells') && (factory ==> TopsErased(g, cells'))
    ensures BankAt(g, cells', OtherBase(g, base)) == BankAt(g, cells, OtherBase(g, base))
    ensures SafeUnit(g.eraseSize, factory) ==> HeaderKept(g, BankAt(g, cells, base), BankAt(g, cells', base))
  {
    hide Multiple, TornErase, TopErased, Header, BankAt, HeaderKept;
    TornEraseHeader(g, cells, cells', base);
    if factory {
      EraseTop(g, cells, cells', base);
    }
  }

  lemma PrepareTop(g: Geo, cells: seq<Byte>, cells': seq<Byte>, base: nat, seqNo: U32)
    requires IsFlash(g, cells) && IsBase(g, base) && IsErased(BankAt(g, cells, base))
    requires TornProgram(cells, cells', base, EncodeHeader(g, seqNo, HEADER_PREPARE))
    ensures IsFlash(g, cells') && TopErased(Header(g, BankAt(g, cells', base)))
  {
    hide Multiple, EncodeHeader, View;
    StateBytes(g, seqNo);
    assert Header(g, BankAt(g, cells, base))[34] == ERASED && Header(g, BankAt(g, cells, base))[35] == ERASED;
    HeaderByte(g, cells, base, 34);
    HeaderByte(g, cells, base, 35);
    HeaderByte(g, cells', base, 34);
    HeaderByte(g, cells', base, 35);
  }

  lemma ActivateTop(g: Geo, ok: bool, cells: seq<Byte>, cells': seq<Byte>, base: nat, seqNo: U32)
    requires ActivateResult(g, ok, cells, cells', base, seqNo) && TopsErased(g, cells)
    ensures TopsErased(g, cells')
  {
    hide Multiple, EncodeHeader, TopErased, TopsErased, Header, BankAt;
    StateBytes(g, seqNo);
    TopsKept(g, cells, cells', base);
  }

  lemma SafeIsHarmless(g: Geo, cells: seq<Byte>, cells': seq<Byte>, base: nat)
    requires IsFlash(g, cells) && |cells'| == |cells|
    requires TearSafe(g.eraseSize) || (g.eraseSize >= 7 && TopsErased(g, cells))
    ensures TornHarmless(g, cells, cells', base)
  {
    hide ProbeHeader, Multiple, View, Views, Header, TornErase, Stored, Active, Boot;
    if Sound(g, cells) && FreeBank(g, cells, base) && TornErase(cells, cells', base, g.bankSize, g.eraseSize) {
      TornEraseHeader(g, cells, cells', base);
      KeptIsHarmless(g, cells, cells', base);
    }
  }

  lemma KeptIsHarmless(g: Geo, cells: seq<Byte>, cells': seq<Byte>, base: nat)
    requires Sound(g, cells) && FreeBank(g, cells, base) && IsFlash(g, cells')
    requires BankAt(g, cells', OtherBase(g, base)) == BankAt(g, cells, OtherBase(g, base))
    requires HeaderKept(g, BankAt(g, cells, base), BankAt(g, cells', base))
    ensures Stored(g, cells') == Stored(g, cells)
  {
    hide ProbeHeader, Multiple, View, Views, Header, Stored, Active, Boot;
    var o := OtherBase(g, base);
    assert OtherBase(g, o) == base;
    if seqNo, used :| Active(g, cells, o, seqNo, used) && Crowded(g, used) {
      OtherBankTouched(g, cells, cells', o, seqNo, used);
    } else {
      FormatIsUnformatted(g, cells);
      UnformattedBoots(g, cells);
      UnformattedBoots(g, cells');
    }
  }

  lemma FormatIsUnformatted(g: Geo, cells: seq<Byte>)
    requires Sound(g, cells) && Boot(g, cells) == Format
    ensures Unformatted(g, cells)
  {
    hide ProbeHeader, Multiple, View, Views, Header, Boot, Active;
    if base, seqNo, used :| Active(g, cells, base, seqNo, used) {
      ActiveBoots(g, cells, base, seqNo, used);
    }
  }

  /** A checksum hook that tells nothing apart. */
  function FlatCrc(crc: U16, data: seq<Byte>): U16 {
    0xFFFF
  }

  const TINY_BANK: nat := 7140

  /** Lines of one byte, one less than a bank has slots; the bank is a multiple of every erase unit that is not
      tear-safe. */
  function TinyGeo(unit: nat): Geo {
    Geo(Config(504, 504, 1, 1, 1, FlatCrc), unit, 1, TINY_BANK, 504, 13, 14, 505)
  }

  lemma TinyValid(unit: nat)
    requires unit > 0 && TINY_BANK % unit == 0
    ensures TinyGeo(unit).Valid()
  {
    TimesIsProduct(505, 14);
    TimesIsProduct(504, 1);
    MultipleIsMod(TINY_BANK, unit);
    MultipleIsMod(TINY_BANK, 1);
    MultipleIsMod(HEADER_SIZE, 1);
    MultipleIsMod(13, 1);
    MultipleIsMod(504, 1);
  }

  /** A header whose erase unit at `at` alone was erased. */
  function OneUnitErased(h: seq<Byte>, unit: nat, at: nat): (r: seq<Byte>)
    requires |h| == HEADER_SIZE
    ensures |r| == HEADER_SIZE
  {
    seq(HEADER_SIZE, i requires 0 <= i < HEADER_SIZE => if at <= i < at + unit then ERASED else h[i])
  }

  /** `n` records that store the byte 0x55 in line 0. */
  function Records(unit: nat, n: nat): (r: seq<Byte>)
    ensures |r| == 14 * n
  {
    var g := TinyGeo(unit);
    if n == 0 then [] else Records(unit, n - 1) + (RecordData(g, 0, [0x55]) + CommitUnit(g))
  }

  /** A bank of the tiny geometry: an ACTIVE header and `n` records of the byte 0x55. */
  function Logged(unit: nat, seqNo: U32, n: nat): (bk: seq<Byte>)
    requires TinyGeo(unit).Valid() && n <= 505
    ensures |bk| == TINY_BANK
  {
    EncodeHeader(TinyGeo(unit), seqNo, HEADER_ACTIVE) + Records(unit, n) + Blank(TINY_BANK - HEADER_SIZE - 14 * n)
  }

  /** Bank 1 of the tiny geometry: with two records it is crowded. */
  function Rival(unit: nat, seqNo: U32): (bk: seq<Byte>)
    requires TinyGeo(unit).Valid()
    ensures |bk| == TINY_BANK
  {
    Logged(unit, seqNo, 2)
  }

  /** An empty bank 0 with header `h` in front of that bank. */
  function TwoBanks(h: seq<Byte>, rival: seq<Byte>): (cells: seq<Byte>)
    requires |h| == HEADER_SIZE && |rival| == TINY_BANK
    ensures |cells| == 2 * TINY_BANK
    ensures forall i :: 0 <= i < TINY_BANK ==> cells[i] == if i < HEADER_SIZE then h[i] else ERASED
    ensures cells[..HEADER_SIZE] == h && IsErased(cells[..TINY_BANK][HEADER_SIZE..]) && cells[TINY_BANK..] == rival
  {
    h + Blank(TINY_BANK - HEADER_SIZE) + rival
  }

  lemma InUnit(i: nat, unit: nat, at: nat)
    requires unit > 0 && at % unit == 0
    ensures i / unit == at / unit <==> at <= i < at + unit
  {
    DivTimes(i, unit);
    DivTimes(at, unit);
    TimesIsProduct(i / unit, unit);
    TimesIsProduct(at / unit, unit);
    if at <= i < at + unit {
      DivUnique(at / unit, unit, i - at);
    }
  }

  /** The units below `n` other than `q`. */
  function AllBut(n: nat, q: nat): (r: set<int>)
    ensures forall k: int :: k in r <==> 0 <= k < n && k != q
  {
    if n == 0 then {} else if n - 1 == q then AllBut(n - 1, q) else AllBut(n - 1, q) + {n - 1}
  }

  lemma OneUnitTorn(h: seq<Byte>, rival: seq<Byte>, unit: nat, at: nat)
    requires |h| == HEADER_SIZE && |rival| == TINY_BANK && unit > 0 && at % unit == 0
    ensures TornErase(TwoBanks(h, rival), TwoBanks(OneUnitErased(h, unit, at), rival), 0, TINY_BANK, unit)
  {
    hide TwoBanks;
    var cells, cells' := TwoBanks(h, rival), TwoBanks(OneUnitErased(h, unit, at), rival);
    var kept := AllBut(TINY_BANK, at / unit);
    forall i | 0 <= i < TINY_BANK
      ensures cells'[i] == if i / unit in kept then cells[i] else ERASED
    {
      InUnit(i, unit, at);
      DivTimes(i, unit);
      TimesIsProduct(i / unit, unit);
      MulMono(1, unit, i / unit);
    }
    assert ErasedExcept(cells, cells', 0, TINY_BANK, unit, kept);
  }

  lemma UnsafeUnits(unit: nat)
    requires unit > 0 && !TearSafe(unit)
    ensures unit in {1, 2, 3, 4, 5, 6, 7, 17, 34, 35} && TINY_BANK % unit == 0
  {
    if unit >= 7 {
      assert unit <= 35;
      assert unit in {7, 8, 9, 10, 11, 12, 13, 14, 15, 16, 17, 18, 19, 20,
                      21, 22, 23, 24, 25, 26, 27, 28, 29, 30, 31, 32, 33, 34, 35};
    }
  }

  /** A header and a unit of it whose erasure makes the header win over sequence number `rival`. Small units erase
      bytes of an old sequence number; the others complete a damaged state word. */
  lemma Forgery(unit: nat) returns (h: seq<Byte>, at: nat, rival: U32)
    requires unit > 0 && !TearSafe(unit) && TinyGeo(unit).Valid()
    ensures |h| == HEADER_SIZE && at % unit == 0 && (unit < 7 ==> TopErased(h))
    ensures var g, h' := TinyGeo(unit), OneUnitErased(h, unit, at);
      && (ProbeHeader(g, h) == None ==> HeaderSeq(h) < rival)
      && ProbeHeader(g, h') == None && rival <= HeaderSeq(h')
  {
    hide ProbeHeader, Multiple, Times, EncodeHeader, OneUnitErased;
    UnsafeUnits(unit);
    var g := TinyGeo(unit);
    h := EncodeHeader(g, 1, HEADER_ACTIVE);
    StateBytes(g, 1);
    HeaderRoundTrip(g, 1, HEADER_ACTIVE);
    if unit <= 6 {
      at, rival := if unit == 5 then 25 else 24, 2;
      SequenceErased(g, unit, at);
    } else {
      h, at, rival := h[35 := 0], if unit in {17, 34} then 34 else 35, 1;
      StateCompleted(g, unit, at);
    }
  }

  lemma StateCompleted(g: Geo, unit: nat, at: nat)
    requires g.Valid() && unit > 1 && at in {34, 35}
    ensures var h := EncodeHeader(g, 1, HEADER_ACTIVE)[35 := 0];
      && ProbeHeader(g, h) != None
      && ProbeHeader(g, OneUnitErased(h, unit, at)) == None && HeaderSeq(OneUnitErased(h, unit, at)) == 1
  {
    hide ProbeHeader, Multiple, Times, HeaderPrefix;
    var e := EncodeHeader(g, 1, HEADER_ACTIVE);
    var h := e[35 := 0];
    var h' := OneUnitErased(h, unit, at);
    StateBytes(g, 1);
    HeaderFields(g, 1, HEADER_ACTIVE);
    SameHead(g, h', e);
    hide EncodeHeader;
    AcceptedExactly(g, h);
    assert HeaderSeq(h) == 1 by {
      assert h[24..28] == e[24..28];
    }
    assert h[..36][35] == 0 && e[..36][35] == ERASED;
  }

  lemma StateBytes(g: Geo, seqNo: U32)
    requires g.Valid()
    ensures TopErased(EncodeHeader(g, seqNo, HEADER_ACTIVE)) && TopErased(EncodeHeader(g, seqNo, HEADER_PREPARE))
  {
    hide HeaderPrefix;
    assert PutU32(HEADER_ACTIVE)[2] == ERASED && PutU32(HEADER_ACTIVE)[3] == ERASED;
    assert PutU32(HEADER_PREPARE)[2] == ERASED && PutU32(HEADER_PREPARE)[3] == ERASED;
  }

  /** A header that starts like an ACTIVE encoding is accepted. */
  lemma SameHead(g: Geo, h: seq<Byte>, e: seq<Byte>)
    requires g.Valid() && |h| == |e| == HEADER_SIZE && e == EncodeHeader(g, HeaderSeq(e), HEADER_ACTIVE)
    requires forall i :: 0 <= i < 36 ==> h[i] == e[i]
    ensures ProbeHeader(g, h) == None && HeaderSeq(h) == HeaderSeq(e)
  {
    hide ProbeHeader, EncodeHeader;
    assert h[..36] == e[..36];
    PrefixSlice(h, e, 36, 24, 28);
    AcceptedExactly(g, h);
  }

  lemma SequenceErased(g: Geo, unit: nat, at: nat)
    requires g.Valid() && g.cfg.crc16 == FlatCrc && 0 < unit && 24 <= at < 28 && at + unit <= 30
    ensures var h' := OneUnitErased(EncodeHeader(g, 1, HEADER_ACTIVE), unit, at);
      ProbeHeader(g, h') == None && HeaderSeq(h') >= 0xFF
  {
    hide ProbeHeader, Multiple, Times, HeaderPrefix, PutU32, GetU32, EncodeHeader;
    var h := EncodeHeader(g, 1, HEADER_ACTIVE);
    var h' := OneUnitErased(h, unit, at);
    var seqNo := HeaderSeq(h');
    var e := EncodeHeader(g, seqNo, HEADER_ACTIVE);
    HeaderFields(g, seqNo, HEADER_ACTIVE);
    FlatHeader(g, 1);
    FlatHeader(g, seqNo);
    BytesRoundTrip(h'[24..28], h'[28..30]);
    assert forall i :: 24 <= i < 28 ==> h'[i] == h'[24..28][i - 24];
    SameHead(g, h', e);
    BigWord(h'[24..28], at - 24);
  }

  lemma BigWord(w: seq<Byte>, i: nat)
    requires |w| == 4 && i < 4 && w[i] == ERASED
    ensures GetU32(w) >= 0xFF
  {
  }

  /** With the flat hook only the sequence word depends on the sequence number, and its checksum looks erased. */
  lemma FlatHeader(g: Geo, seqNo: U32)
    requires g.Valid() && g.cfg.crc16 == FlatCrc
    ensures var e, e0 := EncodeHeader(g, seqNo, HEADER_ACTIVE), EncodeHeader(g, 0, HEADER_ACTIVE);
      && (forall i :: 0 <= i < HEADER_SIZE && !(24 <= i < 28) ==> e[i] == e0[i])
      && (forall i :: 24 <= i < 28 ==> e[i] == PutU32(seqNo)[i - 24])
      && e[28] == e[29] == ERASED
      && (forall i :: 24 <= i < 28 ==> e0[i] == 0)
  {
    hide HeaderPrefix;
    var e, e0, p, p0 := EncodeHeader(g, seqNo, HEADER_ACTIVE), EncodeHeader(g, 0, HEADER_ACTIVE),
      HeaderPrefix(g, seqNo), HeaderPrefix(g, 0);
    PrefixBytes(g, seqNo);
    PrefixBytes(g, 0);
    assert PutU32(0xFFFF) == [ERASED, ERASED, 0, 0] && PutU32(0) == [0, 0, 0, 0];
    assert forall i :: 0 <= i < 28 ==> e[i] == p[i] && e0[i] == p0[i];
  }

  lemma PrefixBytes(g: Geo, seqNo: U32)
    requires g.Valid()
    ensures HeaderPrefix(g, seqNo)[..24] == HeaderPrefix(g, 0)[..24] && HeaderPrefix(g, seqNo)[24..] == PutU32(seqNo)
  {
    hide PutU32;
  }

  /** The bank of the rival stores the byte 0x55, and it is crowded. */
  lemma RivalStores(unit: nat, seqNo: U32)
    requires TinyGeo(unit).Valid()
    ensures var g, bk := TinyGeo(unit), Rival(unit, seqNo);
      && HeaderOk(g, bk) && HeaderSeq(Header(g, bk)) == seqNo
      && Dense(Views(g, bk), 2) && BankImage(g, bk, 2)[0] == 0x55
      && Crowded(g, 2)
  {
    hide Multiple, ProbeHeader, EncodeHeader, RecordData, CommitUnit, View, Views, Slot, Off, SetLine, Image,
      BankImage, SameOutsideSlot;
    var g, bk := TinyGeo(unit), Rival(unit, seqNo);
    HeaderRoundTrip(g, seqNo, HEADER_ACTIVE);
    assert Header(g, bk) == EncodeHeader(g, seqNo, HEADER_ACTIVE);
    var empty := Logged(unit, seqNo, 0);
    EmptyBank(g, empty);
    RivalRecord(unit, seqNo, 0);
    RivalRecord(unit, seqNo, 1);
    TimesIsProduct(503, 1);
  }

  /** One more record keeps the log dense and the byte stored. */
  lemma RivalRecord(unit: nat, seqNo: U32, n: nat)
    requires TinyGeo(unit).Valid() && n < 505
    requires Dense(Views(TinyGeo(unit), Logged(unit, seqNo, n)), n)
    ensures var g, bk := TinyGeo(unit), Logged(unit, seqNo, n + 1);
      Dense(Views(g, bk), n + 1) && BankImage(g, bk, n + 1)[0] == 0x55
  {
    hide Multiple, ProbeHeader, EncodeHeader, RecordData, CommitUnit, View, Views, Times, Slot, Off, SetLine, Image,
      SameOutsideSlot, Logged;
    var g, bk, bk' := TinyGeo(unit), Logged(unit, seqNo, n), Logged(unit, seqNo, n + 1);
    RivalSlot(unit, seqNo, n);
    SlotAppended(g, bk, bk', n, 0, [0x55]);
    AppendEffect(1, 504, Views(g, bk), Views(g, bk'), n, 0, [0x55]);
    FirstByte(PrefixImage(1, 504, Views(g, bk), n), [0x55]);
  }

  lemma FirstByte(img: seq<Byte>, data: seq<Byte>)
    requires |data| == 1 && IsImage(1, 504, img)
    ensures |img| == 504 && SetLine(1, 504, img, 0, data)[0] == data[0]
  {
    TimesIsProduct(504, 1);
  }

  lemma RivalSlot(unit: nat, seqNo: U32, n: nat)
    requires TinyGeo(unit).Valid() && n < 505
    ensures var g, bk, bk' := TinyGeo(unit), Logged(unit, seqNo, n), Logged(unit, seqNo, n + 1);
      SameOutsideSlot(g, bk, bk', n) && ViewAt(g, bk', n) == Committed(0, [0x55])
  {
    hide Multiple, EncodeHeader, RecordData, CommitUnit, View;
    var g, bk, bk' := TinyGeo(unit), Logged(unit, seqNo, n), Logged(unit, seqNo, n + 1);
    TimesIsProduct(n, 14);
    OffFits(g, n);
    RecordRoundTrip(g, 0, [0x55]);
    assert Slot(g, bk', n) == RecordData(g, 0, [0x55]) + CommitUnit(g);
  }

  /** Where a header can be forged, the rival is active and its image is stored before the cut erase; afterwards the
      empty bank 0 wins. */
  lemma ImageLost(unit: nat, h: seq<Byte>, at: nat, rival: U32)
    requires unit > 0 && TinyGeo(unit).Valid() && |h| == HEADER_SIZE && at % unit == 0
    requires ProbeHeader(TinyGeo(unit), h) == None ==> HeaderSeq(h) < rival
    requires var h' := OneUnitErased(h, unit, at); ProbeHeader(TinyGeo(unit), h') == None && rival <= HeaderSeq(h')
    ensures var g, bk := TinyGeo(unit), Rival(unit, rival);
      var cells, cells' := TwoBanks(h, bk), TwoBanks(OneUnitErased(h, unit, at), bk);
      IsFlash(g, cells) && !TornHarmless(g, cells, cells', 0)
  {
    hide Multiple, ProbeHeader, View, Views, OneUnitErased, TwoBanks, Rival, Boot, Stored, TornErase, Times, BankImage;
    var g, bk, h' := TinyGeo(unit), Rival(unit, rival), OneUnitErased(h, unit, at);
    var cells, cells' := TwoBanks(h, bk), TwoBanks(h', bk);
    RivalStores(unit, rival);
    OneUnitTorn(h, bk, unit, at);
    assert BankAt(g, cells, TINY_BANK) == bk == BankAt(g, cells', TINY_BANK);
    assert Header(g, BankAt(g, cells, 0)) == h && Header(g, BankAt(g, cells', 0)) == h';
    EmptyBank(g, BankAt(g, cells', 0));
    ActiveBoots(g, cells, TINY_BANK, rival, 2);
    ActiveBoots(g, cells', 0, HeaderSeq(h'), 0);
    assert Active(g, cells, OtherBase(g, 0), rival, 2) && Crowded(g, 2);
    assert Stored(g, cells')[0] != Stored(g, cells)[0];
  }

  /** On arbitrary sound flash, cutting the erase of a bank the engine may erase keeps the stored image exactly for
      tear-safe units. */
  lemma TearSafeExactly(unit: nat)
    requires unit > 0
    ensures TearSafe(unit) <==> forall g: Geo, cells: seq<Byte>, cells': seq<Byte>, base: nat ::
      g.eraseSize == unit && IsFlash(g, cells) && |cells'| == |cells| ==> TornHarmless(g, cells, cells', base)
  {
    hide ProbeHeader, Multiple, TornHarmless, EncodeHeader, TwoBanks, Rival;
    if TearSafe(unit) {
      forall g: Geo, cells: seq<Byte>, cells': seq<Byte>, base: nat
        | g.eraseSize == unit && IsFlash(g, cells) && |cells'| == |cells|
        ensures TornHarmless(g, cells, cells', base)
      {
        SafeIsHarmless(g, cells, cells', base);
      }
    } else {
      UnsafeUnits(unit);
      TinyValid(unit);
      var h, at, rival := Forgery(unit);
      ImageLost(unit, h, at, rival);
    }
  }

  /** While the last two state bytes of both headers are erased, it keeps the image exactly for units of at least
      seven bytes. */
  lemma FactoryUnitExactly(unit: nat)
    requires unit > 0
    ensures unit >= 7 <==> forall g: Geo, cells: seq<Byte>, cells': seq<Byte>, base: nat ::
      g.eraseSize == unit && IsFlash(g, cells) && TopsErased(g, cells) && |cells'| == |cells| ==>
        TornHarmless(g, cells, cells', base)
  {
    hide ProbeHeader, Multiple, TornHarmless, EncodeHeader, Rival, View;
    if unit >= 7 {
      forall g: Geo, cells: seq<Byte>, cells': seq<Byte>, base: nat
        | g.eraseSize == unit && IsFlash(g, cells) && TopsErased(g, cells) && |cells'| == |cells|
        ensures TornHarmless(g, cells, cells', base)
      {
        SafeIsHarmless(g, cells, cells', base);
      }
    } else {
      UnsafeUnits(unit);
      TinyValid(unit);
      var h, at, rival := Forgery(unit);
      ImageLost(unit, h, at, rival);
      var g, bk := TinyGeo(unit), Rival(unit, rival);
      RivalTop(unit, rival);
      assert BankAt(g, TwoBanks(h, bk), TINY_BANK) == bk;
      assert Header(g, BankAt(g, TwoBanks(h, bk), 0)) == h;
    }
  }

  lemma RivalTop(unit: nat, seqNo: U32)
    requires TinyGeo(unit).Valid()
    ensures TopErased(Header(TinyGeo(unit), Rival(unit, seqNo)))
  {
    hide RecordData, CommitUnit, EncodeHeader, Multiple;
    StateBytes(TinyGeo(unit), seqNo);
  }
}
