/** On-flash format of the emulated EEPROM: geometry, bank headers and append records. */
module FlashFormat {
  import opened Arith
  import opened Bytes
  import opened Log
  import opened Wrappers

  const BANK_COUNT: nat := 2
  const HEADER_MAGIC: U32 := 0x50454548
  const RECORD_MAGIC: U32 := 0x50454552
  const HEADER_PREPARE: U32 := 0xFFFFFF00
  const HEADER_ACTIVE: U32 := 0xFFFF0000
  const HEADER_SIZE: nat := 64
  const RECORD_META_SIZE: nat := 12
  const STATE_OFFSET: nat := 32
  const CRC16_INIT: U16 := 0xFFFF

  /** Compile-time configuration. The CRC is a replaceable port hook, hence a parameter. */
  datatype Config = Config(
    logicalSize: nat,
    cacheSize: nat,
    lineSize: nat,
    programSize: nat,
    version: U32,
    crc16: (U16, seq<Byte>) -> U16)

  /** Geometry derived from the configuration and the bound port. */
  datatype Geo = Geo(
    cfg: Config,
    eraseSize: nat,
    programSize: nat,
    bankSize: nat,
    lineCount: nat,
    commitOffset: nat,
    recordSize: nat,
    maxRecords: nat)
  {
    /** What every accepted geometry provides, together with the port conditions the core relies on. */
    ghost predicate Valid() {
      && 0 < programSize <= cfg.programSize
      && 0 < cfg.lineSize <= 0xFFFF
      && 0 < cfg.cacheSize
      && Times(lineCount, cfg.lineSize) == cfg.logicalSize < 0x1_0000_0000
      && cfg.lineSize + RECORD_META_SIZE <= commitOffset < cfg.lineSize + RECORD_META_SIZE + programSize
      && recordSize == commitOffset + programSize
      && HEADER_SIZE < bankSize < 0x8000_0000
      && 0 < lineCount < maxRecords && lineCount < 0x1_0000_0000
      && HEADER_SIZE + Times(maxRecords, recordSize) <= bankSize
      && bankSize < HEADER_SIZE + Times(maxRecords, recordSize) + recordSize
      && 0 < eraseSize
      && Multiple(bankSize, eraseSize)
      && Multiple(bankSize, programSize)
      && Multiple(HEADER_SIZE, programSize)
      && Multiple(commitOffset, programSize)
      && Multiple(cfg.cacheSize, cfg.lineSize)
    }
  }

  /** Erase units a cut bank erase can be torn by without forging a bank header. */
  predicate TearSafe(unit: nat) {
    unit >= 7 && 34 % unit != 0 && 35 % unit != 0
  }

  /** The same for a device whose flash was erased when it was made: its headers never lose their last state bytes. */
  predicate SafeUnit(unit: nat, factory: bool) {
    if factory then unit >= 7 else TearSafe(unit)
  }

  /** Geometry checks in their original order. */
  function ValidateGeometry(cfg: Config, regionSize: nat, eraseSize: nat, programSize: nat): (r: Result<Geo, Diag>) {
    if regionSize == 0 || eraseSize == 0 || programSize == 0 then Err(PortGeometry)
    else if programSize > cfg.programSize then Err(BadConfig)
    else if cfg.cacheSize == 0 || cfg.lineSize == 0 || cfg.logicalSize == 0 then Err(BadConfig)
    else if cfg.cacheSize % cfg.lineSize != 0 || cfg.logicalSize % cfg.lineSize != 0 then Err(BadConfig)
    else
      var bankSize := regionSize / BANK_COUNT;
      var lineCount := (cfg.logicalSize + cfg.lineSize - 1) / cfg.lineSize;
      var commitOffset := AlignUp(cfg.lineSize + RECORD_META_SIZE, programSize);
      var recordSize := commitOffset + programSize;
      if HEADER_SIZE % programSize != 0 || recordSize % programSize != 0 then Err(BadConfig)
      else if bankSize % eraseSize != 0 || bankSize <= HEADER_SIZE then Err(PortGeometry)
      else
        var maxRecords := (bankSize - HEADER_SIZE) / recordSize;
        if maxRecords <= lineCount then Err(Capacity)
        else Ok(Geo(cfg, eraseSize, programSize, bankSize, lineCount, commitOffset, recordSize, maxRecords))
  }

  /** An accepted geometry is usable exactly when the port also meets the conditions that are not checked. */
  lemma AcceptedGeometry(cfg: Config, regionSize: nat, eraseSize: nat, programSize: nat)
    requires ValidateGeometry(cfg, regionSize, eraseSize, programSize).Ok?
    requires regionSize < 0x1_0000_0000 && cfg.logicalSize < 0x1_0000_0000
    ensures var g := ValidateGeometry(cfg, regionSize, eraseSize, programSize).value;
      g.Valid() <==> cfg.lineSize <= 0xFFFF && g.bankSize % programSize == 0
  {
    var g := ValidateGeometry(cfg, regionSize, eraseSize, programSize).value;
    DivTimes(cfg.logicalSize, cfg.lineSize);
    TimesDiv(cfg.logicalSize / cfg.lineSize, cfg.lineSize, cfg.lineSize - 1);
    assert g.lineCount == cfg.logicalSize / cfg.lineSize;
    DivTimes(g.bankSize - HEADER_SIZE, g.recordSize);
    MultipleIsMod(g.bankSize, eraseSize);
    MultipleIsMod(g.bankSize, programSize);
    MultipleIsMod(HEADER_SIZE, programSize);
    MultipleIsMod(cfg.cacheSize, cfg.lineSize);
  }

  /** Every usable geometry is accepted: the checks reject nothing that would work. */
  lemma UsableAccepted(g: Geo, regionSize: nat)
    requires g.Valid() && regionSize / BANK_COUNT == g.bankSize
    ensures ValidateGeometry(g.cfg, regionSize, g.eraseSize, g.programSize) == Ok(g)
  {
    var cfg := g.cfg;
    LineCountIs(cfg.logicalSize, cfg.lineSize, g.lineCount);
    MultipleIsMod(cfg.cacheSize, cfg.lineSize);
    CommitOffsetIs(g);
    SlotCountIs(g);
    MultipleIsMod(g.bankSize, g.eraseSize);
    MultipleIsMod(HEADER_SIZE, g.programSize);
    RecordAligned(g);
  }

  /** Why a geometry is refused: its port, its configuration, or a bank without room for every line and one more. */
  lemma {:induction false} GeometryFault(cfg: Config, regionSize: nat, eraseSize: nat, programSize: nat)
    ensures var r := ValidateGeometry(cfg, regionSize, eraseSize, programSize);
      && (regionSize == 0 || eraseSize == 0 || programSize == 0 ==> r == Err(PortGeometry))
      && (regionSize > 0 && eraseSize > 0 && programSize > 0 && !ConfigUsable(cfg, programSize) ==>
            r == Err(BadConfig))
      && (regionSize > 0 && eraseSize > 0 && programSize > 0 && ConfigUsable(cfg, programSize) ==>
            if !Multiple(regionSize / 2, eraseSize) || regionSize / 2 <= HEADER_SIZE then r == Err(PortGeometry)
            else if NeededSize(cfg, programSize) > regionSize / 2 then r == Err(Capacity)
            else r.Ok?)
  {
    if regionSize > 0 && eraseSize > 0 && programSize > 0 {
      MultipleIsMod(HEADER_SIZE, programSize);
      MultipleIsMod(regionSize / 2, eraseSize);
      if cfg.lineSize > 0 {
        MultipleIsMod(cfg.cacheSize, cfg.lineSize);
        MultipleIsMod(cfg.logicalSize, cfg.lineSize);
        RecordSizeAligned(cfg, programSize);
        if ConfigUsable(cfg, programSize) && regionSize / 2 > HEADER_SIZE {
          SlotsNeeded(cfg, programSize, regionSize / 2);
        }
      }
    }
  }

  /** Bytes a bank needs for its header and one record more than there are lines. */
  ghost function NeededSize(cfg: Config, programSize: nat): nat
    requires cfg.lineSize > 0 && programSize > 0
  {
    HEADER_SIZE + Times(cfg.logicalSize / cfg.lineSize + 1,
                        AlignUp(cfg.lineSize + RECORD_META_SIZE, programSize) + programSize)
  }

  ghost predicate ConfigUsable(cfg: Config, programSize: nat)
    requires programSize > 0
  {
    && programSize <= cfg.programSize
    && cfg.cacheSize > 0 && cfg.lineSize > 0 && cfg.logicalSize > 0
    && Multiple(cfg.cacheSize, cfg.lineSize) && Multiple(cfg.logicalSize, cfg.lineSize)
    && Multiple(HEADER_SIZE, programSize)
  }

  lemma RecordSizeAligned(cfg: Config, programSize: nat)
    requires programSize > 0
    ensures (AlignUp(cfg.lineSize + RECORD_META_SIZE, programSize) + programSize) % programSize == 0
  {
    hide Times;
    var at := AlignUp(cfg.lineSize + RECORD_META_SIZE, programSize);
    MultipleAdd(at, programSize, programSize);
    MultipleIsMod(at + programSize, programSize);
  }

  lemma SlotsNeeded(cfg: Config, programSize: nat, bankSize: nat)
    requires cfg.lineSize > 0 && cfg.logicalSize % cfg.lineSize == 0 && programSize > 0 && bankSize > HEADER_SIZE
    ensures var record := AlignUp(cfg.lineSize + RECORD_META_SIZE, programSize) + programSize;
      (bankSize - HEADER_SIZE) / record <= (cfg.logicalSize + cfg.lineSize - 1) / cfg.lineSize <==>
        NeededSize(cfg, programSize) > bankSize
  {
    hide Multiple;
    var record := AlignUp(cfg.lineSize + RECORD_META_SIZE, programSize) + programSize;
    var lines, room := cfg.logicalSize / cfg.lineSize, bankSize - HEADER_SIZE;
    DivTimes(cfg.logicalSize, cfg.lineSize);
    TimesDiv(lines, cfg.lineSize, cfg.lineSize - 1);
    DivTimes(room, record);
    var slots := room / record;
    if slots < lines + 1 {
      TimesMono(slots, lines + 1, record);
    } else if lines + 1 < slots {
      TimesMono(lines + 1, slots, record);
    }
  }

  lemma {:induction false} LineCountIs(size: nat, ls: nat, count: nat)
    requires ls > 0 && Times(count, ls) == size
    ensures size % ls == 0 && (size + ls - 1) / ls == count
    ensures count > 0 ==> size > 0
  {
    TimesDiv(count, ls, 0);
    TimesDiv(count, ls, ls - 1);
  }

  lemma CommitOffsetIs(g: Geo)
    requires g.Valid()
    ensures AlignUp(g.cfg.lineSize + RECORD_META_SIZE, g.programSize) == g.commitOffset
  {
    hide Multiple;
    var a := AlignUp(g.cfg.lineSize + RECORD_META_SIZE, g.programSize);
    NextMultiple(a, g.commitOffset, g.programSize);
    NextMultiple(g.commitOffset, a, g.programSize);
  }

  lemma SlotCountIs(g: Geo)
    requires g.Valid()
    ensures (g.bankSize - HEADER_SIZE) / g.recordSize == g.maxRecords
  {
    hide Multiple;
    TimesDiv(g.maxRecords, g.recordSize, g.bankSize - HEADER_SIZE - Times(g.maxRecords, g.recordSize));
  }

  lemma RecordAligned(g: Geo)
    requires g.Valid()
    ensures g.recordSize % g.programSize == 0
  {
    hide Times;
    MultipleAdd(g.commitOffset, g.programSize, g.programSize);
    MultipleIsMod(g.recordSize, g.programSize);
  }

  /** The shipped configuration defaults. */
  function DefaultConfig(crc16: (U16, seq<Byte>) -> U16): Config {
    Config(4096, 4096, 32, 8, 1, crc16)
  }

  /** On a 64 KiB region of 4 KiB sectors the defaults give 128 lines and 584 record slots per bank. */
  lemma DefaultGeometry(crc16: (U16, seq<Byte>) -> U16)
    ensures var g := Geo(DefaultConfig(crc16), 4096, 8, 0x8000, 128, 48, 56, 584);
      g.Valid() && ValidateGeometry(DefaultConfig(crc16), 0x1_0000, 4096, 8) == Ok(g)
  {
    var g := Geo(DefaultConfig(crc16), 4096, 8, 0x8000, 128, 48, 56, 584);
    TimesIsProduct(128, 32);
    TimesIsProduct(584, 56);
    MultipleIsMod(0x8000, 4096);
    MultipleIsMod(0x8000, 8);
    MultipleIsMod(HEADER_SIZE, 8);
    MultipleIsMod(48, 8);
    MultipleIsMod(4096, 32);
    UsableAccepted(g, 0x1_0000);
  }

  lemma GeometryShape(cfg: Config, regionSize: nat, eraseSize: nat, programSize: nat)
    requires ValidateGeometry(cfg, regionSize, eraseSize, programSize).Ok?
    ensures var g := ValidateGeometry(cfg, regionSize, eraseSize, programSize).value;
      && cfg.lineSize > 0 && cfg.cacheSize % cfg.lineSize == 0
      && g.cfg == cfg && 2 * g.bankSize <= regionSize
  {
  }

  // ----- Append records

  function RecordCrcOf(g: Geo, data: seq<Byte>, payloadSize: U16, line: U32): U16 {
    var crc := g.cfg.crc16(CRC16_INIT, data);
    var crc := g.cfg.crc16(crc, PutU32(line));
    g.cfg.crc16(crc, PutU16(payloadSize))
  }

  /** The commit unit repeats the record magic over one program unit. */
  function CommitUnit(g: Geo): (r: seq<Byte>)
    ensures |r| == g.programSize
    ensures forall i :: 0 <= i < |r| ==> r[i] != ERASED
  {
    assert PutU32(RECORD_MAGIC) == [0x52, 0x45, 0x45, 0x50];
    seq(g.programSize, i requires 0 <= i => PutU32(RECORD_MAGIC)[i % 4])
  }

  /** Payload, metadata and erased padding: everything programmed before the commit unit. */
  function RecordData(g: Geo, line: U32, data: seq<Byte>): (r: seq<Byte>)
    requires g.cfg.lineSize + RECORD_META_SIZE <= g.commitOffset
    requires |data| == g.cfg.lineSize
    ensures |r| == g.commitOffset
  {
    var payloadSize: U16 := g.cfg.lineSize % 0x1_0000;
    data + PutU32(line) + PutU16(payloadSize) + PutU16(RecordCrcOf(g, data, payloadSize, line))
    + PutU32(0xFFFF_FFFF) + Blank(g.commitOffset - g.cfg.lineSize - RECORD_META_SIZE)
  }

  /** Classification of one record slot, with the checks in scan order. */
  function View(g: Geo, rec: seq<Byte>): (v: SlotView)
    requires g.cfg.lineSize + RECORD_META_SIZE <= g.commitOffset
    requires |rec| == g.recordSize == g.commitOffset + g.programSize
    ensures v.Committed? ==> |v.data| == g.cfg.lineSize && v.line < g.lineCount
  {
    if IsErased(rec) then Erased
    else if rec[g.commitOffset..] != CommitUnit(g) then
      if HasErasedByte(rec[g.commitOffset..]) then Torn else Bad(RecordCommit)
    else
      var ls := g.cfg.lineSize;
      var line, payloadSize := GetU32(rec[ls..ls + 4]), GetU16(rec[ls + 4..ls + 6]);
      if line >= g.lineCount || payloadSize != ls then Bad(RecordRange)
      else if RecordCrcOf(g, rec[..ls], payloadSize, line) != GetU16(rec[ls + 6..ls + 8]) then Bad(RecordCrc)
      else Committed(line, rec[..ls])
  }

  /** A committed record of `line` with the expected payload size, integrity not yet checked. */
  predicate RecordMatches(g: Geo, rec: seq<Byte>, line: nat)
    requires g.cfg.lineSize + RECORD_META_SIZE <= g.commitOffset
    requires |rec| == g.recordSize == g.commitOffset + g.programSize
  {
    var ls := g.cfg.lineSize;
    && rec[g.commitOffset..] == CommitUnit(g)
    && GetU32(rec[ls..ls + 4]) == line
    && GetU16(rec[ls + 4..ls + 6]) == ls
  }

  predicate RecordIntact(g: Geo, rec: seq<Byte>)
    requires g.cfg.lineSize + RECORD_META_SIZE <= g.commitOffset
    requires |rec| == g.recordSize == g.commitOffset + g.programSize
  {
    var ls := g.cfg.lineSize;
    RecordCrcOf(g, rec[..ls], GetU16(rec[ls + 4..ls + 6]), GetU32(rec[ls..ls + 4])) == GetU16(rec[ls + 6..ls + 8])
  }

  /** On a slot the scan accepts, a matching record is intact and is the committed one of that line. */
  lemma MatchingRecord(g: Geo, rec: seq<Byte>, line: nat)
    requires g.Valid() && |rec| == g.recordSize && line < g.lineCount
    requires Readable(View(g, rec))
    ensures RecordMatches(g, rec, line) ==>
      RecordIntact(g, rec) && View(g, rec) == Committed(line, rec[..g.cfg.lineSize])
    ensures View(g, rec).Committed? && View(g, rec).line == line ==> RecordMatches(g, rec, line)
  {
  }

  predicate HasErasedByte(s: seq<Byte>) {
    exists i :: 0 <= i < |s| && s[i] == ERASED
  }

  predicate RecordGeometry(g: Geo) {
    && g.cfg.lineSize + RECORD_META_SIZE <= g.commitOffset
    && g.recordSize == g.commitOffset + g.programSize
    && g.programSize > 0
  }

  lemma RecordDataFields(g: Geo, line: U32, data: seq<Byte>)
    requires RecordGeometry(g) && |data| == g.cfg.lineSize
    ensures var r := RecordData(g, line, data); var ls := g.cfg.lineSize;
      && r[..ls] == data
      && GetU32(r[ls..ls + 4]) == line
      && GetU16(r[ls + 4..ls + 6]) == ls % 0x1_0000
      && GetU16(r[ls + 6..ls + 8]) == RecordCrcOf(g, data, ls % 0x1_0000, line)
  {
    var r, ls := RecordData(g, line, data), g.cfg.lineSize;
    var payloadSize: U16 := ls % 0x1_0000;
    var crc := RecordCrcOf(g, data, payloadSize, line);
    assert r[..ls] == data;
    assert r[ls..ls + 4] == PutU32(line);
    assert r[ls + 4..ls + 6] == PutU16(payloadSize);
    assert r[ls + 6..ls + 8] == PutU16(crc);
    WordRoundTrip(line, payloadSize);
    WordRoundTrip(line, crc);
  }

  /** A fully programmed record reads back as exactly the line it carries, precisely when the
      line size fits the 16-bit payload-size field. */
  lemma RecordRoundTrip(g: Geo, line: U32, data: seq<Byte>)
    requires RecordGeometry(g) && |data| == g.cfg.lineSize && line < g.lineCount
    ensures View(g, RecordData(g, line, data) + CommitUnit(g)) == Committed(line, data) <==> g.cfg.lineSize <= 0xFFFF
  {
    var rec, ls := RecordData(g, line, data) + CommitUnit(g), g.cfg.lineSize;
    RecordDataFields(g, line, data);
    assert rec[g.commitOffset] != ERASED;
    assert rec[g.commitOffset..] == CommitUnit(g);
    var r := RecordData(g, line, data);
    assert rec[..g.commitOffset] == r[..g.commitOffset];
    PrefixSlice(rec, r, g.commitOffset, 0, ls);
    PrefixSlice(rec, r, g.commitOffset, ls, ls + 4);
    PrefixSlice(rec, r, g.commitOffset, ls + 4, ls + 6);
    PrefixSlice(rec, r, g.commitOffset, ls + 6, ls + 8);
  }

  ghost predicate ReadsBack(g: Geo, line: U32, data: seq<Byte>)
    requires RecordGeometry(g) && |data| == g.cfg.lineSize
  {
    View(g, RecordData(g, line, data) + CommitUnit(g)) == Committed(line, data)
  }

  /** On an accepted geometry every record reads back exactly when the line size fits 16 bits; the checks do not
      demand that. */
  lemma AcceptedReadsBack(cfg: Config, regionSize: nat, eraseSize: nat, programSize: nat)
    requires ValidateGeometry(cfg, regionSize, eraseSize, programSize).Ok?
    ensures var g := ValidateGeometry(cfg, regionSize, eraseSize, programSize).value;
      && RecordGeometry(g)
      && ((forall line: U32, data: seq<Byte> ::
             line < g.lineCount && |data| == g.cfg.lineSize ==> ReadsBack(g, line, data))
          <==> cfg.lineSize <= 0xFFFF)
  {
    hide View, RecordData, CommitUnit;
    var g := ValidateGeometry(cfg, regionSize, eraseSize, programSize).value;
    DivTimes(cfg.logicalSize, cfg.lineSize);
    TimesDiv(cfg.logicalSize / cfg.lineSize, cfg.lineSize, cfg.lineSize - 1);
    assert g.lineCount > 0;
    forall line: U32, data: seq<Byte> | line < g.lineCount && |data| == g.cfg.lineSize
      ensures ReadsBack(g, line, data) <==> cfg.lineSize <= 0xFFFF
    {
      RecordRoundTrip(g, line, data);
    }
    assert |Blank(g.cfg.lineSize)| == g.cfg.lineSize;
    assert ReadsBack(g, 0, Blank(g.cfg.lineSize)) <==> cfg.lineSize <= 0xFFFF;
  }

  /** A geometry with one 64 KiB line. */
  function WideGeo(crc16: (U16, seq<Byte>) -> U16): Geo {
    Geo(Config(0x1_0000, 0x1_0000, 0x1_0000, 8, 1, crc16), 4096, 8, 0x4_0000, 1, 0x1_0010, 0x1_0018, 3)
  }

  /** It passes every check, and none of its records reads back. */
  lemma WideLinesAccepted(crc16: (U16, seq<Byte>) -> U16, data: seq<Byte>)
    requires |data| == 0x1_0000
    ensures ValidateGeometry(WideGeo(crc16).cfg, 0x8_0000, 4096, 8) == Ok(WideGeo(crc16))
    ensures !WideGeo(crc16).Valid() && !ReadsBack(WideGeo(crc16), 0, data)
  {
    hide View, RecordData, CommitUnit, Times, Multiple;
    assert AlignUp(0x1_000C, 8) == 0x1_0010;
    RecordRoundTrip(WideGeo(crc16), 0, data);
  }

  /** Nothing else reads back as that line: a slot is a committed record exactly when its payload, metadata
      and commit unit are those of the encoding. Padding and reserved bytes are free. */
  lemma CommittedExactly(g: Geo, rec: seq<Byte>, line: U32, data: seq<Byte>)
    requires RecordGeometry(g) && g.cfg.lineSize <= 0xFFFF
    requires |rec| == g.recordSize && |data| == g.cfg.lineSize && line < g.lineCount
    ensures View(g, rec) == Committed(line, data) <==>
      rec[..g.cfg.lineSize + 8] == RecordData(g, line, data)[..g.cfg.lineSize + 8] &&
        rec[g.commitOffset..] == CommitUnit(g)
  {
    hide RecordCrcOf, CommitUnit, GetU32, GetU16;
    var ls, r := g.cfg.lineSize, RecordData(g, line, data);
    RecordDataFields(g, line, data);
    if rec[g.commitOffset..] == CommitUnit(g) {
      CommitVisible(g, rec);
    }
    if rec[..ls + 8] == r[..ls + 8] {
      PrefixSlice(rec, r, ls + 8, 0, ls);
      PrefixSlice(rec, r, ls + 8, ls, ls + 4);
      PrefixSlice(rec, r, ls + 8, ls + 4, ls + 6);
      PrefixSlice(rec, r, ls + 8, ls + 6, ls + 8);
    } else if View(g, rec) == Committed(line, data) {
      SameFields(rec, r, ls);
    }
  }

  /** Every written slot that is not a record has one verdict, decided by its cause: a damaged commit unit, a line or
      payload size out of range, or bytes that are the encoding of no line. */
  lemma SlotVerdict(g: Geo, rec: seq<Byte>)
    requires RecordGeometry(g) && g.cfg.lineSize <= 0xFFFF && |rec| == g.recordSize && !IsErased(rec)
    ensures rec[g.commitOffset..] != CommitUnit(g) ==>
      View(g, rec) == if HasErasedByte(rec[g.commitOffset..]) then Torn else Bad(RecordCommit)
    ensures rec[g.commitOffset..] == CommitUnit(g) ==>
      var ls := g.cfg.lineSize;
      var line, size := GetU32(rec[ls..ls + 4]), GetU16(rec[ls + 4..ls + 6]);
      View(g, rec) ==
        if line >= g.lineCount || size != ls then Bad(RecordRange)
        else if rec[..ls + 8] != RecordData(g, line, rec[..ls])[..ls + 8] then Bad(RecordCrc)
        else Committed(line, rec[..ls])
  {
    hide RecordCrcOf, CommitUnit, GetU32, GetU16, RecordData, HasErasedByte;
    var ls := g.cfg.lineSize;
    var line := GetU32(rec[ls..ls + 4]);
    if rec[g.commitOffset..] == CommitUnit(g) && line < g.lineCount {
      CommittedExactly(g, rec, line, rec[..ls]);
    }
  }

  lemma CommitVisible(g: Geo, rec: seq<Byte>)
    requires RecordGeometry(g) && |rec| == g.recordSize && rec[g.commitOffset..] == CommitUnit(g)
    ensures !IsErased(rec)
  {
    assert rec[g.commitOffset] == CommitUnit(g)[0];
  }

  /** Equal fields are equal bytes. */
  lemma SameFields(a: seq<Byte>, b: seq<Byte>, ls: nat)
    requires ls + 8 <= |a| && ls + 8 <= |b| && a[..ls] == b[..ls]
    requires GetU32(a[ls..ls + 4]) == GetU32(b[ls..ls + 4])
    requires GetU16(a[ls + 4..ls + 6]) == GetU16(b[ls + 4..ls + 6])
    requires GetU16(a[ls + 6..ls + 8]) == GetU16(b[ls + 6..ls + 8])
    ensures a[..ls + 8] == b[..ls + 8]
  {
    hide GetU32, GetU16, PutU32, PutU16;
    BytesRoundTrip(a[ls..ls + 4], a[ls + 4..ls + 6]);
    BytesRoundTrip(b[ls..ls + 4], b[ls + 4..ls + 6]);
    BytesRoundTrip(a[ls..ls + 4], a[ls + 6..ls + 8]);
    BytesRoundTrip(b[ls..ls + 4], b[ls + 6..ls + 8]);
    assert a[..ls + 8] == a[..ls] + a[ls..ls + 4] + a[ls + 4..ls + 6] + a[ls + 6..ls + 8];
    assert b[..ls + 8] == b[..ls] + b[ls..ls + 4] + b[ls + 4..ls + 6] + b[ls + 6..ls + 8];
  }

  // ----- Bank headers

  /** Header bytes covered by the header CRC. */
  function HeaderPrefix(g: Geo, seqNo: U32): (r: seq<Byte>)
    requires g.Valid()
    ensures |r| == 28
  {
    PutU32(HEADER_MAGIC) + PutU32(g.cfg.version) + PutU32(g.cfg.logicalSize) + PutU32(g.cfg.lineSize)
    + PutU32(RecordWord(g)) + PutU32(g.bankSize) + PutU32(seqNo)
  }

  function RecordWord(g: Geo): U32
    requires g.Valid()
  {
    RecordFits(g);
    g.recordSize
  }

  lemma RecordFits(g: Geo)
    requires g.Valid()
    ensures g.recordSize <= g.bankSize
  {
    TimesMono(0, g.maxRecords, g.recordSize);
  }

  function EncodeHeader(g: Geo, seqNo: U32, state: U32): (r: seq<Byte>)
    requires g.Valid()
    ensures |r| == HEADER_SIZE
  {
    HeaderPrefix(g, seqNo) + PutU32(g.cfg.crc16(CRC16_INIT, HeaderPrefix(g, seqNo))) + PutU32(state) + Blank(28)
  }

  function Word(h: seq<Byte>, offset: nat): U32
    requires offset + 4 <= |h|
  {
    GetU32(h[offset..offset + 4])
  }

  function HeaderSeq(h: seq<Byte>): U32
    requires |h| == HEADER_SIZE
  {
    Word(h, 24)
  }

  /** Compatibility probe of one bank header. */
  function ProbeHeader(g: Geo, h: seq<Byte>): Diag
    requires |h| == HEADER_SIZE
  {
    if IsErased(h) then BankErased
    else if Word(h, 0) != HEADER_MAGIC then HeaderMagic
    else if Word(h, 4) != g.cfg.version then HeaderVersion
    else if Word(h, STATE_OFFSET) != HEADER_ACTIVE then HeaderState
    else if g.cfg.crc16(CRC16_INIT, h[..28]) != Word(h, 28) then HeaderCrc
    else if Word(h, 8) != g.cfg.logicalSize || Word(h, 12) != g.cfg.lineSize
         || Word(h, 16) != g.recordSize || Word(h, 20) != g.bankSize then HeaderLayout
    else None
  }

  lemma HeaderFields(g: Geo, seqNo: U32, state: U32)
    requires g.Valid()
    ensures var h := EncodeHeader(g, seqNo, state);
      && h[..28] == HeaderPrefix(g, seqNo)
      && Word(h, 0) == HEADER_MAGIC && Word(h, 4) == g.cfg.version
      && Word(h, 8) == g.cfg.logicalSize && Word(h, 12) == g.cfg.lineSize
      && Word(h, 16) == g.recordSize && Word(h, 20) == g.bankSize && Word(h, 24) == seqNo
      && Word(h, 28) == g.cfg.crc16(CRC16_INIT, HeaderPrefix(g, seqNo)) && Word(h, 32) == state
  {
    var h, p := EncodeHeader(g, seqNo, state), HeaderPrefix(g, seqNo);
    var crc: U32 := g.cfg.crc16(CRC16_INIT, p);
    RecordFits(g);
    assert h[..28] == p;
    var words: seq<U32> := [HEADER_MAGIC, g.cfg.version, g.cfg.logicalSize, g.cfg.lineSize, g.recordSize, g.bankSize,
      seqNo, crc, state];
    assert h[0..4] == PutU32(words[0]) && h[4..8] == PutU32(words[1]) && h[8..12] == PutU32(words[2]);
    assert h[12..16] == PutU32(words[3]) && h[16..20] == PutU32(words[4]) && h[20..24] == PutU32(words[5]);
    assert h[24..28] == PutU32(words[6]) && h[28..32] == PutU32(words[7]) && h[32..36] == PutU32(words[8]);
    forall i | 0 <= i < 9
      ensures GetU32(PutU32(words[i])) == words[i]
    {
      WordRoundTrip(words[i], 0);
    }
  }

  /** An encoded header passes the probe exactly when its state word is ACTIVE. */
  lemma HeaderRoundTrip(g: Geo, seqNo: U32, state: U32)
    requires g.Valid()
    ensures ProbeHeader(g, EncodeHeader(g, seqNo, state)) == None <==> state == HEADER_ACTIVE
    ensures HeaderSeq(EncodeHeader(g, seqNo, state)) == seqNo
  {
    HeaderFields(g, seqNo, state);
    var h := EncodeHeader(g, seqNo, state);
    assert PutU32(HEADER_MAGIC)[0] == 0x48;
    assert h[0] == PutU32(HEADER_MAGIC)[0];
  }

  /** A header written for another configuration is refused with the first difference the probe meets. */
  lemma ForeignHeader(g: Geo, other: Geo, seqNo: U32, state: U32)
    requires g.Valid() && other.Valid() && g.cfg.crc16 == other.cfg.crc16
    ensures ProbeHeader(g, EncodeHeader(other, seqNo, state)) ==
      if other.cfg.version != g.cfg.version then HeaderVersion
      else if state != HEADER_ACTIVE then HeaderState
      else if other.cfg.logicalSize != g.cfg.logicalSize || other.cfg.lineSize != g.cfg.lineSize ||
           other.recordSize != g.recordSize || other.bankSize != g.bankSize then HeaderLayout
      else None
  {
    var h := EncodeHeader(other, seqNo, state);
    HeaderFields(other, seqNo, state);
    MagicNotErased(h);
  }

  /** Erased flash and foreign contents are told apart. */
  lemma NoHeader(g: Geo, h: seq<Byte>)
    requires |h| == HEADER_SIZE && h[..4] != [0x48, 0x45, 0x45, 0x50]
    ensures ProbeHeader(g, h) == if IsErased(h) then BankErased else HeaderMagic
  {
    BytesRoundTrip(h[0..4], [0, 0]);
    assert PutU32(HEADER_MAGIC) == [0x48, 0x45, 0x45, 0x50];
  }

  /** The first `n` words of two byte sequences agree. */
  ghost predicate WordsAgree(a: seq<Byte>, b: seq<Byte>, n: nat)
    requires 4 * n <= |a| && 4 * n <= |b|
  {
    forall k :: 0 <= k < n ==> Word(a, 4 * k) == Word(b, 4 * k)
  }

  lemma {:induction false} WordsAreBytes(a: seq<Byte>, b: seq<Byte>, n: nat)
    requires 4 * n <= |a| && 4 * n <= |b|
    ensures WordsAgree(a, b, n) <==> a[..4 * n] == b[..4 * n]
  {
    hide GetU32, PutU32;
    if n != 0 {
      var m := 4 * n - 4;
      WordsAreBytes(a, b, n - 1);
      BytesRoundTrip(a[m..m + 4], [0, 0]);
      BytesRoundTrip(b[m..m + 4], [0, 0]);
      assert a[..4 * n] == a[..m] + a[m..m + 4] && b[..4 * n] == b[..m] + b[m..m + 4];
      assert 4 * (n - 1) == m;
      if a[..4 * n] == b[..4 * n] {
        PrefixSlice(a, b, 4 * n, 0, m);
        PrefixSlice(a, b, 4 * n, m, m + 4);
      }
      if WordsAgree(a, b, n) {
        assert Word(a, 4 * (n - 1)) == Word(b, 4 * (n - 1));
      }
    }
  }

  /** The probe accepts exactly the ACTIVE encodings of this geometry, whatever their sequence number;
      the reserved words are free. */
  lemma AcceptedExactly(g: Geo, h: seq<Byte>)
    requires g.Valid() && |h| == HEADER_SIZE
    ensures ProbeHeader(g, h) == None <==> h[..36] == EncodeHeader(g, HeaderSeq(h), HEADER_ACTIVE)[..36]
  {
    hide GetU32, PutU32, EncodeHeader, HeaderPrefix, Word;
    var e := EncodeHeader(g, HeaderSeq(h), HEADER_ACTIVE);
    HeaderFields(g, HeaderSeq(h), HEADER_ACTIVE);
    WordsAreBytes(h, e, 9);
    WordsAreBytes(h, e, 7);
    if h[..36] == e[..36] {
      NineWords(h, e);
      PrefixSlice(h, e, 36, 0, 28);
      MagicNotErased(h);
    } else if ProbeHeader(g, h) == None {
      forall k | 0 <= k < 7
        ensures Word(h, 4 * k) == Word(e, 4 * k)
      {
        assert k in {0, 1, 2, 3, 4, 5, 6};
      }
      forall k | 0 <= k < 9
        ensures Word(h, 4 * k) == Word(e, 4 * k)
      {
        assert k in {0, 1, 2, 3, 4, 5, 6, 7, 8};
      }
    }
  }

  lemma NineWords(a: seq<Byte>, b: seq<Byte>)
    requires |a| == |b| == HEADER_SIZE && WordsAgree(a, b, 9)
    ensures Word(a, 0) == Word(b, 0) && Word(a, 4) == Word(b, 4) && Word(a, 8) == Word(b, 8)
    ensures Word(a, 12) == Word(b, 12) && Word(a, 16) == Word(b, 16) && Word(a, 20) == Word(b, 20)
    ensures Word(a, 24) == Word(b, 24) && Word(a, 28) == Word(b, 28) && Word(a, 32) == Word(b, 32)
  {
    hide Word;
    assert Word(a, 4 * 0) == Word(b, 4 * 0) && Word(a, 4 * 1) == Word(b, 4 * 1) && Word(a, 4 * 2) == Word(b, 4 * 2);
    assert Word(a, 4 * 3) == Word(b, 4 * 3) && Word(a, 4 * 4) == Word(b, 4 * 4) && Word(a, 4 * 5) == Word(b, 4 * 5);
    assert Word(a, 4 * 6) == Word(b, 4 * 6) && Word(a, 4 * 7) == Word(b, 4 * 7) && Word(a, 4 * 8) == Word(b, 4 * 8);
  }

  lemma MagicNotErased(h: seq<Byte>)
    requires |h| == HEADER_SIZE && Word(h, 0) == HEADER_MAGIC
    ensures !IsErased(h)
  {
    BytesRoundTrip(h[0..4], [0, 0]);
    assert PutU32(HEADER_MAGIC)[0] == 0x48;
  }

  /** The byte that separates ACTIVE from PREPARE and from an erased state word. */
  const ACTIVE_BYTE: nat := STATE_OFFSET + 1

  /** A header whose activation byte is still erased is never accepted, however torn the rest is. */
  lemma InactiveHeaderRejected(g: Geo, h: seq<Byte>)
    requires |h| == HEADER_SIZE && h[ACTIVE_BYTE] == ERASED
    ensures ProbeHeader(g, h) != None
  {
    var w := h[32..36];
    assert w[1] == ERASED;
    assert w[..2][1] == w[1];
  }

  /** PREPARE and ACTIVE headers differ in the activation byte alone. */
  lemma ActivationIsOneByte(g: Geo, seqNo: U32)
    requires g.Valid()
    ensures var p, a := EncodeHeader(g, seqNo, HEADER_PREPARE), EncodeHeader(g, seqNo, HEADER_ACTIVE);
      && p[ACTIVE_BYTE] == ERASED
      && a[ACTIVE_BYTE] == 0
      && a == p[ACTIVE_BYTE := 0]
  {
    hide HeaderPrefix, Times, Multiple;
    assert PutU32(HEADER_PREPARE) == [0, 255, 255, 255];
    assert PutU32(HEADER_ACTIVE) == [0, 0, 255, 255];
    var front := HeaderPrefix(g, seqNo) + PutU32(g.cfg.crc16(CRC16_INIT, HeaderPrefix(g, seqNo)));
    assert EncodeHeader(g, seqNo, HEADER_PREPARE) == front + [0, 255, 255, 255] + Blank(28);
    assert EncodeHeader(g, seqNo, HEADER_ACTIVE) == front + [0, 0, 255, 255] + Blank(28);
  }
}
