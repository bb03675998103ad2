/** The flash-emulated EEPROM engine: a byte-addressable store on two erase-before-write banks. */
module FlashEeprom {
  import opened Arith
  import opened Banks
  import opened Bytes
  import opened CacheWindow
  import opened DirtyMaps
  import opened Discipline
  import opened FlashBoot
  import opened FlashFormat
  import opened FlashPorts
  import opened FlashSteps
  import opened Lines
  import opened Log
  import opened Rebuild
  import opened TornErases
  import opened Wrappers

  datatype Status = Success | Error | NvmError | ParamError | InitError

  class FlashEe {
    const cfg: Config
    const port: FlashPort
    const cache: array<Byte>
    const dirty: DirtyMap
    var geo: Geo
    var isInit: bool
    var cacheValid: bool
    var activeBase: nat
    var inactiveBase: nat
    var activeSeq: U32
    var activeNext: nat
    var cacheBase: nat
    var cacheSize: nat
    ghost var used: nat      // record slots below the append position
    ghost var winFirst: nat  // first logical line of the cache window
    ghost var winLines: nat  // number of lines in the cache window

    // ----- Invariants

    /** Buffers are dimensioned for the configuration. */
    ghost predicate Wired()
      reads this, port
    {
      && port.Valid()
      && cfg.lineSize > 0
      && cache as object != dirty.bits as object
      && cache.Length == cfg.cacheSize <= Times(8 * dirty.bits.Length, cfg.lineSize)
    }

    /** The derived geometry is usable and belongs to this configuration and port, and so far every operation on
        the flash kept its discipline. */
    ghost predicate Fits()
      reads this, port
    {
      && Wired()
      && geo.Valid()
      && geo.cfg == cfg
      && geo.eraseSize == port.eraseSize
      && geo.programSize == port.programSize
      && 2 * geo.bankSize <= port.regionSize
      && Orderly(geo, port.log)
      && (port.factory ==> TopsErased(geo, port.cells))
    }

    ghost predicate Mounted()
      reads this, port
    {
      && isInit
      && Fits()
      && IsBase(geo, activeBase)
      && inactiveBase == OtherBase(geo, activeBase)
    }

    /** RAM and flash agree on the active bank and its append position. */
    ghost predicate Located()
      reads this, port
    {
      && Mounted()
      && port.powered
      && Active(geo, port.cells, activeBase, activeSeq, used)
      && activeNext == Off(geo, used)
    }

    /** What a power-up would recover right now. */
    ghost function Durable(): (r: seq<Byte>)
      requires Fits()
      reads this, port
      ensures IsImage(cfg.lineSize, geo.lineCount, r)
    {
      Stored(geo, port.cells)
    }

    ghost function Win(): seq<Byte>
      requires cacheSize <= cache.Length
      reads this, cache
    {
      cache[..cacheSize]
    }

    ghost predicate WindowShape()
      reads this
    {
      && cacheSize <= cache.Length
      && cacheSize == LineStart(cfg.lineSize, winLines)
      && winLines <= 8 * dirty.bits.Length
    }

    /** A loaded window is one aligned stretch of whole lines of the logical space. */
    ghost predicate WindowPlaced()
      requires Fits()
      reads this, port
    {
      && cacheSize == LineStart(cfg.lineSize, winLines)
      && winFirst + winLines <= geo.lineCount
      && cacheBase == LineStart(cfg.lineSize, winFirst)
      && cacheBase < cfg.logicalSize
      && cacheSize == if cfg.logicalSize - cacheBase > cfg.cacheSize then cfg.cacheSize else cfg.logicalSize - cacheBase
    }

    /** Cached lines that are not dirty equal the stored ones; nothing beyond the window is dirty. */
    ghost predicate WindowOk()
      requires Fits()
      reads this, port, cache, dirty.bits
    {
      && WindowShape()
      && (forall i :: winLines <= i < 8 * dirty.bits.Length ==> !dirty.IsDirty(i))
      && (!cacheValid ==> Clean())
      && (cacheValid ==> WindowPlaced() && CleanLinesShown())
    }

    ghost predicate CleanLinesShown()
      requires Fits() && WindowShape() && WindowPlaced()
      reads this, port, cache, dirty.bits
    {
      forall j :: 0 <= j < winLines && !dirty.IsDirty(j) ==>
        ShownLine(cfg.lineSize, geo.lineCount, Durable(), winFirst, winLines, Win(), j)
    }

    ghost predicate Valid()
      reads this, port, cache, dirty.bits
    {
      Located() && WindowOk()
    }

    /** What a reader sees: the cache window on top of the stored image. */
    ghost function Live(): (r: seq<Byte>)
      requires Valid()
      reads this, port, cache, dirty.bits
      ensures IsImage(cfg.lineSize, geo.lineCount, r)
    {
      if cacheValid then Overlaid(cfg.lineSize, geo.lineCount, Durable(), winFirst, winLines, Win()) else Durable()
    }

    ghost predicate Clean()
      reads dirty.bits
    {
      forall i :: 0 <= i < 8 * dirty.bits.Length ==> !dirty.IsDirty(i)
    }

    /** Number of staged lines that wait to be stored. */
    ghost function Pending(): nat
      requires winLines <= 8 * dirty.bits.Length
      reads this, dirty.bits
    {
      dirty.CountFrom(0, winLines)
    }

    /** Nothing is staged if it was so before; otherwise the `n` staged lines still wait in the window at `base`. */
    ghost predicate Parked(clean: bool, base: nat, n: nat)
      requires winLines <= 8 * dirty.bits.Length
      reads this, dirty.bits
    {
      Clean() == clean && (!clean ==> cacheValid && cacheBase == base && Pending() == n)
    }

    /** The active bank has a free slot for every dirty line. */
    ghost predicate Room()
      reads this, dirty.bits
    {
      winLines <= 8 * dirty.bits.Length && used + Pending() <= geo.maxRecords
    }

    /** `base` is still the active bank with the same sequence number, and `n` of its slots are written. */
    ghost predicate At(base: nat, seqNo: nat, n: nat)
      reads this
    {
      activeBase == base && activeSeq == seqNo && used == n
    }

    /** `base` is still the active bank, with `n` slots written or claimed by staged lines. */
    ghost predicate Spent(base: nat, seqNo: nat, n: nat)
      reads this, dirty.bits
    {
      && winLines <= 8 * dirty.bits.Length
      && activeBase == base && activeSeq == seqNo && used + Pending() == n
    }

    /** Bank `base` has taken over from sequence number `seqNo`, with one record for each line that is not erased. */
    ghost predicate Compacted(base: nat, seqNo: nat)
      requires Valid()
      reads this, port, cache, dirty.bits
    {
      At(base, seqNo + 1, FilledLines(cfg.lineSize, geo.lineCount, Live(), geo.lineCount))
    }

    lemma CleanHasRoom()
      requires Valid() && Clean()
      ensures Room() && Pending() == 0
    {
      hide Multiple, View, ProbeHeader, EncodeHeader, Views, Active, Overlaid, Off, ShownLine, Stored, Orderly, History,
        TopsErased;
      ActiveShape(geo, port.cells, activeBase, activeSeq, used);
      dirty.CleanCount(0, winLines);
    }

    lemma FullIsCrowded()
      requires Fits()
      ensures Crowded(geo, geo.maxRecords)
    {
    }

    /** Without room for the staged lines the active bank is crowded. */
    lemma NoRoom()
      requires Valid() && !Room()
      ensures Crowded(geo, used)
    {
      hide Multiple, View, ProbeHeader, EncodeHeader, Views, Active, Overlaid, Off, ShownLine, Stored, Orderly, History,
        TopsErased;
      ActiveShape(geo, port.cells, activeBase, activeSeq, used);
      if !cacheValid {
        dirty.CleanCount(0, winLines);
      } else {
        TimesMono(geo.maxRecords - used, winLines, cfg.lineSize);
      }
    }

    /** No bank erase was cut, or cutting one is safe. */
    predicate Intact()
      reads this`geo, port`scarred
    {
      SafeUnit(geo.eraseSize, port.factory) || !port.scarred
    }

    /** Power is gone; while intact the flash is recoverable and every line it stores comes from one of `sources`. */
    ghost predicate Cut(sources: set<seq<Byte>>)
      reads this, port
    {
      && Mounted()
      && !port.powered
      && (Intact() ==>
        && Sound(geo, port.cells)
        && LinesFrom(cfg.lineSize, geo.lineCount, Durable(), sources))
    }

    /** Not initialized, with buffers and window bookkeeping in a state `Init` accepts. */
    ghost predicate Idle()
      reads this, port
    {
      Wired() && !isInit && WindowShape()
    }

    /** Binds a port; buffers are sized from the configuration. */
    constructor (cfg: Config, port: FlashPort)
      requires port.Valid()
      requires cfg.lineSize > 0 && cfg.cacheSize % cfg.lineSize == 0
      ensures Idle() && this.cfg == cfg && this.port == port
      ensures fresh(cache) && fresh(dirty.bits)
    {
      var lines := cfg.cacheSize / cfg.lineSize;
      var map_ := new DirtyMap(lines);
      this.cfg, this.port := cfg, port;
      cache := new Byte[cfg.cacheSize];
      dirty := map_;
      geo := Geo(cfg, 0, 0, 0, 0, 0, 0, 0);
      isInit, cacheValid := false, false;
      activeBase, inactiveBase, activeSeq, activeNext := 0, 0, 0, 0;
      cacheBase, cacheSize, used, winFirst, winLines := 0, 0, 0, 0, 0;
      DivTimes(cfg.cacheSize, cfg.lineSize);
      if lines < 8 * map_.bits.Length {
        TimesMono(lines, 8 * map_.bits.Length, cfg.lineSize);
      }
    }

    // ----- Records

    /** First half of an append: payload and metadata, commit unit left erased. */
    method ProgramData(base: nat, at: nat, line: nat, data: seq<Byte>, ghost k: nat) returns (ok: bool)
      requires Fits() && port.powered && IsBase(geo, base)
      requires k < geo.maxRecords && at == base + Off(geo, k)
      requires Appendable(geo, port.cells, base, k, activeBase, activeSeq, used)
      requires line < geo.lineCount && |data| == cfg.lineSize
      modifies port
      ensures port.Grown() && OnlyPrograms(old(port.log), port.log)
      ensures Fits() && ok == port.powered
      ensures DataResult(geo, ok, old(port.cells), port.cells, base, k, RecordData(geo, line, data))
    {
      hide Multiple, View, ProbeHeader, RecordData, ClearsOnly, Programmed, DataResult, Views, OpenSlot, Orderly,
        Appendable, Disciplined, History, TopsErased;
      ghost var cells, log := port.cells, port.log;
      ErasedSlot(geo, cells, base, k, activeBase, activeSeq, used);
      DataReady(geo, cells, base, k, line, data);
      var record := RecordData(geo, line, data);
      DataDisciplined(geo, cells, base, k, activeBase, activeSeq, used, record);
      OrderlyNext(geo, log, ProgramOp(cells, at, record));
      ok := port.Program(at, record);
      DataProgram(geo, ok, cells, port.cells, base, k, record);
      if port.factory {
        DataTop(geo, ok, cells, port.cells, base, k, record);
      }
    }

    /** Second half of an append: the commit unit alone makes the record visible. */
    method ProgramCommit(base: nat, at: nat, line: nat, data: seq<Byte>, ghost k: nat, ghost cells: seq<Byte>)
      returns (ok: bool)
      requires Fits() && port.powered && IsBase(geo, base)
      requires k < geo.maxRecords && at == base + Off(geo, k) + geo.commitOffset
      requires Appendable(geo, cells, base, k, activeBase, activeSeq, used)
      requires line < geo.lineCount && |data| == cfg.lineSize
      requires DataResult(geo, true, cells, port.cells, base, k, RecordData(geo, line, data))
      modifies port
      ensures port.Grown() && OnlyPrograms(old(port.log), port.log)
      ensures Fits() && ok == port.powered
      ensures AppendResult(geo, ok, cells, port.cells, base, k, line, data)
    {
      hide Multiple, View, ProbeHeader, RecordData, ClearsOnly, Programmed, Views, AppendResult, Orderly, Appendable,
        Disciplined, History, TopsErased;
      ghost var cells1, log := port.cells, port.log;
      var commit := CommitUnit(geo);
      CommitReady(geo, cells1, base, k);
      CommitDisciplined(geo, cells, cells1, base, k, activeBase, activeSeq, used, line, data);
      OrderlyNext(geo, log, ProgramOp(cells1, at, commit));
      ok := port.Program(at, commit);
      CommitProgram(geo, ok, cells, cells1, port.cells, base, k, line, data);
      if port.factory {
        CommitTop(geo, ok, cells, cells1, port.cells, base, k, RecordData(geo, line, data), line, data);
      }
    }

    /** Appends one line record to the active bank or the one under construction; slot `k` is where the caller's
        append offset points. */
    method AppendRecord(base: nat, next: nat, line: nat, data: seq<Byte>, ghost k: nat)
      returns (status: Status, next': nat, ghost k': nat)
      requires Fits() && port.powered && IsBase(geo, base)
      requires k <= geo.maxRecords && next == Off(geo, k)
      requires Appendable(geo, port.cells, base, k, activeBase, activeSeq, used)
      requires line < geo.lineCount && |data| == cfg.lineSize
      modifies port
      ensures port.Grown() && OnlyPrograms(old(port.log), port.log)
      ensures Fits()
      ensures k' in {k, k + 1} && next' == Off(geo, k')
      ensures k == geo.maxRecords ==> status == NvmError && port.powered && port.cells == old(port.cells) && k' == k
      ensures k < geo.maxRecords ==>
        && (status == Success <==> port.powered)
        && (status == Success ==> k' == k + 1)
        && AppendResult(geo, port.powered, old(port.cells), port.cells, base, k, line, data)
    {
      hide Multiple, View, ProbeHeader, RecordData, Views, AppendResult, Orderly, Appendable, History, TopsErased;
      status, next', k' := NvmError, next, k;
      OffFits(geo, k);
      if next + geo.recordSize > geo.bankSize {
        return;
      }
      ghost var cells := port.cells;
      var ok := ProgramData(base, base + next, line, data, k);
      if !ok {
        OpenSlotOutcome(geo, cells, port.cells, base, k, line, data);
        return;
      }
      ghost var log := port.log;
      next', k' := next + geo.recordSize, k + 1;
      ok := ProgramCommit(base, base + next + geo.commitOffset, line, data, k, cells);
      OnlyProgramsTrans(old(port.log), log, port.log);
      if ok {
        status := Success;
      }
    }

    // ----- Bank preparation

    /** Erases a bank and programs its PREPARE header. */
    method PrepareBank(base: nat, seqNo: U32) returns (ok: bool)
      requires Fits() && IsBase(geo, base)
      requires port.powered ==> FreeBank(geo, port.cells, base)
      modifies port
      ensures port.Grown()
      ensures Fits() && ok == port.powered && (old(port.powered) ==> old(port.log) < port.log)
      ensures !old(port.powered) ==> !ok && port.cells == old(port.cells) && port.log == old(port.log)
      ensures PrepareResult(geo, ok, ok || Intact(), old(port.cells), port.cells, base, seqNo)
      ensures ok ==> FreeBank(geo, port.cells, base)
    {
      hide Multiple, View, ProbeHeader, EncodeHeader, Views, ClearsOnly, Programmed, TornErase, Header, HeaderOk,
        Orderly, Disciplined, FreeBank, History, TopsErased;
      ghost var cells, log := port.cells, port.log;
      BaseMultiple(geo, base);
      if port.powered {
        BankWork(geo, EraseOp(cells, base, geo.bankSize), base);
        OrderlyNext(geo, log, EraseOp(cells, base, geo.bankSize));
      } else {
        assert log + [] == log;
      }
      ok := port.Erase(base, geo.bankSize);
      if !ok {
        CutErase(geo, port.factory, cells, port.cells, base);
        return;
      }
      ghost var cells1, log1 := port.cells, port.log;
      ErasedBank(geo, cells, cells1, base);
      StaysFree(geo, cells, cells1, base);
      PrepareReady(geo, cells1, base, seqNo);
      var header := EncodeHeader(geo, seqNo, HEADER_PREPARE);
      BankWork(geo, ProgramOp(cells1, base, header), base);
      OrderlyNext(geo, log1, ProgramOp(cells1, base, header));
      ok := port.Program(base, header);
      PrepareProgram(geo, ok, cells1, port.cells, base, seqNo);
      if port.factory {
        PrepareTop(geo, cells1, port.cells, base, seqNo);
        TopsKept(geo, cells, port.cells, base);
      }
      StaysFree(geo, cells1, port.cells, base);
    }

    /** The whole program units that hold the state word of a bank header. */
    method PatchUnits(base: nat) returns (at: nat, size: nat)
      requires geo.Valid() && IsBase(geo, base)
      ensures base <= at <= base + STATE_OFFSET && base + STATE_OFFSET + 4 <= at + size <= base + HEADER_SIZE
      ensures Multiple(at, geo.programSize) && Multiple(size, geo.programSize)
      ensures size <= PatchBufferSize(geo.cfg) && geo.recordSize <= RecordBufferSize(geo.cfg)
    {
      hide Multiple, View, ProbeHeader, Orderly, History, TopsErased;
      var stateAddr := base + STATE_OFFSET;
      at := BlockStart(stateAddr, geo.programSize);
      size := AlignUp(stateAddr - at + 4, geo.programSize);
      BaseMultiple(geo, base);
      MultipleAdd(base, HEADER_SIZE, geo.programSize);
      BlocksInside(base, stateAddr, 4, base + HEADER_SIZE, at, size, geo.programSize);
      BuffersFit(geo, base, at, size);
    }

    /** Patches the state word of a prepared bank to ACTIVE, whole program units at a time. */
    method ActivateBank(base: nat, ghost seqNo: U32) returns (ok: bool)
      requires Fits() && IsBase(geo, base)
      requires Header(geo, BankAt(geo, port.cells, base)) == EncodeHeader(geo, seqNo, HEADER_PREPARE)
      requires port.powered ==> FreeBank(geo, port.cells, base)
      modifies port
      ensures port.Grown()
      ensures Fits() && ok == port.powered
      ensures ActivateResult(geo, ok, old(port.cells), port.cells, base, seqNo)
    {
      hide Multiple, View, ProbeHeader, EncodeHeader, PutU32, Times, ClearsOnly, Programmed, IsActivePatch, Orderly,
        Disciplined, FreeBank, History, TopsErased;
      ghost var cells, log := port.cells, port.log;
      var addr, size := PatchUnits(base);
      var patch;
      ok, patch := port.Read(addr, size);
      if !ok {
        return;
      }
      patch := Splice(patch, base + STATE_OFFSET - addr, PutU32(HEADER_ACTIVE));
      PatchRead(geo, cells, base, seqNo, addr, size, patch);
      BankWork(geo, ProgramOp(cells, addr, patch), base);
      OrderlyNext(geo, log, ProgramOp(cells, addr, patch));
      ok := port.Program(addr, patch);
      PatchProgrammed(geo, ok, cells, port.cells, base, seqNo, addr, patch);
      if port.factory {
        ActivateTop(geo, ok, cells, port.cells, base, seqNo);
      }
    }

    // ----- Scanning and reading lines

    /** Probes the header and walks the slots forward; `next` is the append offset of a readable bank. */
    method ScanBank(base: nat) returns (valid: bool, diag: Diag, seqNo: U32, next: nat, ghost count: nat)
      requires Fits() && IsBase(geo, base)
      modifies port`powered
      ensures Fits()
      ensures !port.powered ==> !valid && diag == PortRead
      ensures !old(port.powered) ==> !port.powered
      ensures port.powered ==>
        match Scan(geo, BankAt(geo, port.cells, base))
        case Ok((s, n)) => valid && seqNo == s && count == n && next == Off(geo, n)
        case Err(d) => !valid && diag == d
    {
      hide Multiple, View, ProbeHeader, ScanAt, Views, BankAt, Off, Orderly, History, TopsErased;
      valid, diag, seqNo, next, count := false, PortRead, 0, HEADER_SIZE, 0;
      ScanStart(geo, port.cells, base);
      var ok, header := port.Read(base, HEADER_SIZE);
      if !ok {
        return;
      }
      var probe := ProbeHeader(geo, header);
      if probe != None {
        diag := probe;
        return;
      }
      ScanStep(geo, port.cells, base, count, next);
      while next + geo.recordSize <= geo.bankSize
        invariant port.powered && ScanAt(geo, port.cells, base, count, next)
        invariant next + geo.recordSize <= geo.bankSize <==> count < geo.maxRecords
        decreases geo.bankSize - next
      {
        ScanStep(geo, port.cells, base, count, next);
        var rec;
        ok, rec := port.Read(base + next, geo.recordSize);
        if !ok {
          return;
        }
        var view := View(geo, rec);
        if view.Erased? {
          break;
        }
        if view.Bad? {
          diag := view.diag;
          return;
        }
        next, count := next + geo.recordSize, count + 1;
        ScanStep(geo, port.cells, base, count, next);
      }
      ScanStep(geo, port.cells, base, count, next);
      ScanOffset(geo, port.cells, base, count, next);
      valid, diag, seqNo := true, None, HeaderSeq(header);
    }

    /** Walks the active log backwards to the newest committed record of `line`. */
    method ResolveLine(line: nat) returns (ok: bool, buf: seq<Byte>)
      requires Located() && line < geo.lineCount
      modifies port`powered
      ensures Mounted() && ok == port.powered && |buf| == cfg.lineSize
      ensures ok ==> Located() && buf == LineOf(cfg.lineSize, geo.lineCount, Durable(), line)
    {
      hide Multiple, ProbeHeader, View, RecordMatches, RecordIntact, Active, Views, WalkAt, Off, Orderly, History,
        TopsErased;
      ActiveShape(geo, port.cells, activeBase, activeSeq, used);
      WalkStart(geo, port.cells, activeBase, activeSeq, used, line);
      buf := Blank(cfg.lineSize);
      var offset: nat := activeNext;
      ghost var k: nat := used;
      while offset > HEADER_SIZE
        invariant port.powered && WalkAt(geo, port.cells, activeBase, used, line, k, offset)
        invariant buf == Blank(cfg.lineSize)
      {
        WalkStep(geo, port.cells, activeBase, activeSeq, used, line, k, offset);
        offset, k := offset - geo.recordSize, k - 1;
        var rec;
        ok, rec := port.Read(activeBase + offset, geo.recordSize);
        if !ok {
          return;
        }
        if RecordMatches(geo, rec, line) {
          buf := rec[..cfg.lineSize];
          if RecordIntact(geo, rec) {
            return true, buf;
          }
        }
      }
      WalkEnd(geo, port.cells, activeBase, activeSeq, used, line, k, offset);
      ok := true;
    }

    /** A line of the reader's view: from the cache window when it lies inside, else from the log. */
    method ResolveLiveLine(line: nat) returns (ok: bool, buf: seq<Byte>)
      requires Valid() && line < geo.lineCount
      modifies port`powered
      ensures Mounted() && ok == port.powered && |buf| == cfg.lineSize
      ensures ok ==> Valid() && Live() == old(Live()) && Durable() == old(Durable())
      ensures ok ==> buf == LineOf(cfg.lineSize, geo.lineCount, Live(), line)
    {
      hide Multiple, View, ProbeHeader, Views, Active, Stored, ShownLine, Overlaid, LineOf, Orderly, History,
        TopsErased;
      var lineAddr := LineStart(cfg.lineSize, line);
      if cacheValid {
        OverlaidLine(cfg.lineSize, geo.lineCount, Durable(), winFirst, winLines, Win(), line);
        LineInWindow(cfg.lineSize, winFirst, winLines, line);
        if lineAddr >= cacheBase && lineAddr + cfg.lineSize <= cacheBase + cacheSize {
          var at := lineAddr - cacheBase;
          SliceOfSlice(cache[..], 0, cacheSize, at, at + cfg.lineSize);
          return true, cache[at..at + cfg.lineSize];
        }
      }
      ok, buf := ResolveLine(line);
    }

    // ----- Checkpoint

    /** Rebuilds every live line in the inactive bank, then switches banks. */
    method Checkpoint() returns (status: Status)
      requires Mounted()
      requires port.powered ==> Valid() && activeSeq < 0xFFFF_FFFF && Crowded(geo, used)
      modifies port, this`activeBase, this`inactiveBase, this`activeSeq, this`activeNext, this`used, dirty.bits
      ensures port.Grown()
      ensures Mounted()
      ensures status == Success <==> port.powered
      ensures !old(port.powered) ==> !port.powered && port.cells == old(port.cells) && port.log == old(port.log)
      ensures old(port.powered) && port.powered ==>
        && Valid() && Clean()
        && Live() == old(Live()) && Durable() == old(Live())
        && Compacted(old(inactiveBase), old(activeSeq)) && used < geo.maxRecords
      ensures old(port.powered) && !port.powered ==> Cut({old(Durable()), old(Live())})
      ensures BankAt(geo, port.cells, old(activeBase)) == old(BankAt(geo, port.cells, activeBase))
    {
      hide Orderly, FreeBank, Crowded, Multiple, View, ProbeHeader, EncodeHeader, Views, Active, ActivateResult,
        Compacting, Off, Overlaid, Shows, ShownLine, History, TopsErased, Sound, LinesFrom, Times, Stored, LineOf, Bit;
      status := NvmError;
      ghost var cells, on := port.cells, port.powered;
      ghost var live := if on then Live() else [];
      ghost var sources := {old(Durable()), live};
      var target := inactiveBase;
      var seqNo: U32 := (activeSeq + 1) % 0x1_0000_0000;
      var ok, next;
      ghost var m;
      ok, next, m := BuildInactive(target, seqNo, live);
      if !ok {
        if on && Intact() {
          LinesFromSelf(cfg.lineSize, geo.lineCount, Durable(), sources);
        }
        return;
      }
      CompactSound(geo, cells, port.cells, activeBase, activeSeq, used, m, live, geo.lineCount);
      CompactRoom(geo, cells, port.cells, activeBase, activeSeq, used, m, live, geo.lineCount);
      if cacheValid {
        OverlayShows(cfg.lineSize, geo.lineCount, Durable(), winFirst, winLines, Win());
      }
      ghost var before := port.cells;
      OtherBankFree(geo, before, activeBase, activeSeq, used);
      ok := ActivateBank(target, seqNo);
      CompactDone(geo, ok, cells, before, port.cells, activeBase, activeSeq, used, m, live);
      if !ok {
        LinesFromSelf(cfg.lineSize, geo.lineCount, Durable(), sources);
        return;
      }
      SwitchBanks(target, next, m, live);
      status := Success;
    }

    /** Prepares the inactive bank and copies every live line into it; the active bank stays as it is. */
    method BuildInactive(target: nat, seqNo: U32, ghost live: seq<Byte>) returns (ok: bool, next: nat, ghost m: nat)
      requires Mounted() && target == inactiveBase
      requires port.powered ==>
        Valid() && activeSeq < 0xFFFF_FFFF && seqNo == activeSeq + 1 && live == Live() && Crowded(geo, used)
      modifies port
      ensures port.Grown()
      ensures Mounted() && ok == port.powered
      ensures !old(port.powered) ==> !ok && port.cells == old(port.cells) && port.log == old(port.log)
      ensures BankAt(geo, port.cells, activeBase) == old(BankAt(geo, port.cells, activeBase))
      ensures old(port.powered) && (ok || Intact()) ==>
        Sound(geo, port.cells) && Durable() == old(Durable())
      ensures ok ==>
        && Valid() && Live() == live && next == Off(geo, m)
        && Compacting(geo, old(port.cells), port.cells, activeBase, activeSeq, used, m, live, geo.lineCount)
    {
      hide Multiple, View, ProbeHeader, EncodeHeader, Views, Active, PrepareResult, Compacting, Overlaid, ShownLine,
        Orderly, FreeBank, Crowded, History, TopsErased;
      ghost var cells, on := port.cells, port.powered;
      next, m := HEADER_SIZE, 0;
      if on {
        OtherBankFree(geo, cells, activeBase, activeSeq, used);
      }
      ok := PrepareBank(target, seqNo);
      PrepareElsewhere(geo, ok, ok || Intact(), cells, port.cells, activeBase, seqNo);
      if on && (ok || Intact()) {
        PrepareKeepsActive(geo, ok, cells, port.cells, activeBase, activeSeq, used, seqNo);
      }
      if !ok {
        return;
      }
      CompactStart(geo, cells, port.cells, activeBase, activeSeq, used, live);
      var line: nat := 0;
      while line < geo.lineCount
        invariant port.powered && Valid() && Live() == live && Durable() == old(Durable())
        invariant line <= geo.lineCount && next == Off(geo, m)
        invariant BankAt(geo, port.cells, activeBase) == old(BankAt(geo, port.cells, activeBase))
        invariant Compacting(geo, cells, port.cells, activeBase, activeSeq, used, m, live, line)
        invariant port.Grown()
        modifies port
      {
        ok, next, m := CopyLine(target, next, line, m, cells, live);
        if !ok {
          return;
        }
        line := line + 1;
      }
      CompactSound(geo, cells, port.cells, activeBase, activeSeq, used, m, live, line);
      ok := true;
    }

    /** Copies one live line into the bank under construction, unless it is erased. */
    method CopyLine(target: nat, next: nat, line: nat, ghost m: nat, ghost cells: seq<Byte>, ghost live: seq<Byte>)
      returns (ok: bool, next': nat, ghost m': nat)
      requires Valid() && Live() == live && line < geo.lineCount
      requires target == inactiveBase && next == Off(geo, m)
      requires Compacting(geo, cells, port.cells, activeBase, activeSeq, used, m, live, line)
      modifies port
      ensures port.Grown()
      ensures Mounted() && ok == port.powered
      ensures Sound(geo, port.cells) && Durable() == old(Durable())
      ensures BankAt(geo, port.cells, activeBase) == old(BankAt(geo, port.cells, activeBase))
      ensures ok ==>
        && Valid() && Live() == live && next' == Off(geo, m')
        && Compacting(geo, cells, port.cells, activeBase, activeSeq, used, m', live, line + 1)
    {
      hide Multiple, View, ProbeHeader, EncodeHeader, Views, Active, AppendResult, Compacting, Off, Orderly,
        Appendable, History, TopsErased, Sound, LinesFrom, Times, Stored, LineOf, Bit, Overlaid, ShownLine;
      CompactSound(geo, cells, port.cells, activeBase, activeSeq, used, m, live, line);
      next', m' := next, m;
      var buf;
      ok, buf := ResolveLiveLine(line);
      if !ok {
        return;
      }
      if IsErased(buf) {
        CompactSkip(geo, cells, port.cells, activeBase, activeSeq, used, m, live, line);
        return;
      }
      CompactAppendable(geo, cells, port.cells, activeBase, activeSeq, used, m, live, line);
      ghost var before := port.cells;
      var status;
      status, next', m' := AppendRecord(target, next, line, buf, m);
      ok := status == Success;
      CompactAppend(geo, ok, cells, before, port.cells, activeBase, activeSeq, used, m, live, line);
    }

    /** Adopts the freshly activated bank: staged data is stored now, so nothing is dirty. */
    method SwitchBanks(target: nat, next: nat, ghost m: nat, ghost live: seq<Byte>)
      requires Mounted() && port.powered && WindowShape()
      requires target == inactiveBase && next == Off(geo, m) && activeSeq < 0xFFFF_FFFF
      requires Active(geo, port.cells, target, activeSeq + 1, m) && Durable() == live
      requires cacheValid ==> WindowPlaced() && Shows(cfg.lineSize, geo.lineCount, live, winFirst, winLines, Win())
      modifies this`activeBase, this`inactiveBase, this`activeSeq, this`activeNext, this`used, dirty.bits
      ensures Valid() && Clean()
      ensures Live() == live && Durable() == live
      ensures At(target, old(activeSeq) + 1, m)
    {
      hide Multiple, View, ProbeHeader, EncodeHeader, Views, Active, Off, Overlaid, ShownLine, Times, Stored, Bit,
        LineOf, Orderly, History, TopsErased;
      ghost var win := Win();
      if cacheValid {
        OverlaidShown(cfg.lineSize, geo.lineCount, live, winFirst, winLines, win);
      }
      activeBase := target;
      inactiveBase := if target == 0 then geo.bankSize else 0;
      activeSeq := activeSeq + 1;
      activeNext, used := next, m;
      dirty.Clear();
      assert Win() == win && Durable() == live;
    }

    // ----- Flushing and synchronizing

    /** Appends window line `j` to the active bank. */
    method FlushLine(j: nat, line: nat, ghost stored: seq<Byte>) returns (ok: bool)
      requires Located() && WindowShape() && WindowPlaced() && IsImage(cfg.lineSize, geo.lineCount, stored)
      requires j < winLines && line == winFirst + j
      requires Durable() == FlushedTo(cfg.lineSize, geo.lineCount, stored, winFirst, winLines, Win(), j)
      requires activeNext + geo.recordSize <= geo.bankSize
      modifies port, this`activeNext, this`used
      ensures port.Grown() && OnlyPrograms(old(port.log), port.log)
      ensures Mounted() && ok == port.powered
      ensures ok ==>
        && Located() && used == old(used) + 1
        && Durable() == FlushedTo(cfg.lineSize, geo.lineCount, stored, winFirst, winLines, Win(), j + 1)
      ensures !ok ==>
        && Sound(geo, port.cells)
        && Durable() in {FlushedTo(cfg.lineSize, geo.lineCount, stored, winFirst, winLines, Win(), j),
                         FlushedTo(cfg.lineSize, geo.lineCount, stored, winFirst, winLines, Win(), j + 1)}
    {
      hide Multiple, View, ProbeHeader, EncodeHeader, Views, AppendResult, Active, FlushedTo, Off, Times, Sound,
        LineOf, SetLine, Stored, Orderly, Appendable, History, TopsErased;
      ghost var cells, k := port.cells, used;
      ActiveShape(geo, cells, activeBase, activeSeq, used);
      RoomForOne(geo, used);
      FlushStep(cfg.lineSize, geo.lineCount, stored, winFirst, winLines, Win(), j);
      var at := LineStart(cfg.lineSize, j);
      var data := cache[at..at + cfg.lineSize];
      assert data == WinLine(cfg.lineSize, Win(), j) by {
        SliceOfSlice(cache[..], 0, cacheSize, at, at + cfg.lineSize);
      }
      var status;
      ghost var k';
      ActiveAppendable(geo, cells, activeBase, activeSeq, used);
      status, activeNext, k' := AppendRecord(activeBase, activeNext, line, data, used);
      ok := status == Success;
      FlushOutcome(geo, ok, cells, port.cells, activeBase, activeSeq, used, line, data);
      used := k';
    }

    /** Flushes dirty window line `j`, unless the active bank is full. */
    method FlushDirty(j: nat, line: nat, ghost stored: seq<Byte>, ghost live: seq<Byte>) returns (status: Status)
      requires Located() && WindowShape() && WindowPlaced() && cacheValid && j < winLines && line == winFirst + j
      requires IsImage(cfg.lineSize, geo.lineCount, stored) && StagedOn(stored)
      requires live == Overlaid(cfg.lineSize, geo.lineCount, stored, winFirst, winLines, Win())
      requires Durable() == FlushedTo(cfg.lineSize, geo.lineCount, stored, winFirst, winLines, Win(), j)
      modifies port, this`activeNext, this`used
      ensures port.Grown() && OnlyPrograms(old(port.log), port.log)
      ensures Mounted()
      ensures status == Success ==>
        && Located() && used == old(used) + 1
        && Durable() == FlushedTo(cfg.lineSize, geo.lineCount, stored, winFirst, winLines, Win(), j + 1)
      ensures status != Success && port.powered ==> Valid() && Live() == live && used == geo.maxRecords
      ensures status != Success ==>
        Durable() in {FlushedTo(cfg.lineSize, geo.lineCount, stored, winFirst, winLines, Win(), j),
                      FlushedTo(cfg.lineSize, geo.lineCount, stored, winFirst, winLines, Win(), j + 1)}
      ensures status != Success ==>
        && Sound(geo, port.cells)
        && LinesFrom(cfg.lineSize, geo.lineCount, Durable(), {stored, live})
      ensures old(used) < geo.maxRecords && port.powered ==> status == Success
    {
      hide Multiple, View, ProbeHeader, EncodeHeader, Views, Active, FlushedTo, Overlaid, Off, ShownLine, LinesFrom,
        Sound, Times, Orderly, Stored, LineOf, History, TopsErased;
      RoomForOne(geo, used);
      if activeNext + geo.recordSize > geo.bankSize {
        ActiveShape(geo, port.cells, activeBase, activeSeq, used);
        FlushStopped(stored, Win(), live, j);
        return NvmError;
      }
      var ok := FlushLine(j, line, stored);
      if !ok {
        FlushCut(geo, port.cells, stored, winFirst, winLines, Win(), j);
        return NvmError;
      }
      return Success;
    }

    /** Lines of the window that are not dirty equal those of `stored`; nothing beyond the window is dirty. */
    ghost predicate StagedOn(stored: seq<Byte>)
      requires Fits() && WindowShape() && WindowPlaced() && IsImage(cfg.lineSize, geo.lineCount, stored)
      reads this, port, cache, dirty.bits
    {
      && (forall i :: winLines <= i < 8 * dirty.bits.Length ==> !dirty.IsDirty(i))
      && (forall k :: 0 <= k < winLines && !dirty.IsDirty(k) ==>
        ShownLine(cfg.lineSize, geo.lineCount, stored, winFirst, winLines, Win(), k))
    }

    /** Appends every dirty line of the window in ascending order.
        Running out of slots stops it between two lines with nothing lost. */
    method FlushLines() returns (status: Status)
      requires Valid() && cacheValid
      modifies port, this`activeNext, this`used
      ensures port.Grown() && OnlyPrograms(old(port.log), port.log)
      ensures Mounted()
      ensures status == Success ==>
        Located() && Durable() == old(Live()) && used == old(used + Pending())
      ensures status != Success && port.powered ==> Valid() && Live() == old(Live()) && used == geo.maxRecords
      ensures status != Success ==>
        exists j :: 0 <= j <= winLines && Durable() ==
          FlushedTo(cfg.lineSize, geo.lineCount, old(Durable()), winFirst, winLines, old(Win()), j)
      ensures status != Success ==>
        && Sound(geo, port.cells)
        && LinesFrom(cfg.lineSize, geo.lineCount, Durable(), {old(Durable()), old(Live())})
      ensures old(Room()) && port.powered ==> status == Success
    {
      hide Multiple, View, ProbeHeader, EncodeHeader, Views, Active, FlushedTo, Overlaid, Off, ShownLine, LinesFrom,
        Sound, Times, Stored, LineOf, Orderly, Bit, History, TopsErased;
      ghost var stored, live, win := Durable(), Live(), Win();
      var lines := LineCount(cacheSize, cfg.lineSize, winLines);
      var first := LineCount(cacheBase, cfg.lineSize, winFirst);
      FlushedBounds(cfg.lineSize, geo.lineCount, stored, winFirst, winLines, win);
      var j: nat := 0;
      while j < lines
        invariant Located() && j <= lines && StagedOn(stored)
        invariant Durable() == FlushedTo(cfg.lineSize, geo.lineCount, stored, winFirst, winLines, win, j)
        invariant used + dirty.CountFrom(j, lines) == old(used + Pending())
        invariant port.Grown() && OnlyPrograms(old(port.log), port.log)
        modifies port, this`activeNext, this`used
      {
        if dirty.IsDirty(j) {
          ghost var log := port.log;
          status := FlushDirty(j, first + j, stored, live);
          OnlyProgramsTrans(old(port.log), log, port.log);
          if status != Success {
            return;
          }
        } else {
          FlushSkipShown(cfg.lineSize, geo.lineCount, stored, winFirst, winLines, win, j);
        }
        j := j + 1;
      }
      return Success;
    }

    /** Flushes the window when something in it is dirty, then clears the bitmap. */
    method FlushCache() returns (status: Status)
      requires Valid()
      modifies port, this`activeNext, this`used, dirty.bits
      ensures port.Grown() && OnlyPrograms(old(port.log), port.log)
      ensures Mounted()
      ensures old(Clean()) ==> status == Success && port.log == old(port.log)
      ensures old(Room()) && port.powered ==> status == Success
      ensures status == Success ==>
        && Valid() && Clean()
        && Live() == old(Live()) && Durable() == old(Live())
        && used == old(used + Pending())
      ensures status != Success && port.powered ==> Valid() && Live() == old(Live()) && used == geo.maxRecords
      ensures status != Success ==>
        && Sound(geo, port.cells)
        && LinesFrom(cfg.lineSize, geo.lineCount, Durable(), {old(Durable()), old(Live())})
    {
      hide Multiple, View, ProbeHeader, EncodeHeader, Views, Active, FlushedTo, Overlaid, Off, ShownLine, LinesFrom,
        Sound, Times, Orderly, History, TopsErased;
      var anyDirty := dirty.HasDirty();
      if !cacheValid || !anyDirty {
        CleanIsStored();
        dirty.CleanCount(0, winLines);
        return Success;
      }
      ghost var stored, live, win := Durable(), Live(), Win();
      status := FlushLines();
      if status == Success {
        OverlayShows(cfg.lineSize, geo.lineCount, stored, winFirst, winLines, win);
        OverlaidShown(cfg.lineSize, geo.lineCount, live, winFirst, winLines, win);
        dirty.Clear();
      }
    }

    /** With nothing dirty the reader's view is the stored image. */
    lemma CleanIsStored()
      requires Valid() && Clean()
      ensures Live() == Durable()
    {
      hide Multiple, View, ProbeHeader, EncodeHeader, Views, Active, Overlaid, Off, ShownLine, Times, Orderly, History,
        TopsErased;
      if cacheValid {
        assert Shows(cfg.lineSize, geo.lineCount, Durable(), winFirst, winLines, Win());
        OverlaidShown(cfg.lineSize, geo.lineCount, Durable(), winFirst, winLines, Win());
      }
    }

    /** A flush that stopped between two lines leaves the reader's view intact. */
    lemma FlushStopped(stored: seq<Byte>, win: seq<Byte>, live: seq<Byte>, j: nat)
      requires Located() && WindowShape() && WindowPlaced() && cacheValid && win == Win() && j <= winLines
      requires IsImage(cfg.lineSize, geo.lineCount, stored)
      requires StagedOn(stored)
      requires Durable() == FlushedTo(cfg.lineSize, geo.lineCount, stored, winFirst, winLines, win, j)
      requires live == Overlaid(cfg.lineSize, geo.lineCount, stored, winFirst, winLines, win)
      ensures Valid() && Live() == live
      ensures Sound(geo, port.cells)
      ensures LinesFrom(cfg.lineSize, geo.lineCount, Durable(), {stored, live})
    {
      hide Multiple, View, ProbeHeader, EncodeHeader, Views, Active, FlushedTo, Overlaid, Off, ShownLine, LinesFrom,
        Orderly, History, TopsErased;
      FlushedMix(cfg.lineSize, geo.lineCount, stored, winFirst, winLines, win, j);
      FlushedOverlay(cfg.lineSize, geo.lineCount, stored, winFirst, winLines, win, j);
      forall k | 0 <= k < winLines && !dirty.IsDirty(k)
        ensures ShownLine(cfg.lineSize, geo.lineCount, Durable(), winFirst, winLines, win, k)
      {
        FlushedShown(cfg.lineSize, geo.lineCount, stored, winFirst, winLines, win, j, k);
      }
    }

    /** Makes room for `needed` records, by a checkpoint when the active bank has too little left. */
    method EnsureCapacity(needed: nat) returns (status: Status)
      requires Valid() && activeSeq < 0xFFFF_FFFF
      requires needed == Pending()
      modifies port, this`activeBase, this`inactiveBase, this`activeSeq, this`activeNext, this`used, dirty.bits
      ensures port.Grown()
      ensures Mounted()
      ensures status == Success <==> port.powered
      ensures status == Success ==>
        && Valid() && Live() == old(Live())
        && LinesFrom(cfg.lineSize, geo.lineCount, Durable(), {old(Durable()), old(Live())})
        && Room()
      ensures old(Room()) ==>
        && status == Success && At(old(activeBase), old(activeSeq), old(used)) && Pending() == old(Pending())
        && port.cells == old(port.cells) && port.log == old(port.log)
      ensures old(Clean()) && status == Success ==> Clean()
      ensures !old(Room()) && status == Success ==> Clean() && Compacted(old(inactiveBase), old(activeSeq))
      ensures status != Success ==> Cut({old(Durable()), old(Live())})
    {
      hide Multiple, View, ProbeHeader, EncodeHeader, Views, Active, Overlaid, Off, ShownLine, Times, Stored,
        LinesFrom, Sound, Orderly, History, TopsErased;
      ghost var sources := {Durable(), Live()};
      RoomFor(geo, used, needed);
      if activeNext + Times(needed, geo.recordSize) <= geo.bankSize {
        LinesFromSelf(cfg.lineSize, geo.lineCount, Durable(), sources);
        return Success;
      }
      NoRoom();
      status := Checkpoint();
      if status == Success {
        LinesFromSelf(cfg.lineSize, geo.lineCount, Durable(), sources);
        dirty.CleanCount(0, winLines);
        ActiveShape(geo, port.cells, activeBase, activeSeq, used);
      }
    }

    /** Flushes the window; when the bank runs out of slots, a checkpoint stores what is left. */
    method FlushOrCheckpoint() returns (status: Status)
      requires Valid() && (Room() || activeSeq < 0xFFFF_FFFF)
      modifies port, this`activeBase, this`inactiveBase, this`activeSeq, this`activeNext, this`used, dirty.bits
      ensures port.Grown()
      ensures Mounted()
      ensures status == Success <==> port.powered
      ensures port.powered ==>
        && Valid() && Clean()
        && Live() == old(Live()) && Durable() == old(Live())
        && if old(Room()) then At(old(activeBase), old(activeSeq), old(used + Pending()))
           else Compacted(old(inactiveBase), old(activeSeq))
      ensures old(Clean()) ==> port.log == old(port.log)
      ensures old(Room()) ==> OnlyPrograms(old(port.log), port.log)
      ensures !port.powered ==> Cut({old(Durable()), old(Live())})
    {
      hide Multiple, View, ProbeHeader, EncodeHeader, Views, Active, Overlaid, Off, ShownLine, Times, Stored,
        LinesFrom, Sound, Orderly, History, TopsErased;
      ghost var stored, live := Durable(), Live();
      LinesFromSelf(cfg.lineSize, geo.lineCount, live, {stored, live});
      status := FlushCache();
      if status != Success {
        ghost var half, on := Durable(), port.powered;
        FullIsCrowded();
        var retry := Checkpoint();
        if retry == Success {
          dirty.CleanCount(0, winLines);
          status := FlushCache();
        } else if on && Intact() {
          LinesFromTrans(cfg.lineSize, geo.lineCount, Durable(), {half, live}, {stored, live});
        }
      } else {
        ActiveShape(geo, port.cells, activeBase, activeSeq, used);
      }
    }

    /** Makes everything staged durable. With power it always succeeds and leaves nothing dirty. */
    method Sync() returns (status: Status)
      requires Valid() && activeSeq < 0xFFFF_FFFF
      modifies port, this`activeBase, this`inactiveBase, this`activeSeq, this`activeNext, this`used, dirty.bits
      ensures port.Grown()
      ensures Mounted()
      ensures status == Success <==> port.powered
      ensures port.powered ==>
        && Valid() && Clean()
        && Live() == old(Live()) && Durable() == old(Live())
        && if old(Room()) then At(old(activeBase), old(activeSeq), old(used + Pending()))
           else Compacted(old(inactiveBase), old(activeSeq))
      ensures old(Clean()) ==> old(Room()) && old(Pending()) == 0 && port.log == old(port.log)
      ensures old(Room()) ==> OnlyPrograms(old(port.log), port.log)
      ensures !port.powered ==> Cut({old(Durable()), old(Live())})
    {
      hide Multiple, View, ProbeHeader, EncodeHeader, Views, Active, Overlaid, Off, ShownLine, Times, Stored,
        LinesFrom, Sound, Orderly, History, TopsErased, CleanLinesShown, FilledLines, WindowPlaced;
      ghost var stored, live := Durable(), Live();
      var lines := LineCount(cacheSize, cfg.lineSize, winLines);
      var count := dirty.Count(lines);
      if Clean() {
        CleanHasRoom();
      }
      ghost var room := Room();
      status := EnsureCapacity(count);
      if status != Success {
        return;
      }
      if !room {
        dirty.CleanCount(0, winLines);
      }
      ghost var mid := Durable();
      LinesFromSelf(cfg.lineSize, geo.lineCount, live, {stored, live});
      assert !room ==> Pending() == 0 && Compacted(old(inactiveBase), old(activeSeq));
      status := FlushOrCheckpoint();
      if status != Success && Intact() {
        LinesFromTrans(cfg.lineSize, geo.lineCount, Durable(), {mid, live}, {stored, live});
      }
    }

    // ----- Loading the window

    /** Copies bytes into the cache buffer. */
    method CopyToCache(at: nat, data: seq<Byte>)
      requires at + |data| <= cache.Length
      modifies cache
      ensures cache[..] == Splice(old(cache[..]), at, data)
    {
      forall i | 0 <= i < |data| {
        cache[at + i] := data[i];
      }
    }

    /** Reads every line of the window at `cacheBase` from the log. */
    method FillWindow() returns (ok: bool)
      requires Located() && WindowShape() && WindowPlaced()
      modifies cache, port`powered
      ensures Mounted() && ok == port.powered
      ensures ok ==>
        && Located()
        && Shows(cfg.lineSize, geo.lineCount, Durable(), winFirst, winLines, Win())
    {
      hide Multiple, View, ProbeHeader, EncodeHeader, Views, Active, Off, ShownLine, Times, Stored, Sound, LineOf,
        Splice, Blank, IsErased, Bit, LinesFrom, OtherBase, Orderly, History, TopsErased;
      ghost var img := Durable();
      WindowFits(cfg.lineSize, geo.lineCount, winFirst, winLines);
      CopyToCache(0, Blank(cacheSize));
      var lines := LineCount(cacheSize, cfg.lineSize, winLines);
      var first := LineCount(cacheBase, cfg.lineSize, winFirst);
      var j: nat := 0;
      while j < lines
        invariant Located() && j <= lines
        invariant forall k :: 0 <= k < j ==> ShownLine(cfg.lineSize, geo.lineCount, img, winFirst, winLines, Win(), k)
        modifies cache, port`powered
      {
        ghost var before, win := cache[..], Win();
        assert win == before[..cacheSize];
        var data;
        ok, data := ResolveLine(first + j);
        if !ok {
          return;
        }
        LineFits(cfg.lineSize, winLines, j);
        CopyToCache(LineStart(cfg.lineSize, j), data);
        SplicePrefix(before, LineStart(cfg.lineSize, j), data, cacheSize);
        assert Win() == cache[..][..cacheSize];
        FillStep(cfg.lineSize, geo.lineCount, img, winFirst, winLines, win, Win(), j, data);
        j := j + 1;
      }
      return true;
    }

    /** Moves the window to `windowBase`; a dirty window elsewhere refuses to move. */
    method LoadCache(windowBase: nat) returns (status: Status)
      requires Valid()
      modifies cache, dirty.bits, port`powered, this`cacheBase, this`cacheSize, this`cacheValid, this`winFirst,
        this`winLines
      ensures Mounted()
      ensures status == Success ==>
        && Valid() && Live() == old(Live())
        && cacheValid && cacheBase == windowBase
      ensures status != Success && port.powered ==> Valid() && Live() == old(Live())
      ensures status == ParamError <==> windowBase >= cfg.logicalSize || !Multiple(windowBase, cfg.lineSize)
      ensures status == NvmError && port.powered ==> old(cacheValid && cacheBase != windowBase && !Clean())
      ensures old(Clean()) && port.powered && status != ParamError ==> status == Success && Clean()
      ensures old(cacheValid && cacheBase != windowBase && !Clean()) ==> status != Success
    {
      hide Multiple, View, ProbeHeader, EncodeHeader, Views, Active, Off, ShownLine, Times, Stored, Sound, Overlaid,
        Orderly, History, TopsErased;
      if windowBase >= cfg.logicalSize || !Multiple(windowBase, cfg.lineSize) {
        return ParamError;
      }
      if cacheValid && cacheBase == windowBase {
        return Success;
      }
      var anyDirty := dirty.HasDirty();
      if cacheValid && anyDirty {
        return NvmError;
      }
      status := MoveWindow(windowBase);
    }

    /** Places a clean window at `windowBase` and fills it from the log. */
    method MoveWindow(windowBase: nat) returns (status: Status)
      requires Valid() && Clean()
      requires windowBase < cfg.logicalSize && Multiple(windowBase, cfg.lineSize)
      modifies cache, dirty.bits, port`powered, this`cacheBase, this`cacheSize, this`cacheValid, this`winFirst,
        this`winLines
      ensures Mounted()
      ensures if port.powered then status == Success else status == NvmError
      ensures status == Success ==>
        && Valid() && Clean() && Live() == old(Live())
        && cacheValid && cacheBase == windowBase
    {
      hide Multiple, View, ProbeHeader, EncodeHeader, Views, Active, Off, ShownLine, Times, Stored, Sound, Overlaid,
        LineOf, Bit, LinesFrom, Orderly, History, TopsErased;
      CleanIsStored();
      winFirst, winLines := WindowLines(cfg.lineSize, geo.lineCount, windowBase, cfg.cacheSize, 8 * dirty.bits.Length);
      cacheBase := windowBase;
      cacheSize := WindowSize(windowBase, cfg.logicalSize, cfg.cacheSize);
      var ok := FillWindow();
      if !ok {
        return NvmError;
      }
      cacheValid := true;
      dirty.Clear();
      OverlaidShown(cfg.lineSize, geo.lineCount, Durable(), winFirst, winLines, Win());
      return Success;
    }

    /** Makes the window at `windowBase` ready for staging, synchronizing a dirty window that is in the way. */
    method PrepareCacheWindow(windowBase: nat) returns (status: Status)
      requires Valid() && activeSeq < 0xFFFF_FFFF
      requires windowBase < cfg.logicalSize && Multiple(windowBase, cfg.lineSize)
      modifies this`activeBase, this`inactiveBase, this`activeSeq, this`activeNext, this`used
      modifies this`cacheBase, this`cacheSize, this`cacheValid, this`winFirst, this`winLines
      modifies port, cache, dirty.bits
      ensures port.Grown()
      ensures Mounted()
      ensures status == Success <==> port.powered
      ensures status == Success ==>
        && Valid() && Live() == old(Live()) && activeSeq <= old(activeSeq) + 1
        && cacheValid && cacheBase == windowBase
        && Durable() in {old(Durable()), old(Live())}
      ensures old(Room()) ==> OnlyPrograms(old(port.log), port.log)
      ensures old((cacheValid && cacheBase == windowBase) || Clean()) ==> port.log == old(port.log)
      ensures status == Success && old(cacheValid && cacheBase == windowBase) ==>
        At(old(activeBase), old(activeSeq), old(used)) && Pending() == old(Pending())
      ensures status == Success && old(!cacheValid || cacheBase != windowBase || Clean()) ==>
        && Clean()
        && if old(Room()) then At(old(activeBase), old(activeSeq), old(used + Pending()))
           else Compacted(old(inactiveBase), old(activeSeq))
      ensures status != Success ==> Cut({old(Durable()), old(Live())})
    {
      hide Multiple, View, ProbeHeader, EncodeHeader, Views, Active, Off, ShownLine, Times, Stored, Sound, Overlaid,
        LineOf, Bit, LinesFrom, Orderly, History, TopsErased, CleanLinesShown, LinesTouched, Splice, FilledLines,
        WindowPlaced;
      status := Success;
      if Clean() {
        CleanHasRoom();
      }
      if cacheValid && cacheBase == windowBase {
        return;
      }
      ghost var stored, live := Durable(), Live();
      var anyDirty := dirty.HasDirty();
      if cacheValid && anyDirty && cacheBase != windowBase {
        status := Sync();
        if status != Success {
          return;
        }
      }
      assert Clean();
      ghost var mid := Durable();
      ActiveSound(geo, port.cells, activeBase, activeSeq, used);
      status := LoadCache(windowBase);
      LinesFromSelf(cfg.lineSize, geo.lineCount, mid, {stored, live});
    }

    // ----- Reading

    /** Reads bytes line by line from the reader's view without moving the window. */
    method ReadLiveRange(addr: nat, size: nat) returns (ok: bool, buf: seq<Byte>)
      requires Valid() && addr + size <= cfg.logicalSize
      modifies port`powered
      ensures Mounted() && ok == port.powered
      ensures ok ==> Valid() && Live() == old(Live()) && buf == Live()[addr..addr + size]
    {
      hide Multiple, View, ProbeHeader, EncodeHeader, Views, Active, Off, ShownLine, Times, Stored, Sound, Overlaid,
        LineOf, Bit, LinesFrom, Orderly, History, TopsErased;
      ok, buf := true, [];
      while |buf| < size
        invariant port.powered && Valid() && Live() == old(Live())
        invariant |buf| <= size && buf == Live()[addr..addr + |buf|]
        modifies port`powered
      {
        var cur, remaining := addr + |buf|, size - |buf|;
        var line, offset := LineAt(cur, cfg.lineSize);
        LineInRange(cfg.lineSize, geo.lineCount, line, offset);
        var data;
        ok, data := ResolveLiveLine(line);
        if !ok {
          return;
        }
        var chunk := if cfg.lineSize - offset > remaining then remaining else cfg.lineSize - offset;
        LineChunk(cfg.lineSize, geo.lineCount, Live(), line, offset, chunk);
        SliceJoin(Live(), addr, cur, cur + chunk);
        buf := buf + data[offset..offset + chunk];
      }
    }

    /** Reads `size` bytes: exactly the reader's view, staged bytes included. */
    method Read(addr: nat, size: nat) returns (status: Status, buf: seq<Byte>)
      requires isInit ==> Valid()
      requires !isInit ==> Wired()
      modifies port`powered, cache, dirty.bits
      modifies this`cacheBase, this`cacheSize, this`cacheValid, this`winFirst, this`winLines
      ensures size == 0 || addr + size > cfg.logicalSize ==> status == ParamError
      ensures 0 < size && addr + size <= cfg.logicalSize && !isInit ==> status == InitError
      ensures isInit && 0 < size && addr + size <= cfg.logicalSize ==>
        && Mounted()
        && (status == Success <==> port.powered)
        && (status == Success ==> Valid() && Live() == old(Live()) && buf == Live()[addr..addr + size])
      ensures isInit && port.powered ==>
        Valid() && Live() == old(Live()) && Parked(old(Clean()), old(cacheBase), old(Pending()))
    {
      hide Multiple, View, ProbeHeader, EncodeHeader, Views, Active, Off, ShownLine, Times, Stored, Sound, Overlaid,
        LineOf, Bit, LinesFrom, Orderly, History, TopsErased;
      buf := [];
      if size == 0 || addr >= cfg.logicalSize || size > cfg.logicalSize - addr {
        return ParamError, buf;
      }
      if !isInit {
        return InitError, buf;
      }
      while |buf| < size
        invariant Valid() && Live() == old(Live())
        invariant Parked(old(Clean()), old(cacheBase), old(Pending()))
        invariant |buf| <= size && buf == Live()[addr..addr + |buf|]
        modifies port`powered, cache, dirty.bits
        modifies this`cacheBase, this`cacheSize, this`cacheValid, this`winFirst, this`winLines
      {
        var part;
        status, part := ReadChunk(addr + |buf|, size - |buf|);
        if status != Success {
          return;
        }
        SliceJoin(Live(), addr, addr + |buf|, addr + |buf| + |part|);
        buf := buf + part;
      }
      status := Success;
    }

    /** The bytes of one window, at most `remaining` of them. */
    method ReadChunk(cur: nat, remaining: nat) returns (status: Status, part: seq<Byte>)
      requires Valid() && 0 < remaining && cur + remaining <= cfg.logicalSize
      modifies port`powered, cache, dirty.bits
      modifies this`cacheBase, this`cacheSize, this`cacheValid, this`winFirst, this`winLines
      ensures Mounted()
      ensures status == Success <==> port.powered
      ensures status == Success ==>
        && Valid() && Live() == old(Live())
        && 0 < |part| <= remaining && part == Live()[cur..cur + |part|]
        && Parked(old(Clean()), old(cacheBase), old(Pending()))
        && (old(Clean()) ==> cacheValid && cacheBase <= cur < cacheBase + cacheSize)
    {
      hide Multiple, View, ProbeHeader, EncodeHeader, Views, Active, Off, ShownLine, Times, Stored, Sound, Overlaid,
        LineOf, Bit, LinesFrom, Orderly, History, TopsErased;
      part := [];
      var windowBase := WindowOf(cur);
      if !cacheValid || cacheBase != windowBase {
        var anyDirty := dirty.HasDirty();
        if cacheValid && anyDirty && cacheBase != windowBase {
          var chunk := windowBase + WindowSize(windowBase, cfg.logicalSize, cfg.cacheSize) - cur;
          chunk := if chunk > remaining then remaining else chunk;
          var ok;
          ok, part := ReadLiveRange(cur, chunk);
          status := if ok then Success else NvmError;
          return;
        }
        status := LoadCache(windowBase);
        if status != Success {
          return;
        }
      }
      part := CachedBytes(cur, remaining);
      status := Success;
    }

    /** The window that covers an address. */
    method WindowOf(addr: nat) returns (base: nat)
      requires Fits() && addr < cfg.logicalSize
      ensures base <= addr && Multiple(base, cfg.lineSize)
      ensures addr < base + WindowSize(base, cfg.logicalSize, cfg.cacheSize)
    {
      hide Multiple, Times, Orderly, History, TopsErased;
      base := WindowBase(addr, cfg.cacheSize);
      WindowBaseAligned(cfg.lineSize, cfg.cacheSize, base);
    }

    /** Bytes served from the loaded window. */
    method CachedBytes(cur: nat, remaining: nat) returns (part: seq<Byte>)
      requires Valid() && cacheValid && 0 < remaining
      requires cacheBase <= cur < cacheBase + cacheSize
      ensures 0 < |part| <= remaining && cur + |part| <= cfg.logicalSize
      ensures part == Live()[cur..cur + |part|]
    {
      hide Multiple, View, ProbeHeader, EncodeHeader, Views, Active, Off, ShownLine, Times, Stored, Sound, Overlaid,
        LineOf, Bit, LinesFrom, Orderly, History, TopsErased;
      var offset := cur - cacheBase;
      var chunk := if cacheSize - offset > remaining then remaining else cacheSize - offset;
      OverlaidBytes(cfg.lineSize, geo.lineCount, Durable(), winFirst, winLines, Win(), offset, chunk);
      SliceOfSlice(cache[..], 0, cacheSize, offset, offset + chunk);
      part := cache[offset..offset + chunk];
    }

    // ----- Writing and erasing

    /** Marks every window line that bytes `[off, off + n)` touch. */
    method MarkLines(off: nat, n: nat)
      requires Fits() && WindowShape() && n > 0 && off + n <= cacheSize
      modifies dirty.bits
      ensures forall i :: 0 <= i < winLines ==>
        dirty.IsDirty(i) == (!Apart(cfg.lineSize, i, off, n) || old(dirty.IsDirty(i)))
      ensures forall i :: winLines <= i < 8 * dirty.bits.Length ==> dirty.IsDirty(i) == old(dirty.IsDirty(i))
      ensures old(Clean()) ==> Pending() == LinesTouched(cfg.lineSize, off, n)
    {
      hide Multiple, Times, Bit, Apart, Orderly, History, TopsErased;
      var firstLine, o1 := LineAt(off, cfg.lineSize);
      var lastLine, o2 := LineAt(off + n - 1, cfg.lineSize);
      TouchedLines(cfg.lineSize, winLines, off, n, firstLine, lastLine);
      var line := firstLine;
      while line <= lastLine
        invariant firstLine <= line <= lastLine + 1
        invariant forall i :: 0 <= i < 8 * dirty.bits.Length ==>
          dirty.IsDirty(i) == (firstLine <= i < line || old(dirty.IsDirty(i)))
      {
        dirty.Mark(line);
        line := line + 1;
      }
      if old(Clean()) {
        LineIndexIs(cfg.lineSize, firstLine, off);
        LineIndexIs(cfg.lineSize, lastLine, off + n - 1);
        dirty.StretchCount(0, winLines, firstLine, lastLine);
      }
    }

    /** Stages bytes in the loaded window. */
    method StageBytes(off: nat, chunk: seq<Byte>)
      requires Valid() && cacheValid && |chunk| > 0 && off + |chunk| <= cacheSize
      modifies cache, dirty.bits
      ensures Valid() && Durable() == old(Durable())
      ensures cacheBase + off + |chunk| <= cfg.logicalSize
      ensures old(Clean()) ==> Pending() == LinesTouched(cfg.lineSize, cacheBase + off, |chunk|)
      ensures Live() == Splice(old(Live()), cacheBase + off, chunk)
    {
      hide Multiple, View, ProbeHeader, EncodeHeader, Views, Active, Off, ShownLine, Times, Stored, Sound, Overlaid,
        LineOf, Bit, LinesFrom, Apart, Orderly, History, TopsErased;
      ghost var before, win := cache[..], Win();
      assert win == before[..cacheSize];
      StageView(cfg.lineSize, geo.lineCount, Durable(), winFirst, winLines, win, off, chunk);
      CopyToCache(off, chunk);
      SplicePrefix(before, off, chunk, cacheSize);
      assert Win() == cache[..][..cacheSize];
      MarkLines(off, |chunk|);
      TouchedShift(cfg.lineSize, winFirst, off, |chunk|);
      forall j | 0 <= j < winLines && !dirty.IsDirty(j)
        ensures ShownLine(cfg.lineSize, geo.lineCount, Durable(), winFirst, winLines, Win(), j)
      {
        StageKeeps(cfg.lineSize, geo.lineCount, Durable(), winFirst, winLines, win, off, chunk, j);
      }
    }

    /** Whatever waits to be stored lies in a window below `cur`. */
    ghost predicate Ahead(cur: nat)
      reads this, dirty.bits
    {
      Clean() || (cacheValid && cacheBase + cacheSize <= cur)
    }

    /** Stages the part of a write that falls into one window. */
    method StageChunk(cur: nat, data: seq<Byte>) returns (status: Status, chunk: nat, ghost line: nat)
      requires Valid() && activeSeq < 0xFFFF_FFFF
      requires 0 < |data| && cur + |data| <= cfg.logicalSize
      modifies this`activeBase, this`inactiveBase, this`activeSeq, this`activeNext, this`used
      modifies this`cacheBase, this`cacheSize, this`cacheValid, this`winFirst, this`winLines
      modifies port, cache, dirty.bits
      ensures port.Grown()
      ensures Mounted()
      ensures status == Success <==> port.powered
      ensures status == Success ==>
        && Valid() && activeSeq <= old(activeSeq) + 1
        && 0 < chunk <= |data|
        && Live() == Splice(old(Live()), cur, data[..chunk])
        && Durable() in {old(Durable()), old(Live())}
        && (chunk == |data| || cur + chunk == LineStart(cfg.lineSize, line))
      ensures old(Room() && Ahead(cur)) ==> OnlyPrograms(old(port.log), port.log)
      ensures status == Success && old(Room() && Ahead(cur)) ==>
        && Spent(old(activeBase), old(activeSeq), old(used + Pending()) + LinesTouched(cfg.lineSize, cur, chunk))
        && (chunk == |data| || Ahead(cur + chunk))
      ensures status != Success ==> Cut({old(Durable()), old(Live())})
    {
      hide Multiple, View, ProbeHeader, EncodeHeader, Views, Active, Off, ShownLine, Times, Stored, Sound, Overlaid,
        LineOf, Bit, LinesFrom, Orderly, Splice, OtherBase, TearSafe, History, TopsErased;
      chunk, line := 0, 0;
      var windowBase := WindowOf(cur);
      status := PrepareCacheWindow(windowBase);
      if status != Success {
        return;
      }
      assert old(Room() && Ahead(cur)) ==> Clean() && At(old(activeBase), old(activeSeq), old(used + Pending()));
      chunk, line := StageInWindow(cur, data);
    }

    /** Stages the part of a write that falls into the loaded window. */
    method StageInWindow(cur: nat, data: seq<Byte>) returns (chunk: nat, ghost line: nat)
      requires Valid() && cacheValid && cacheBase <= cur < cacheBase + cacheSize
      requires 0 < |data| && cur + |data| <= cfg.logicalSize
      modifies cache, dirty.bits
      ensures Valid() && Durable() == old(Durable())
      ensures 0 < chunk <= |data| && Live() == Splice(old(Live()), cur, data[..chunk])
      ensures old(Clean()) ==> Pending() == LinesTouched(cfg.lineSize, cur, chunk)
      ensures chunk == |data| || cur + chunk == cacheBase + cacheSize
      ensures chunk == |data| || cur + chunk == LineStart(cfg.lineSize, line)
    {
      hide Multiple, View, ProbeHeader, EncodeHeader, Views, Active, Off, ShownLine, Times, Stored, Sound, Overlaid,
        LineOf, Bit, LinesFrom, Orderly, Splice, OtherBase, TearSafe, History, TopsErased;
      var off := cur - cacheBase;
      chunk := if cacheSize - off > |data| then |data| else cacheSize - off;
      line := winFirst + winLines;
      WindowFits(cfg.lineSize, geo.lineCount, winFirst, winLines);
      StageBytes(off, data[..chunk]);
    }

    /** With nothing staged there is a free slot for every line that bytes `[addr, addr + n)` touch. */
    ghost predicate Affords(addr: nat, n: nat)
      requires cfg.lineSize > 0
      reads this, dirty.bits
    {
      Clean() && used + LinesTouched(cfg.lineSize, addr, n) <= geo.maxRecords
    }

    /** A cut that mixes images which are themselves mixtures mixes the original images. */
    lemma CutMixed(mid: set<seq<Byte>>, sources: set<seq<Byte>>)
      requires Cut(mid)
      requires forall s :: s in sources ==> IsImage(cfg.lineSize, geo.lineCount, s)
      requires forall m :: m in mid ==> LinesFrom(cfg.lineSize, geo.lineCount, m, sources)
      ensures Cut(sources)
    {
      hide Multiple, View, ProbeHeader, Views, Active, Stored, Sound, LinesFrom, Orderly, History, TopsErased;
      if Intact() {
        LinesFromTrans(cfg.lineSize, geo.lineCount, Durable(), mid, sources);
      }
    }

    lemma SpentRoom(base: nat, seqNo: nat, n: nat)
      requires Valid() && Spent(base, seqNo, n) && n <= geo.maxRecords
      ensures Room()
    {
    }

    lemma Affordable(addr: nat, n: nat)
      requires Valid() && Affords(addr, n)
      ensures Spent(activeBase, activeSeq, used) && Ahead(addr)
      ensures used + LinesTouched(cfg.lineSize, addr, n) <= geo.maxRecords
    {
      CleanHasRoom();
    }

    /** Stages a whole request window by window, synchronizing every window it leaves. */
    method StageAll(addr: nat, data: seq<Byte>) returns (status: Status)
      requires Valid() && 0 < |data| && addr + |data| <= cfg.logicalSize
      requires activeSeq + |data| < 0xFFFF_FFFF
      modifies this`activeBase, this`inactiveBase, this`activeSeq, this`activeNext, this`used
      modifies this`cacheBase, this`cacheSize, this`cacheValid, this`winFirst, this`winLines
      modifies port, cache, dirty.bits
      ensures port.Grown()
      ensures Mounted()
      ensures status == Success <==> port.powered
      ensures port.powered ==>
        && Valid() && Live() == Splice(old(Live()), addr, data) && activeSeq <= old(activeSeq) + |data|
        && LinesFrom(cfg.lineSize, geo.lineCount, Durable(),
                     {old(Durable()), old(Live()), Splice(old(Live()), addr, data)})
      ensures old(Affords(addr, |data|)) ==>
        && OnlyPrograms(old(port.log), port.log)
        && (port.powered ==>
              Spent(old(activeBase), old(activeSeq), old(used) + LinesTouched(cfg.lineSize, addr, |data|)))
      ensures !port.powered ==> Cut({old(Durable()), old(Live()), Splice(old(Live()), addr, data)})
    {
      hide Multiple, View, ProbeHeader, EncodeHeader, Views, Active, Off, ShownLine, Times, Stored, Sound, Overlaid,
        LineOf, Bit, LinesFrom, LinesTouched, Splice, Orderly, History, TopsErased, CleanLinesShown, IsErased,
        WindowPlaced, FilledLines, Pending, Room, Ahead, Affords, Cut;
      ghost var stored, live, target := Durable(), Live(), Splice(Live(), addr, data);
      ghost var sources := {stored, live, target};
      WriteNothing(live, addr, data);
      LinesFromSelf(cfg.lineSize, geo.lineCount, stored, sources);
      LinesFromSelf(cfg.lineSize, geo.lineCount, live, sources);
      var done: nat := 0;
      ghost var line, affords := 0, Affords(addr, |data|);
      assert Mounted() && port.powered;
      if affords {
        Affordable(addr, |data|);
      }
      OnlyProgramsSelf(port.log);
      hide FlashEe.Valid, FlashEe.WindowOk, FlashEe.Located, FlashEe.Wired, OnlyPrograms;
      status := Success;
      while done < |data|
        invariant Mounted() && port.powered && Valid() && done <= |data| && port.Grown() && status == Success
        invariant Live() == Splice(live, addr, data[..done]) && activeSeq <= old(activeSeq) + done
        invariant LinesFrom(cfg.lineSize, geo.lineCount, Durable(), sources)
        invariant LinesFrom(cfg.lineSize, geo.lineCount, Live(), sources)
        invariant done == 0 || done == |data| || addr + done == LineStart(cfg.lineSize, line)
        invariant affords ==> OnlyPrograms(old(port.log), port.log) && (done < |data| ==> Ahead(addr + done))
        invariant affords ==>
          Spent(old(activeBase), old(activeSeq), old(used) + LinesTouched(cfg.lineSize, addr, done))
      {
        ghost var d, l, log, at := Durable(), Live(), port.log, line;
        TouchedSplit(cfg.lineSize, addr, done, |data| - done, at);
        if affords {
          SpentRoom(old(activeBase), old(activeSeq), old(used) + LinesTouched(cfg.lineSize, addr, done));
        }
        var chunk;
        status, chunk, line := StageChunk(addr + done, data[done..]);
        if affords {
          OnlyProgramsTrans(old(port.log), log, port.log);
        }
        if status != Success {
          CutMixed({d, l}, sources);
          return;
        }
        WriteOn(cfg.lineSize, geo.lineCount, live, addr, data, done, chunk, line, sources);
        TouchedSplit(cfg.lineSize, addr, done, chunk, at);
        done := done + chunk;
      }
    }

    /** Stages a whole request, then commits the last window. When the active bank affords it, this takes one record
        for each line touched, and nothing is erased. */
    method StoreBytes(addr: nat, data: seq<Byte>) returns (status: Status)
      requires Valid() && 0 < |data| && addr + |data| <= cfg.logicalSize
      requires activeSeq + |data| < 0xFFFF_FFFF
      modifies this`activeBase, this`inactiveBase, this`activeSeq, this`activeNext, this`used
      modifies this`cacheBase, this`cacheSize, this`cacheValid, this`winFirst, this`winLines
      modifies port, cache, dirty.bits
      ensures port.Grown()
      ensures Mounted()
      ensures status == Success <==> port.powered
      ensures port.powered ==>
        && Valid() && Clean()
        && Live() == Splice(old(Live()), addr, data) && Durable() == Live()
        && activeSeq <= old(activeSeq) + |data| + 1
      ensures old(Affords(addr, |data|)) ==>
        && OnlyPrograms(old(port.log), port.log)
        && (port.powered ==>
              At(old(activeBase), old(activeSeq), old(used) + LinesTouched(cfg.lineSize, addr, |data|)))
      ensures !port.powered ==> Cut({old(Durable()), old(Live()), Splice(old(Live()), addr, data)})
    {
      hide Multiple, View, ProbeHeader, EncodeHeader, Views, Active, Off, ShownLine, Times, Stored, Sound, Overlaid,
        LineOf, Bit, LinesFrom, LinesTouched, Splice, Orderly, History, TopsErased, OnlyPrograms;
      ghost var sources := {Durable(), Live(), Splice(Live(), addr, data)};
      LinesFromSelf(cfg.lineSize, geo.lineCount, Splice(Live(), addr, data), sources);
      status := StageAll(addr, data);
      if status != Success {
        return;
      }
      ghost var d, l, log := Durable(), Live(), port.log;
      status := CommitStagedCache();
      if old(Affords(addr, |data|)) {
        OnlyProgramsTrans(old(port.log), log, port.log);
      }
      if status != Success {
        CutMixed({d, l}, sources);
      }
    }

    /** Synchronizes the window when it holds staged bytes. */
    method CommitStagedCache() returns (status: Status)
      requires Valid() && activeSeq < 0xFFFF_FFFF
      modifies port, this`activeBase, this`inactiveBase, this`activeSeq, this`activeNext, this`used, dirty.bits
      ensures port.Grown()
      ensures Mounted()
      ensures status == Success <==> port.powered
      ensures port.powered ==>
        && Valid() && Clean()
        && Live() == old(Live()) && Durable() == old(Live())
        && if old(Room()) then At(old(activeBase), old(activeSeq), old(used + Pending()))
           else Compacted(old(inactiveBase), old(activeSeq))
      ensures old(Room()) ==> OnlyPrograms(old(port.log), port.log)
      ensures old(Clean()) ==> port.log == old(port.log)
      ensures !port.powered ==> Cut({old(Durable()), old(Live())})
    {
      hide Multiple, View, ProbeHeader, EncodeHeader, Views, Active, Off, ShownLine, Times, Stored, Sound, Overlaid,
        LineOf, Bit, LinesFrom, Orderly, History, TopsErased;
      var anyDirty := dirty.HasDirty();
      if !cacheValid || !anyDirty {
        CleanIsStored();
        CleanHasRoom();
        return Success;
      }
      status := Sync();
    }

    predicate InRange(addr: nat, size: nat) {
      0 < size && addr < cfg.logicalSize && size <= cfg.logicalSize - addr
    }

    /** Writes bytes durably. After a power cut each line is wholly old, wholly staged, or wholly new. */
    method Write(addr: nat, data: seq<Byte>) returns (status: Status)
      requires Wired() && (isInit ==> Valid() && activeSeq + |data| < 0xFFFF_FFFF)
      modifies this`activeBase, this`inactiveBase, this`activeSeq, this`activeNext, this`used
      modifies this`cacheBase, this`cacheSize, this`cacheValid, this`winFirst, this`winLines
      modifies port, cache, dirty.bits
      ensures port.Grown()
      ensures !InRange(addr, |data|) ==> status == ParamError
      ensures InRange(addr, |data|) && !old(isInit) ==> status == InitError
      ensures !InRange(addr, |data|) && isInit ==>
        && Valid() && Live() == old(Live()) && Durable() == old(Durable())
        && port.log == old(port.log) && At(old(activeBase), old(activeSeq), old(used)) && (old(Clean()) ==> Clean())
      ensures InRange(addr, |data|) && isInit && old(Affords(addr, |data|)) ==>
        && OnlyPrograms(old(port.log), port.log)
        && (port.powered ==>
              At(old(activeBase), old(activeSeq), old(used) + LinesTouched(cfg.lineSize, addr, |data|)))
      ensures InRange(addr, |data|) && isInit ==>
        && Mounted()
        && (status == Success <==> port.powered)
        && (port.powered ==>
              && Valid() && Clean()
              && Live() == Splice(old(Live()), addr, data) && Durable() == Live()
              && activeSeq <= old(activeSeq) + |data| + 1)
        && (!port.powered ==> Cut({old(Durable()), old(Live()), Splice(old(Live()), addr, data)}))
    {
      hide Multiple, View, ProbeHeader, EncodeHeader, Views, Active, Off, ShownLine, Times, Stored, Sound, Overlaid,
        LineOf, Bit, LinesFrom, Orderly, History, TopsErased;
      if !InRange(addr, |data|) {
        return ParamError;
      }
      if !isInit {
        return InitError;
      }
      status := StoreBytes(addr, data);
    }

    /** Erases bytes durably: a write of erased bytes. */
    method Erase(addr: nat, size: nat) returns (status: Status)
      requires Wired() && (isInit ==> Valid() && activeSeq + size < 0xFFFF_FFFF)
      modifies this`activeBase, this`inactiveBase, this`activeSeq, this`activeNext, this`used
      modifies this`cacheBase, this`cacheSize, this`cacheValid, this`winFirst, this`winLines
      modifies port, cache, dirty.bits
      ensures port.Grown()
      ensures !InRange(addr, size) ==> status == ParamError
      ensures InRange(addr, size) && !old(isInit) ==> status == InitError
      ensures !InRange(addr, size) && isInit ==>
        && Valid() && Live() == old(Live()) && Durable() == old(Durable())
        && port.log == old(port.log) && At(old(activeBase), old(activeSeq), old(used)) && (old(Clean()) ==> Clean())
      ensures InRange(addr, size) && isInit && old(Affords(addr, size)) ==>
        && OnlyPrograms(old(port.log), port.log)
        && (port.powered ==>
              At(old(activeBase), old(activeSeq), old(used) + LinesTouched(cfg.lineSize, addr, size)))
      ensures InRange(addr, size) && isInit ==>
        && Mounted()
        && (status == Success <==> port.powered)
        && (port.powered ==>
              && Valid() && Clean()
              && Live() == Splice(old(Live()), addr, Blank(size)) && Durable() == Live()
              && activeSeq <= old(activeSeq) + size + 1)
        && (!port.powered ==> Cut({old(Durable()), old(Live()), Splice(old(Live()), addr, Blank(size))}))
    {
      hide Multiple, View, ProbeHeader, EncodeHeader, Views, Active, Off, ShownLine, Times, Stored, Sound, Overlaid,
        LineOf, Bit, LinesFrom, Orderly, History, TopsErased;
      if !InRange(addr, size) {
        return ParamError;
      }
      if !isInit {
        return InitError;
      }
      status := StoreBytes(addr, Blank(size));
    }

    // ----- Power-up and shutdown

    /** The geometry this configuration and port lead to. */
    ghost predicate Derived()
      reads this
    {
      ValidateGeometry(cfg, port.regionSize, port.eraseSize, port.programSize) == Ok(geo)
    }

    /** Scans both banks and adopts one; two unreadable banks are formatted unless a read failed. */
    method SelectBank() returns (status: Status)
      requires Fits() && port.powered
      modifies port, this`activeBase, this`inactiveBase, this`activeSeq, this`activeNext, this`used
      ensures port.Grown()
      ensures Fits()
      ensures port.powered ==> status == Success && Adopted(Boot(geo, old(port.cells)), old(port.cells))
      ensures Boot(geo, old(port.cells)).Use? ==> port.log == old(port.log)
      ensures old(Sound(geo, port.cells)) && (port.powered || Intact()) ==>
        Sound(geo, port.cells) && Durable() == old(Durable())
      ensures status in {Success, InitError, NvmError}
      ensures status == NvmError ==> old(port.log) < port.log
      ensures status == InitError ==> port.cells == old(port.cells) && port.log == old(port.log)
      ensures status == Success ==> IsBase(geo, activeBase) && inactiveBase == OtherBase(geo, activeBase)
    {
      hide Multiple, View, ProbeHeader, EncodeHeader, Views, Active, Off, ShownLine, Times, Stored, Sound, Overlaid,
        LineOf, Bit, LinesFrom, Scan, Boot, Orderly, History, TopsErased;
      ghost var cells := port.cells;
      var valid0, diag0, seq0, next0, valid1, diag1, seq1, next1;
      ghost var count0, count1;
      valid0, diag0, seq0, next0, count0 := ScanBank(0);
      valid1, diag1, seq1, next1, count1 := ScanBank(geo.bankSize);
      if port.powered {
        BootFromScans(geo, cells);
      }
      if Sound(geo, cells) {
        SoundBoot(geo, cells);
      }
      if !valid0 && !valid1 {
        if !AllowsReformat(diag0) || !AllowsReformat(diag1) {
          return InitError;
        }
        status := FormatBank0();
        return;
      }
      if valid0 && (!valid1 || seq0 >= seq1) {
        activeBase, inactiveBase, activeSeq, activeNext, used := 0, geo.bankSize, seq0, next0, count0;
      } else {
        activeBase, inactiveBase, activeSeq, activeNext, used := geo.bankSize, 0, seq1, next1, count1;
      }
      status := Success;
    }

    /** RAM follows the boot choice made on `cells`. */
    ghost predicate Adopted(choice: Choice, cells: seq<Byte>)
      reads this`geo, this`activeBase, this`activeSeq, this`activeNext, this`used, port
    {
      && activeNext == Off(geo, used)
      && IsBase(geo, activeBase)
      && match choice
         case Use(base, seqNo, n) => activeBase == base && activeSeq == seqNo && used == n && port.cells == cells
         case Format => activeBase == 0 && activeSeq == 1 && used == 0 && Formatted(geo, cells, port.cells)
    }

    /** Creates an empty active bank 0. */
    method FormatBank0() returns (status: Status)
      requires Fits() && (port.powered ==> Boot(geo, port.cells) == Format)
      modifies port, this`activeBase, this`inactiveBase, this`activeSeq, this`activeNext, this`used
      ensures port.Grown()
      ensures Fits()
      ensures if port.powered then status == Success else status == NvmError
      ensures old(port.powered) ==> old(port.log) < port.log
      ensures !old(port.powered) ==> port.cells == old(port.cells)
      ensures port.powered ==>
        && activeBase == 0 && inactiveBase == geo.bankSize && activeSeq == 1 && used == 0 && activeNext == Off(geo, 0)
        && Formatted(geo, old(port.cells), port.cells)
      ensures old(Unformatted(geo, port.cells)) && (port.powered || Intact()) ==>
        Sound(geo, port.cells) && Durable() == Blank(cfg.logicalSize)
    {
      hide Multiple, View, ProbeHeader, EncodeHeader, Views, Active, Off, ShownLine, Times, Stored, Sound, Overlaid,
        LineOf, Bit, LinesFrom, PrepareResult, ActivateResult, Unformatted, Formatted, Orderly, History, TopsErased;
      ghost var cells, blank := port.cells, Unformatted(geo, port.cells);
      status := NvmError;
      var ok := PrepareBank(0, 1);
      ghost var cells1 := port.cells;
      if blank && (ok || Intact()) {
        FormatPrepared(geo, ok, cells, cells1);
      }
      if !ok {
        return;
      }
      FormatHeader(geo, cells, cells1);
      ok := ActivateBank(0, 1);
      FormatActivated(geo, ok, cells, cells1, port.cells);
      if !ok {
        return;
      }
      activeBase, inactiveBase, activeSeq, activeNext, used := 0, geo.bankSize, 1, HEADER_SIZE, 0;
      OffStep(geo, 0);
      status := Success;
    }

    /** An accepted geometry fits the bound port. */
    lemma GeometryFits()
      requires Wired()
      requires Derived() && geo.Valid() && Orderly(geo, port.log)
      requires port.factory ==> TopsErased(geo, port.cells)
      ensures Fits()
    {
    }

    /** On sound flash the adopted bank is the active one. */
    lemma AdoptedIsActive(cells: seq<Byte>)
      requires Fits() && IsFlash(geo, cells) && Sound(geo, cells)
      requires Adopted(Boot(geo, cells), cells)
      ensures Active(geo, port.cells, activeBase, activeSeq, used)
      ensures activeNext == Off(geo, used)
    {
      hide Multiple, View, ProbeHeader, EncodeHeader, Views, Active, Off, Stored, Sound, Boot, Formatted, Orderly,
        History, TopsErased;
      SoundBoot(geo, cells);
      if Boot(geo, cells).Format? {
        FormattedActive(geo, cells, port.cells);
      }
    }

    /** Clears everything derived at run time; the binding stays. */
    method ResetRuntime()
      requires Wired()
      modifies this`isInit, this`cacheValid, this`cacheBase, this`cacheSize, this`winFirst, this`winLines, dirty.bits
      modifies this`activeBase, this`inactiveBase, this`activeSeq, this`activeNext, this`used
      ensures Idle() && !cacheValid && Clean() && At(0, 0, 0) && inactiveBase == activeNext == 0
      ensures cacheBase == cacheSize == winFirst == winLines == 0
    {
      hide Multiple, View, ProbeHeader, Active, Orderly, History, TopsErased, Bit;
      isInit, cacheValid := false, false;
      activeBase, inactiveBase, activeSeq, activeNext, used := 0, 0, 0, 0, 0;
      cacheBase, cacheSize, winFirst, winLines := 0, 0, 0, 0;
      dirty.Clear();
    }

    /** Mounts the store: geometry first, then bank selection. */
    method Init() returns (status: Status)
      requires port.powered && if isInit then Valid() else Idle()
      requires var r := ValidateGeometry(cfg, port.regionSize, port.eraseSize, port.programSize);
        r.Ok? ==>
          && r.value.Valid() && Orderly(r.value, port.log)
          && (port.factory ==> TopsErased(r.value, port.cells))
      modifies this`geo, this`isInit, this`cacheValid, this`cacheBase, this`cacheSize, this`winFirst, this`winLines,
        dirty.bits
      modifies port, this`activeBase, this`inactiveBase, this`activeSeq, this`activeNext, this`used
      ensures port.Grown()
      ensures Wired()
      ensures old(isInit) ==>
        && status == Success && Valid() && Live() == old(Live()) && port.cells == old(port.cells) && geo == old(geo)
        && port.log == old(port.log) && At(old(activeBase), old(activeSeq), old(used)) && (old(Clean()) ==> Clean())
      ensures !old(isInit) && ValidateGeometry(cfg, port.regionSize, port.eraseSize, port.programSize).Err? ==>
        status == InitError && Idle() && port.cells == old(port.cells)
      ensures !old(isInit) && ValidateGeometry(cfg, port.regionSize, port.eraseSize, port.programSize).Ok? ==>
        && Derived() && Fits()
        && (port.powered ==>
              && status == Success && Mounted() && Clean() && !cacheValid
              && Adopted(Boot(geo, old(port.cells)), old(port.cells)))
        && (Boot(geo, old(port.cells)).Use? ==> port.log == old(port.log))
        && (Sound(geo, old(port.cells)) && (port.powered || Intact()) ==>
              && Sound(geo, port.cells) && Durable() == Stored(geo, old(port.cells))
              && (port.powered ==> Valid() && Live() == Durable()))
    {
      hide Multiple, View, ProbeHeader, EncodeHeader, Views, Active, Off, ShownLine, Times, Stored, Sound, Overlaid,
        LineOf, Bit, LinesFrom, ValidateGeometry, Boot, Adopted, Formatted, Orderly, History, TopsErased;
      if isInit {
        return Success;
      }
      var v := ValidateGeometry(cfg, port.regionSize, port.eraseSize, port.programSize);
      if v.Err? {
        ResetRuntime();
        return InitError;
      }
      geo := v.value;
      GeometryFits();
      status := Mount();
    }

    /** Bank selection and the run-time state that goes with it. */
    method Mount() returns (status: Status)
      requires Fits() && Idle() && port.powered
      modifies this`isInit, this`cacheValid, this`cacheBase, this`cacheSize, this`winFirst, this`winLines, dirty.bits
      modifies port, this`activeBase, this`inactiveBase, this`activeSeq, this`activeNext, this`used
      ensures port.Grown()
      ensures Fits()
      ensures port.powered ==>
        && status == Success && Mounted() && Clean() && !cacheValid
        && Adopted(Boot(geo, old(port.cells)), old(port.cells))
      ensures status == NvmError ==> old(port.log) < port.log
      ensures if status == Success then isInit else Idle() && Clean() && !cacheValid && At(0, 0, 0)
      ensures Boot(geo, old(port.cells)).Use? ==> port.log == old(port.log)
      ensures Sound(geo, old(port.cells)) && (port.powered || Intact()) ==>
        && Sound(geo, port.cells) && Durable() == old(Durable())
        && (port.powered ==> Valid() && Live() == Durable())
    {
      hide Multiple, View, ProbeHeader, EncodeHeader, Views, Active, Off, ShownLine, Times, Stored, Sound, Overlaid,
        LineOf, Bit, LinesFrom, Boot, Adopted, Formatted, Orderly, History, TopsErased;
      ghost var cells := port.cells;
      status := SelectBank();
      if status != Success {
        ResetRuntime();
        return;
      }
      cacheValid, isInit := false, true;
      dirty.Clear();
      if Sound(geo, cells) && port.powered {
        AdoptedIsActive(cells);
      }
    }

    /** Unmounts the store after synchronizing; a failed synchronization or a port that refuses keeps it mounted. */
    method Deinit(refuses: bool) returns (status: Status)
      requires if isInit then Valid() && activeSeq < 0xFFFF_FFFF else Idle()
      modifies port, this`isInit, this`cacheValid
      modifies this`activeBase, this`inactiveBase, this`activeSeq, this`activeNext, this`used, dirty.bits
      ensures port.Grown()
      ensures !old(isInit) ==> status == Success && Idle() && port.cells == old(port.cells)
      ensures old(isInit) ==> Fits()
      ensures old(isInit) ==> (status == Success <==> port.powered && !refuses)
      ensures old(isInit) && port.powered && refuses ==> status == Error
      ensures old(isInit) && status == Success ==> !cacheValid
      ensures old(isInit) && port.powered ==>
        && (if status == Success then Idle() else Valid() && Live() == old(Live()))
        && Clean()
        && Active(geo, port.cells, activeBase, activeSeq, used)
        && Durable() == old(Live()) && activeSeq <= old(activeSeq) + 1
        && (old(Clean()) ==> At(old(activeBase), old(activeSeq), old(used)))
      ensures old(isInit && Clean()) ==> port.log == old(port.log)
      ensures old(isInit) && !port.powered ==> Cut({old(Durable()), old(Live())})
    {
      hide Multiple, View, ProbeHeader, EncodeHeader, Views, Active, Off, ShownLine, Times, Stored, Sound, Overlaid,
        LineOf, Bit, LinesFrom, Orderly, History, TopsErased;
      if !isInit {
        return Success;
      }
      status := Sync();
      if status != Success {
        return;
      }
      assert Active(geo, port.cells, activeBase, activeSeq, used);
      var ok := port.Deinit(refuses);
      if !ok {
        return Error;
      }
      isInit, cacheValid := false, false;
    }

    /** Power returns after a loss: RAM holds its start-up values, the flash is as the loss left it. */
    method PowerCycle()
      requires Wired()
      modifies port`powered, this`isInit, this`cacheValid, this`cacheBase, this`cacheSize, this`winFirst, this`winLines
      modifies this`activeBase, this`inactiveBase, this`activeSeq, this`activeNext, this`used, dirty.bits
      ensures Idle() && Clean() && port.powered
    {
      port.PowerUp();
      ResetRuntime();
    }

    /** Power-up after any loss: the flash contents are recovered exactly, and a second loss keeps them recoverable. */
    method Reboot() returns (status: Status)
      requires Derived() && Fits() && Sound(geo, port.cells)
      modifies this`geo, this`isInit, this`cacheValid, this`cacheBase, this`cacheSize, this`winFirst, this`winLines,
        dirty.bits
      modifies port, this`activeBase, this`inactiveBase, this`activeSeq, this`activeNext, this`used
      ensures port.Grown()
      ensures geo == old(geo) && Fits()
      ensures port.powered || Intact() ==> Sound(geo, port.cells) && Durable() == old(Durable())
      ensures port.powered ==> status == Success && Valid() && Live() == Durable() && Clean()
    {
      hide Multiple, View, ProbeHeader, EncodeHeader, Views, Active, Off, ShownLine, Times, Stored, Sound, Overlaid,
        LineOf, Bit, LinesFrom, ValidateGeometry, Boot, Adopted, Formatted, Orderly, History, TopsErased;
      PowerCycle();
      status := Init();
    }
  }

  /** A flush cut inside line `j` leaves every line stored as before or as staged. */
  lemma FlushCut(g: Geo, cells: seq<Byte>, stored: seq<Byte>, first: nat, lines: nat, win: seq<Byte>, j: nat)
    requires IsFlash(g, cells) && IsImage(g.cfg.lineSize, g.lineCount, stored)
    requires IsWindow(g.cfg.lineSize, g.lineCount, first, lines, win) && j < lines
    requires Stored(g, cells) in {FlushedTo(g.cfg.lineSize, g.lineCount, stored, first, lines, win, j),
                                  FlushedTo(g.cfg.lineSize, g.lineCount, stored, first, lines, win, j + 1)}
    ensures LinesFrom(g.cfg.lineSize, g.lineCount, Stored(g, cells),
                      {stored, Overlaid(g.cfg.lineSize, g.lineCount, stored, first, lines, win)})
  {
    hide Multiple, View, ProbeHeader, Views, FlushedTo, Overlaid, LinesFrom, Stored, Orderly, History, TopsErased;
    FlushedMix(g.cfg.lineSize, g.lineCount, stored, first, lines, win, j);
    FlushedMix(g.cfg.lineSize, g.lineCount, stored, first, lines, win, j + 1);
  }
}
