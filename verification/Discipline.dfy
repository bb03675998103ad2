/** Flash discipline over whole runs: no program or erase ever touches a record of the active bank. */
module Discipline {
  import opened Arith
  import opened Banks
  import opened Bytes
  import opened FlashFormat
  import opened FlashPorts
  import opened FlashSteps
  import opened Log
  import opened Rebuild

  /** Every byte the operation addresses lies in `[lo, hi)`. */
  predicate Within(op: FlashOp, lo: nat, hi: nat) {
    match op
    case ProgramOp(_, addr, data) => lo <= addr && addr + |data| <= hi
    case EraseOp(_, addr, size) => lo <= addr && addr + size <= hi
  }

  /** A program of still erased cells of bank `base`: the data part of the first free slot, or the commit unit of
      the last written slot while that slot holds no record. */
  ghost predicate OnFreeCells(g: Geo, op: FlashOp, base: nat, used: nat)
    requires IsFlash(g, op.before) && IsBase(g, base) && used <= g.maxRecords
  {
    && op.ProgramOp?
    && op.addr + |op.data| <= |op.before|
    && IsErased(op.before[op.addr..op.addr + |op.data|])
    && ((used < g.maxRecords && op.addr == base + Off(g, used) && |op.data| == g.commitOffset)
        || (used > 0 && Views(g, BankAt(g, op.before, base))[used - 1] == Torn
            && op.addr == base + Off(g, used - 1) + g.commitOffset && |op.data| == g.programSize))
  }

  /** The bank has fewer free slots than a full cache window has lines. */
  ghost predicate Crowded(g: Geo, used: nat) {
    && used <= g.maxRecords
    && Times(g.maxRecords - used, g.cfg.lineSize) < g.cfg.cacheSize
    && Times(g.maxRecords - used, g.cfg.lineSize) < g.cfg.logicalSize
  }

  /** The operation meets active bank `base` and works in the other bank or on free cells of this one; it erases only
      while the active bank is crowded. */
  ghost predicate Spares(g: Geo, op: FlashOp, base: nat, seqNo: U32, used: nat) {
    && Active(g, op.before, base, seqNo, used)
    && (op.EraseOp? ==> Crowded(g, used))
    && (Within(op, OtherBase(g, base), OtherBase(g, base) + g.bankSize) || OnFreeCells(g, op, base, used))
  }

  /** With an active bank the operation spares it; while no bank is usable only bank 0 is worked on. */
  ghost predicate Disciplined(g: Geo, op: FlashOp) {
    || (exists base, seqNo, used :: Spares(g, op, base, seqNo, used))
    || (IsFlash(g, op.before) && Boot(g, op.before) == Format && Within(op, 0, g.bankSize))
  }

  ghost predicate Orderly(g: Geo, log: seq<FlashOp>) {
    forall i :: 0 <= i < |log| ==> Disciplined(g, log[i])
  }

  lemma OrderlyNext(g: Geo, log: seq<FlashOp>, op: FlashOp)
    requires Orderly(g, log) && Disciplined(g, op)
    ensures Orderly(g, log + [op])
  {
    hide Disciplined;
  }

  /** A sparing operation, complete or cut, keeps the header and every record of the active bank byte for byte. */
  lemma RecordsKept(g: Geo, op: FlashOp, cells': seq<Byte>, base: nat, seqNo: U32, used: nat, k: nat)
    requires Spares(g, op, base, seqNo, used) && Effect(op, g.eraseSize, cells')
    requires k < used && Views(g, BankAt(g, op.before, base))[k].Committed?
    ensures IsFlash(g, cells') && Header(g, BankAt(g, cells', base)) == Header(g, BankAt(g, op.before, base))
    ensures Slot(g, BankAt(g, cells', base), k) == Slot(g, BankAt(g, op.before, base), k)
  {
    hide Multiple, View, ProbeHeader, Views, Active, Times, Slot, Header, BankAt, Off, TornErase, TornProgram;
    ActiveShape(g, op.before, base, seqNo, used);
    var o := OtherBase(g, base);
    if Within(op, o, o + g.bankSize) {
      OtherBankOnly(g, op, cells', base);
    } else {
      FreeCellsLast(g, op, base, used, k);
      EarlierKept(g, op.before, cells', base, op.addr - base, op.data, k);
    }
  }

  /** Seen over a whole history of the device: from one operation to the next no record of the bank that was active
      is touched. */
  lemma NeverTouched(g: Geo, log: seq<FlashOp>, states: seq<seq<Byte>>, i: nat, base: nat, seqNo: U32, used: nat,
                     k: nat)
    requires Orderly(g, log) && g.Valid() && History(g.eraseSize, log, states) && i < |log|
    requires Active(g, states[i], base, seqNo, used) && k < used
    requires Views(g, BankAt(g, states[i], base))[k].Committed?
    ensures IsFlash(g, states[i + 1])
    ensures Header(g, BankAt(g, states[i + 1], base)) == Header(g, BankAt(g, states[i], base))
    ensures Slot(g, BankAt(g, states[i + 1], base), k) == Slot(g, BankAt(g, states[i], base), k)
  {
    hide Multiple, View, ProbeHeader, Views, Active, Boot, BankAt, Header, Slot, Within, OnFreeCells;
    assert Disciplined(g, log[i]);
    ActiveBoots(g, states[i], base, seqNo, used);
    var b, s, u :| Spares(g, log[i], b, s, u);
    ActiveUnique(g, states[i], base, seqNo, used, b, s, u);
    RecordsKept(g, log[i], states[i + 1], base, seqNo, used, k);
  }

  /** Seen over a whole history: flash is erased only when no bank is usable, or in the bank that is not active while
      the active one is crowded. */
  lemma ErasedWhenCrowded(g: Geo, log: seq<FlashOp>, states: seq<seq<Byte>>, i: nat)
    requires Orderly(g, log) && g.Valid() && History(g.eraseSize, log, states) && i < |log| && log[i].EraseOp?
    ensures IsFlash(g, states[i])
    ensures match Boot(g, states[i])
            case Format => log[i].addr + log[i].size <= g.bankSize
            case Use(base, _, used) =>
              && used <= g.maxRecords
              && (g.maxRecords - used) * g.cfg.lineSize < g.cfg.cacheSize
              && (g.maxRecords - used) * g.cfg.lineSize < g.cfg.logicalSize
              && OtherBase(g, base) <= log[i].addr && log[i].addr + log[i].size <= OtherBase(g, base) + g.bankSize
  {
    hide Multiple, View, ProbeHeader, Views, Active, Boot, BankAt, Times;
    assert Disciplined(g, log[i]);
    assert log[i].before == states[i];
    if b, s, u :| Spares(g, log[i], b, s, u) {
      ActiveShape(g, states[i], b, s, u);
      ActiveBoots(g, states[i], b, s, u);
      TimesIsProduct(g.maxRecords - u, g.cfg.lineSize);
    }
  }

  /** Bank `base` is active with record `k` committed. */
  ghost predicate HoldsRecord(g: Geo, cells: seq<Byte>, base: nat, k: nat) {
    exists seqNo, used ::
      Active(g, cells, base, seqNo, used) && k < used && Views(g, BankAt(g, cells, base))[k].Committed?
  }

  /** A record stays byte for byte the same for as long as its bank is active. */
  lemma {:induction false} RecordStays(g: Geo, log: seq<FlashOp>, states: seq<seq<Byte>>, i: nat, j: nat, base: nat,
                                       k: nat)
    requires Orderly(g, log) && g.Valid() && History(g.eraseSize, log, states) && i <= j <= |log|
    requires forall n :: i <= n < j ==> HoldsRecord(g, states[n], base, k)
    requires IsFlash(g, states[i]) && IsBase(g, base) && k < g.maxRecords
    ensures IsFlash(g, states[j]) && Slot(g, BankAt(g, states[j], base), k) == Slot(g, BankAt(g, states[i], base), k)
    decreases j - i
  {
    hide Multiple, View, ProbeHeader, Views, Active, BankAt, Slot, Header, Disciplined, Effect;
    if i < j {
      assert HoldsRecord(g, states[i], base, k);
      var seqNo, used :| Active(g, states[i], base, seqNo, used) && k < used
        && Views(g, BankAt(g, states[i], base))[k].Committed?;
      NeverTouched(g, log, states, i, base, seqNo, used, k);
      RecordStays(g, log, states, i + 1, j, base, k);
    }
  }

  /** Free cells lie behind every record. */
  lemma FreeCellsLast(g: Geo, op: FlashOp, base: nat, used: nat, k: nat)
    requires IsFlash(g, op.before) && IsBase(g, base) && k < used <= g.maxRecords && OnFreeCells(g, op, base, used)
    requires Views(g, BankAt(g, op.before, base))[k].Committed?
    ensures base + Off(g, k) + g.recordSize <= op.addr && op.addr + |op.data| <= base + g.bankSize
  {
    hide Multiple, View, Views, Times, BankAt, IsErased;
    OffFits(g, used);
    OffFits(g, used - 1);
    OffMono(g, k, used);
    if k < used - 1 {
      OffMono(g, k, used - 1);
    }
  }

  lemma EarlierKept(g: Geo, cells: seq<Byte>, cells': seq<Byte>, base: nat, at: nat, data: seq<Byte>, k: nat)
    requires IsFlash(g, cells) && IsBase(g, base) && k < g.maxRecords
    requires Off(g, k) + g.recordSize <= at && at + |data| <= g.bankSize
    requires TornProgram(cells, cells', base + at, data)
    ensures IsFlash(g, cells') && Header(g, BankAt(g, cells', base)) == Header(g, BankAt(g, cells, base))
    ensures Slot(g, BankAt(g, cells', base), k) == Slot(g, BankAt(g, cells, base), k)
  {
    hide Multiple, View, Times;
    RangeInBank(g, cells, cells', base, at, at + |data|);
    PrefixSlice(BankAt(g, cells', base), BankAt(g, cells, base), at, 0, HEADER_SIZE);
    PrefixSlice(BankAt(g, cells', base), BankAt(g, cells, base), at, Off(g, k), Off(g, k) + g.recordSize);
  }

  lemma OtherBankOnly(g: Geo, op: FlashOp, cells': seq<Byte>, base: nat)
    requires IsFlash(g, op.before) && IsBase(g, base) && Effect(op, g.eraseSize, cells')
    requires Within(op, OtherBase(g, base), OtherBase(g, base) + g.bankSize)
    ensures IsFlash(g, cells') && BankAt(g, cells', base) == BankAt(g, op.before, base)
  {
    hide Multiple, View;
    var o := OtherBase(g, base);
    var n := if op.ProgramOp? then |op.data| else op.size;
    RangeInBank(g, op.before, cells', o, op.addr - o, op.addr - o + n);
  }

  // ----- Appending

  /** `base` is the active bank with `k` used slots, or the other bank, holding a dense log of `k` slots. */
  ghost predicate Appendable(g: Geo, cells: seq<Byte>, base: nat, k: nat, home: nat, seqNo: U32, used: nat) {
    && Active(g, cells, home, seqNo, used) && IsBase(g, base)
    && Dense(Views(g, BankAt(g, cells, base)), k)
    && (home == base ==> k == used)
  }

  lemma ErasedSlot(g: Geo, cells: seq<Byte>, base: nat, k: nat, home: nat, seqNo: U32, used: nat)
    requires Appendable(g, cells, base, k, home, seqNo, used) && k < g.maxRecords
    ensures IsFlash(g, cells) && IsErased(Slot(g, BankAt(g, cells, base), k))
  {
    hide Multiple, View, ProbeHeader, Views;
    ViewsAt(g, BankAt(g, cells, base), k);
  }

  lemma ActiveAppendable(g: Geo, cells: seq<Byte>, base: nat, seqNo: U32, used: nat)
    requires Active(g, cells, base, seqNo, used)
    ensures Appendable(g, cells, base, used, base, seqNo, used)
  {
  }

  lemma CompactAppendable(g: Geo, cells0: seq<Byte>, cells: seq<Byte>, base: nat, seqNo: U32, used: nat, m: nat,
                          live: seq<Byte>, upto: nat)
    requires Compacting(g, cells0, cells, base, seqNo, used, m, live, upto)
    ensures IsFlash(g, cells) && IsBase(g, base) && m < g.maxRecords
    ensures Appendable(g, cells, OtherBase(g, base), m, base, seqNo, used)
  {
    hide Multiple, View, ProbeHeader, Views;
    CompactRoom(g, cells0, cells, base, seqNo, used, m, live, upto);
  }

  lemma DataDisciplined(g: Geo, cells: seq<Byte>, base: nat, k: nat, home: nat, seqNo: U32, used: nat, data: seq<Byte>)
    requires Appendable(g, cells, base, k, home, seqNo, used) && k < g.maxRecords && |data| == g.commitOffset
    ensures Disciplined(g, ProgramOp(cells, base + Off(g, k), data))
  {
    hide Multiple, View, ProbeHeader, Views, Active, BankAt, Slot, Times, Off;
    var op, at := ProgramOp(cells, base + Off(g, k), data), base + Off(g, k);
    ActiveShape(g, cells, home, seqNo, used);
    SlotCells(g, cells, base, k);
    if home == base {
      ErasedSlot(g, cells, base, k, home, seqNo, used);
      SliceOfSlice(cells, at, at + g.recordSize, 0, g.commitOffset);
      ErasedPart(cells[at..at + g.recordSize], 0, g.commitOffset);
      assert OnFreeCells(g, op, base, used);
    } else {
      assert IsFlash(g, cells) && IsBase(g, base) && IsBase(g, home);
      assert base == OtherBase(g, home) && Off(g, k) + g.commitOffset <= g.bankSize;
      assert Within(op, OtherBase(g, home), OtherBase(g, home) + g.bankSize);
    }
    assert Spares(g, op, home, seqNo, used);
  }

  /** A slot that holds a record's data and no commit unit is torn, never erased. */
  lemma DataVisible(g: Geo, rec: seq<Byte>, line: U32, data: seq<Byte>)
    requires g.Valid() && |rec| == g.recordSize && line < g.lineCount && |data| == g.cfg.lineSize
    requires rec[..g.commitOffset] == RecordData(g, line, data) && IsErased(rec[g.commitOffset..])
    ensures View(g, rec) == Torn
  {
    hide Multiple, RecordData, Times;
    var ls, r := g.cfg.lineSize, RecordData(g, line, data);
    RecordDataFields(g, line, data);
    PrefixSlice(rec, r, g.commitOffset, ls, ls + 4);
    assert GetU32([ERASED, ERASED, ERASED, ERASED]) == 0xFFFF_FFFF;
    assert rec[ls..ls + 4] == [rec[ls], rec[ls + 1], rec[ls + 2], rec[ls + 3]];
    assert rec[g.commitOffset..][0] == ERASED;
    OpenSlotView(g, rec);
  }

  /** Between its two programs an append leaves the active bank active, with the open slot counted if it is there. */
  lemma OpenSlotActive(g: Geo, cells: seq<Byte>, cells1: seq<Byte>, base: nat, k: nat, home: nat, seqNo: U32, used: nat,
                       line: U32, data: seq<Byte>)
    requires Appendable(g, cells, base, k, home, seqNo, used) && k < g.maxRecords
    requires line < g.lineCount && |data| == g.cfg.lineSize
    requires DataResult(g, true, cells, cells1, base, k, RecordData(g, line, data))
    ensures Active(g, cells1, home, seqNo, if home == base then k + 1 else used)
    ensures Views(g, BankAt(g, cells1, base))[k] == Torn
  {
    hide Multiple, View, ProbeHeader, Active, RecordData, Views, SameOutsideSlot;
    ActiveShape(g, cells, home, seqNo, used);
    DataVisible(g, Slot(g, BankAt(g, cells1, base), k), line, data);
    ViewsAt(g, BankAt(g, cells1, base), k);
    OpenSlotOutcome(g, cells, cells1, base, k, line, data);
    if home == base {
      ActiveAppend(g, cells, cells1, base, seqNo, used, line, data);
    } else {
      HeaderVerdict(g, BankAt(g, cells, base), BankAt(g, cells1, base));
      OtherBankTouched(g, cells, cells1, home, seqNo, used);
    }
  }

  lemma CommitDisciplined(g: Geo, cells: seq<Byte>, cells1: seq<Byte>, base: nat, k: nat, home: nat, seqNo: U32,
                          used: nat, line: U32, data: seq<Byte>)
    requires Appendable(g, cells, base, k, home, seqNo, used) && k < g.maxRecords
    requires line < g.lineCount && |data| == g.cfg.lineSize
    requires DataResult(g, true, cells, cells1, base, k, RecordData(g, line, data))
    ensures Disciplined(g, ProgramOp(cells1, base + Off(g, k) + g.commitOffset, CommitUnit(g)))
  {
    hide Multiple, View, ProbeHeader, Active, RecordData, Views, SameOutsideSlot;
    var op, at := ProgramOp(cells1, base + Off(g, k) + g.commitOffset, CommitUnit(g)), base + Off(g, k);
    OpenSlotActive(g, cells, cells1, base, k, home, seqNo, used, line, data);
    var n := if home == base then k + 1 else used;
    ActiveShape(g, cells1, home, seqNo, n);
    SlotCells(g, cells1, base, k);
    SliceOfSlice(cells1, at, at + g.recordSize, g.commitOffset, g.recordSize);
    assert Spares(g, op, home, seqNo, n);
  }

  // ----- Preparing and activating a bank

  /** Bank `base` may be rebuilt: the other bank is active and crowded, or no bank is usable and this is bank 0. */
  ghost predicate FreeBank(g: Geo, cells: seq<Byte>, base: nat) {
    && IsFlash(g, cells) && IsBase(g, base)
    && ((exists seqNo, used :: Active(g, cells, OtherBase(g, base), seqNo, used) && Crowded(g, used))
        || (base == 0 && Boot(g, cells) == Format))
  }

  lemma OtherBankFree(g: Geo, cells: seq<Byte>, base: nat, seqNo: U32, used: nat)
    requires Active(g, cells, base, seqNo, used) && Crowded(g, used)
    ensures FreeBank(g, cells, OtherBase(g, base))
  {
    hide Multiple, View, ProbeHeader, Active, Views, Boot, Crowded;
    ActiveShape(g, cells, base, seqNo, used);
    assert OtherBase(g, OtherBase(g, base)) == base;
  }

  lemma BankWork(g: Geo, op: FlashOp, base: nat)
    requires FreeBank(g, op.before, base) && Within(op, base, base + g.bankSize)
    ensures Disciplined(g, op)
  {
    hide Multiple, View, ProbeHeader, Active, Views, Boot, Crowded;
    var o := OtherBase(g, base);
    assert OtherBase(g, o) == base;
    if seqNo, used :| Active(g, op.before, o, seqNo, used) && Crowded(g, used) {
      assert Spares(g, op, o, seqNo, used);
    }
  }

  /** The work on a free bank keeps it free for as long as it has no accepted header. */
  lemma StaysFree(g: Geo, cells: seq<Byte>, cells': seq<Byte>, base: nat)
    requires FreeBank(g, cells, base) && IsFlash(g, cells') && !HeaderOk(g, BankAt(g, cells', base))
    requires BankAt(g, cells', OtherBase(g, base)) == BankAt(g, cells, OtherBase(g, base))
    ensures FreeBank(g, cells', base)
  {
    hide Multiple, View, ProbeHeader, Active, Views, Crowded;
    var o := OtherBase(g, base);
    assert OtherBase(g, o) == base;
    if seqNo, used :| Active(g, cells, o, seqNo, used) && Crowded(g, used) {
      OtherBankTouched(g, cells, cells', o, seqNo, used);
    }
  }
}
