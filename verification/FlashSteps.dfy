/** What a complete or interrupted port operation does to the two banks. */
module FlashSteps {
  import opened Arith
  import opened Banks
  import opened Bytes
  import opened FlashFormat
  import opened FlashPorts
  import opened Lines
  import opened Log
  import opened Wrappers

  /** Only bytes `[lo, hi)` of bank `base` differ between the two flash images. */
  ghost predicate OnlyRange(g: Geo, cells: seq<Byte>, cells': seq<Byte>, base: nat, lo: nat, hi: nat)
    requires IsFlash(g, cells) && IsBase(g, base) && lo <= hi <= g.bankSize
  {
    && |cells'| == |cells|
    && cells'[..base + lo] == cells[..base + lo]
    && cells'[base + hi..] == cells[base + hi..]
  }

  lemma RangeInBank(g: Geo, cells: seq<Byte>, cells': seq<Byte>, base: nat, lo: nat, hi: nat)
    requires IsFlash(g, cells) && IsBase(g, base) && lo <= hi <= g.bankSize
    requires OnlyRange(g, cells, cells', base, lo, hi)
    ensures BankAt(g, cells', OtherBase(g, base)) == BankAt(g, cells, OtherBase(g, base))
    ensures BankAt(g, cells', base)[..lo] == BankAt(g, cells, base)[..lo]
    ensures BankAt(g, cells', base)[hi..] == BankAt(g, cells, base)[hi..]
  {
    hide Multiple, View;
    var o, e := OtherBase(g, base), g.bankSize;
    if o < base {
      PrefixSlice(cells', cells, base + lo, o, o + e);
    } else {
      SuffixSlice(cells', cells, base + hi, o, o + e);
    }
    PrefixSlice(cells', cells, base + lo, base, base + lo);
    SuffixSlice(cells', cells, base + hi, base + hi, base + e);
    SliceOfSlice(cells', base, base + e, 0, lo);
    SliceOfSlice(cells, base, base + e, 0, lo);
    SliceOfSlice(cells', base, base + e, hi, e);
    SliceOfSlice(cells, base, base + e, hi, e);
  }

  /** Reading inside a bank. */
  lemma ReadInBank(g: Geo, cells: seq<Byte>, base: nat, lo: nat, hi: nat)
    requires IsFlash(g, cells) && IsBase(g, base) && lo <= hi <= g.bankSize
    ensures cells[base + lo..base + hi] == BankAt(g, cells, base)[lo..hi]
  {
    SliceOfSlice(cells, base, base + g.bankSize, lo, hi);
  }

  lemma BaseAligned(g: Geo, base: nat, lo: nat)
    requires g.Valid() && IsBase(g, base) && Multiple(lo, g.programSize)
    ensures Multiple(base + lo, g.programSize)
  {
    MultipleAdd(base, lo, g.programSize);
  }

  /** Erased cells accept any data. */
  lemma ErasedAccepts(cells: seq<Byte>, addr: nat, data: seq<Byte>)
    requires addr + |data| <= |cells| && IsErased(cells[addr..addr + |data|])
    ensures ClearsOnly(cells, addr, data)
  {
    forall i | 0 <= i < |data|
      ensures And(cells[addr + i], data[i]) == data[i]
    {
      assert cells[addr + i] == cells[addr..addr + |data|][i];
      AndErased(data[i]);
    }
  }

  // ----- Appending one record

  /** Slot `k` of a bank as an address range of the whole flash. */
  lemma SlotCells(g: Geo, cells: seq<Byte>, base: nat, k: nat)
    requires IsFlash(g, cells) && IsBase(g, base) && k < g.maxRecords
    ensures Off(g, k) + g.recordSize <= g.bankSize
    ensures Slot(g, BankAt(g, cells, base), k) == cells[base + Off(g, k)..base + Off(g, k) + g.recordSize]
  {
    OffFits(g, k);
    ReadInBank(g, cells, base, Off(g, k), Off(g, k) + g.recordSize);
  }

  /** State of a slot between the data program and the commit program. */
  ghost predicate OpenSlot(g: Geo, cells: seq<Byte>, cells1: seq<Byte>, base: nat, k: nat)
    requires IsFlash(g, cells) && IsBase(g, base) && k < g.maxRecords
  {
    && |cells1| == |cells|
    && BankAt(g, cells1, OtherBase(g, base)) == BankAt(g, cells, OtherBase(g, base))
    && SameOutsideSlot(g, BankAt(g, cells, base), BankAt(g, cells1, base), k)
    && IsErased(Slot(g, BankAt(g, cells1, base), k)[g.commitOffset..])
  }

  /** Outcome of the data program of an append. */
  ghost predicate DataResult(g: Geo, ok: bool, cells: seq<Byte>, cells1: seq<Byte>, base: nat, k: nat,
                             data: seq<Byte>) {
    && IsFlash(g, cells) && IsFlash(g, cells1) && IsBase(g, base) && k < g.maxRecords
    && OpenSlot(g, cells, cells1, base, k)
    && (ok ==> Slot(g, BankAt(g, cells1, base), k)[..g.commitOffset] == data)
  }

  /** The data program of an append is legal on an erased slot. */
  lemma {:induction false} DataReady(g: Geo, cells: seq<Byte>, base: nat, k: nat, line: U32, data: seq<Byte>)
    requires IsFlash(g, cells) && IsBase(g, base) && k < g.maxRecords && |data| == g.cfg.lineSize
    requires IsErased(Slot(g, BankAt(g, cells, base), k))
    ensures base + Off(g, k) + g.recordSize <= |cells|
    ensures Off(g, k) + g.recordSize <= g.bankSize
    ensures Multiple(base + Off(g, k), g.programSize) && Multiple(g.commitOffset, g.programSize)
    ensures ClearsOnly(cells, base + Off(g, k), RecordData(g, line, data))
  {
    hide Multiple, View;
    var at := base + Off(g, k);
    SlotCells(g, cells, base, k);
    OffAligned(g, k);
    BaseAligned(g, base, Off(g, k));
    SliceOfSlice(cells, at, at + g.recordSize, 0, g.commitOffset);
    ErasedAccepts(cells, at, RecordData(g, line, data));
  }

  /** The commit program of an append is legal on an open slot. */
  lemma {:induction false} CommitReady(g: Geo, cells: seq<Byte>, base: nat, k: nat)
    requires IsFlash(g, cells) && IsBase(g, base) && k < g.maxRecords
    requires IsErased(Slot(g, BankAt(g, cells, base), k)[g.commitOffset..])
    ensures base + Off(g, k) + g.recordSize <= |cells|
    ensures Off(g, k) + g.recordSize <= g.bankSize
    ensures Multiple(base + Off(g, k) + g.commitOffset, g.programSize) && Multiple(g.programSize, g.programSize)
    ensures ClearsOnly(cells, base + Off(g, k) + g.commitOffset, CommitUnit(g))
  {
    hide View, Slot, BankAt, Off, Times;
    var at := base + Off(g, k);
    SlotCells(g, cells, base, k);
    OffAligned(g, k);
    BaseAligned(g, base, Off(g, k));
    assert Multiple(g.programSize, g.programSize);
    hide Multiple, CommitUnit;
    MultipleAdd(at, g.commitOffset, g.programSize);
    SliceOfSlice(cells, at, at + g.recordSize, g.commitOffset, g.recordSize);
    ErasedAccepts(cells, at + g.commitOffset, CommitUnit(g));
  }

  /** Changing only the data part of a slot keeps everything else. */
  lemma DataRange(g: Geo, cells: seq<Byte>, cells1: seq<Byte>, base: nat, k: nat, data: seq<Byte>)
    requires IsFlash(g, cells) && IsBase(g, base) && k < g.maxRecords && |data| == g.commitOffset
    requires Off(g, k) + g.recordSize <= g.bankSize
    requires TornProgram(cells, cells1, base + Off(g, k), data)
    ensures BankAt(g, cells1, OtherBase(g, base)) == BankAt(g, cells, OtherBase(g, base))
    ensures SameOutsideSlot(g, BankAt(g, cells, base), BankAt(g, cells1, base), k)
    ensures Slot(g, BankAt(g, cells1, base), k)[g.commitOffset..] ==
      Slot(g, BankAt(g, cells, base), k)[g.commitOffset..]
  {
    hide Multiple, View;
    var lo, c := Off(g, k), g.commitOffset;
    RangeInBank(g, cells, cells1, base, lo, lo + c);
    var b, b1 := BankAt(g, cells, base), BankAt(g, cells1, base);
    var e := g.bankSize;
    SuffixSlice(b1, b, lo + c, lo + g.recordSize, e);
    SuffixSlice(b1, b, lo + c, lo + c, lo + g.recordSize);
    SliceOfSlice(b1, lo, lo + g.recordSize, c, g.recordSize);
    SliceOfSlice(b, lo, lo + g.recordSize, c, g.recordSize);
    assert b1[lo + g.recordSize..] == b1[lo + g.recordSize..e] && b[lo + g.recordSize..] == b[lo + g.recordSize..e];
  }

  lemma DataStored(g: Geo, cells: seq<Byte>, base: nat, k: nat, data: seq<Byte>)
    requires IsFlash(g, cells) && IsBase(g, base) && k < g.maxRecords && |data| == g.commitOffset
    requires base + Off(g, k) + g.commitOffset <= |cells|
    ensures Slot(g, BankAt(g, Splice(cells, base + Off(g, k), data), base), k)[..g.commitOffset] == data
  {
    hide Multiple, View, Splice, Times, Off, Slot, BankAt;
    var at, cells1 := base + Off(g, k), Splice(cells, base + Off(g, k), data);
    SlotCells(g, cells1, base, k);
    SliceOfSlice(cells1, at, at + g.recordSize, 0, g.commitOffset);
    SpliceInside(cells, at, data, at, at + g.commitOffset);
  }

  lemma DataProgram(g: Geo, ok: bool, cells: seq<Byte>, cells1: seq<Byte>, base: nat, k: nat, data: seq<Byte>)
    requires IsFlash(g, cells) && IsBase(g, base) && k < g.maxRecords && |data| == g.commitOffset
    requires Off(g, k) + g.recordSize <= g.bankSize
    requires IsErased(Slot(g, BankAt(g, cells, base), k))
    requires Programmed(ok, cells, cells1, base + Off(g, k), data)
    ensures DataResult(g, ok, cells, cells1, base, k, data)
  {
    hide Multiple, View, Splice, Times, Off, Slot, BankAt, SameOutsideSlot;
    DataRange(g, cells, cells1, base, k, data);
    if ok {
      DataStored(g, cells, base, k, data);
    }
  }

  /** Changing only the commit unit of a slot keeps everything else, its data part included. */
  lemma CommitRange(g: Geo, cells: seq<Byte>, cells1: seq<Byte>, cells2: seq<Byte>, base: nat, k: nat)
    requires IsFlash(g, cells) && IsBase(g, base) && k < g.maxRecords
    requires Off(g, k) + g.recordSize <= g.bankSize
    requires OpenSlot(g, cells, cells1, base, k)
    requires TornProgram(cells1, cells2, base + Off(g, k) + g.commitOffset, CommitUnit(g))
    ensures IsFlash(g, cells2)
    ensures BankAt(g, cells2, OtherBase(g, base)) == BankAt(g, cells, OtherBase(g, base))
    ensures SameOutsideSlot(g, BankAt(g, cells, base), BankAt(g, cells2, base), k)
    ensures Slot(g, BankAt(g, cells2, base), k)[..g.commitOffset] ==
      Slot(g, BankAt(g, cells1, base), k)[..g.commitOffset]
  {
    hide Multiple, View;
    var lo, c := Off(g, k), g.commitOffset;
    RangeInBank(g, cells1, cells2, base, lo + c, lo + g.recordSize);
    var b1, b2 := BankAt(g, cells1, base), BankAt(g, cells2, base);
    PrefixSlice(b2, b1, lo + c, 0, lo);
    PrefixSlice(b2, b1, lo + c, lo, lo + c);
    SliceOfSlice(b1, lo, lo + g.recordSize, 0, c);
    SliceOfSlice(b2, lo, lo + g.recordSize, 0, c);
  }

  /** Every byte of the commit unit is still erased or already programmed; all are when the program completed. */
  lemma CommitBytes(g: Geo, ok: bool, cells1: seq<Byte>, cells2: seq<Byte>, base: nat, k: nat)
    requires IsFlash(g, cells1) && IsFlash(g, cells2) && IsBase(g, base) && k < g.maxRecords
    requires base + Off(g, k) + g.recordSize <= |cells1| == |cells2|
    requires IsErased(Slot(g, BankAt(g, cells1, base), k)[g.commitOffset..])
    requires Programmed(ok, cells1, cells2, base + Off(g, k) + g.commitOffset, CommitUnit(g))
    ensures var s2 := Slot(g, BankAt(g, cells2, base), k);
      && (forall i :: 0 <= i < g.programSize ==> s2[g.commitOffset..][i] in {ERASED, CommitUnit(g)[i]})
      && (ok ==> s2[g.commitOffset..] == CommitUnit(g))
  {
    hide Multiple, View, Times, Off, CommitUnit, Slot, BankAt;
    var at, c := base + Off(g, k), g.commitOffset;
    SlotCells(g, cells1, base, k);
    SlotCells(g, cells2, base, k);
    var s1, s2 := Slot(g, BankAt(g, cells1, base), k), Slot(g, BankAt(g, cells2, base), k);
    forall i | 0 <= i < g.programSize
      ensures s2[c..][i] in {ERASED, CommitUnit(g)[i]}
    {
      assert s1[c..][i] == ERASED;
      assert s2[c..][i] == cells2[at + c + i] && s1[c..][i] == cells1[at + c + i];
    }
    if ok {
      SliceOfSlice(cells2, at, at + g.recordSize, c, g.recordSize);
      SpliceInside(cells1, at + c, CommitUnit(g), at + c, at + g.recordSize);
    }
  }

  lemma CommitProgram(g: Geo, ok: bool, cells: seq<Byte>, cells1: seq<Byte>, cells2: seq<Byte>, base: nat, k: nat,
                      line: U32, data: seq<Byte>)
    requires IsFlash(g, cells) && IsBase(g, base) && k < g.maxRecords
    requires Off(g, k) + g.recordSize <= g.bankSize
    requires line < g.lineCount && |data| == g.cfg.lineSize
    requires DataResult(g, true, cells, cells1, base, k, RecordData(g, line, data))
    requires Programmed(ok, cells1, cells2, base + Off(g, k) + g.commitOffset, CommitUnit(g))
    ensures AppendResult(g, ok, cells, cells2, base, k, line, data)
  {
    hide Multiple, View, Times, Off, CommitUnit, Slot, BankAt, SameOutsideSlot, RecordData;
    CommitRange(g, cells, cells1, cells2, base, k);
    CommitBytes(g, ok, cells1, cells2, base, k);
    CommitSlotView(g, Slot(g, BankAt(g, cells2, base), k), line, data);
    SlotAppended(g, BankAt(g, cells, base), BankAt(g, cells2, base), k, line, data);
  }

  /** A slot that never received its commit unit is invisible. */
  lemma OpenSlotOutcome(g: Geo, cells: seq<Byte>, cells1: seq<Byte>, base: nat, k: nat, line: nat, data: seq<Byte>)
    requires IsFlash(g, cells) && IsBase(g, base) && k < g.maxRecords
    requires OpenSlot(g, cells, cells1, base, k)
    ensures AppendResult(g, false, cells, cells1, base, k, line, data)
  {
    var rec := Slot(g, BankAt(g, cells1, base), k);
    assert rec[g.commitOffset..][0] == ERASED;
    OpenSlotView(g, rec);
    SlotAppended(g, BankAt(g, cells, base), BankAt(g, cells1, base), k, line, data);
  }

  // ----- Preparing and activating a bank

  lemma ErasedBank(g: Geo, cells: seq<Byte>, cells': seq<Byte>, base: nat)
    requires IsFlash(g, cells) && IsBase(g, base)
    requires cells' == Splice(cells, base, Blank(g.bankSize))
    ensures IsErased(BankAt(g, cells', base)) && !HeaderOk(g, BankAt(g, cells', base))
    ensures BankAt(g, cells', OtherBase(g, base)) == BankAt(g, cells, OtherBase(g, base))
  {
    hide Multiple;
    RangeInBank(g, cells, cells', base, 0, g.bankSize);
    InactiveHeaderRejected(g, Header(g, BankAt(g, cells', base)));
  }

  /** Programming the PREPARE header into an erased bank never yields an accepted header. */
  lemma PrepareProgram(g: Geo, ok: bool, cells: seq<Byte>, cells': seq<Byte>, base: nat, seqNo: U32)
    requires IsFlash(g, cells) && IsBase(g, base) && IsErased(BankAt(g, cells, base))
    requires Programmed(ok, cells, cells', base, EncodeHeader(g, seqNo, HEADER_PREPARE))
    ensures IsFlash(g, cells')
    ensures BankAt(g, cells', OtherBase(g, base)) == BankAt(g, cells, OtherBase(g, base))
    ensures !HeaderOk(g, BankAt(g, cells', base))
    ensures IsErased(BankAt(g, cells', base)[HEADER_SIZE..])
    ensures ok ==> Header(g, BankAt(g, cells', base)) == EncodeHeader(g, seqNo, HEADER_PREPARE)
  {
    var h := EncodeHeader(g, seqNo, HEADER_PREPARE);
    RangeInBank(g, cells, cells', base, 0, HEADER_SIZE);
    var b, b' := BankAt(g, cells, base), BankAt(g, cells', base);
    assert IsErased(b[HEADER_SIZE..]);
    ActivationIsOneByte(g, seqNo);
    HeaderByte(g, cells, base, ACTIVE_BYTE);
    HeaderByte(g, cells', base, ACTIVE_BYTE);
    InactiveHeaderRejected(g, Header(g, b'));
    if ok {
      SliceOfSlice(cells', base, base + g.bankSize, 0, HEADER_SIZE);
      SpliceInside(cells, base, h, base, base + HEADER_SIZE);
    }
  }

  /** Patching a PREPARE header to ACTIVE in place: the header is one or the other, nothing between. */
  ghost predicate PrepareOrActive(g: Geo, h: seq<Byte>, seqNo: U32)
    requires g.Valid()
  {
    h == EncodeHeader(g, seqNo, HEADER_PREPARE) || h == EncodeHeader(g, seqNo, HEADER_ACTIVE)
  }

  lemma ActivateProgram(g: Geo, ok: bool, cells: seq<Byte>, cells': seq<Byte>, base: nat, seqNo: U32, lo: nat,
                        patch: seq<Byte>)
    requires IsFlash(g, cells) && IsBase(g, base)
    requires Header(g, BankAt(g, cells, base)) == EncodeHeader(g, seqNo, HEADER_PREPARE)
    requires lo <= STATE_OFFSET && STATE_OFFSET + 4 <= lo + |patch| <= HEADER_SIZE
    requires patch == EncodeHeader(g, seqNo, HEADER_ACTIVE)[lo..lo + |patch|]
    requires Programmed(ok, cells, cells', base + lo, patch)
    ensures IsFlash(g, cells')
    ensures BankAt(g, cells', OtherBase(g, base)) == BankAt(g, cells, OtherBase(g, base))
    ensures BankAt(g, cells', base)[HEADER_SIZE..] == BankAt(g, cells, base)[HEADER_SIZE..]
    ensures PrepareOrActive(g, Header(g, BankAt(g, cells', base)), seqNo)
    ensures ok ==> Header(g, BankAt(g, cells', base)) == EncodeHeader(g, seqNo, HEADER_ACTIVE)
  {
    var hi := lo + |patch|;
    RangeInBank(g, cells, cells', base, lo, hi);
    var b, b' := BankAt(g, cells, base), BankAt(g, cells', base);
    SuffixSlice(b', b, hi, HEADER_SIZE, g.bankSize);
    assert b'[HEADER_SIZE..] == b'[HEADER_SIZE..g.bankSize] && b[HEADER_SIZE..] == b[HEADER_SIZE..g.bankSize];
    ActivationIsOneByte(g, seqNo);
    PatchedHeader(EncodeHeader(g, seqNo, HEADER_PREPARE), EncodeHeader(g, seqNo, HEADER_ACTIVE), Header(g, b'),
      cells, cells', base, lo, patch);
  }

  /** A header patched with bytes of an image that differs from it in the activation byte alone. */
  lemma PatchedHeader(p: seq<Byte>, a: seq<Byte>, h': seq<Byte>, cells: seq<Byte>, cells': seq<Byte>, base: nat,
                      lo: nat, patch: seq<Byte>)
    requires |p| == |a| == |h'| == HEADER_SIZE && base + HEADER_SIZE <= |cells| == |cells'|
    requires p[ACTIVE_BYTE] == ERASED && a == p[ACTIVE_BYTE := 0]
    requires cells[base..base + HEADER_SIZE] == p && cells'[base..base + HEADER_SIZE] == h'
    requires lo <= ACTIVE_BYTE < lo + |patch| <= HEADER_SIZE && patch == a[lo..lo + |patch|]
    requires TornProgram(cells, cells', base + lo, patch)
    ensures h' == p || h' == a
    ensures cells' == Splice(cells, base + lo, patch) ==> h' == a
  {
    var hi := lo + |patch|;
    forall i | 0 <= i < HEADER_SIZE && i != ACTIVE_BYTE
      ensures h'[i] == p[i]
    {
      assert h'[i] == cells'[base + i] && p[i] == cells[base + i];
      if i < lo {
        assert cells'[base + i] == cells'[..base + lo][base + i];
        assert cells[base + i] == cells[..base + lo][base + i];
      } else if hi <= i {
        assert cells'[base + i] == cells'[base + hi..][i - hi];
        assert cells[base + i] == cells[base + hi..][i - hi];
      }
    }
    var i := ACTIVE_BYTE;
    assert h'[i] == cells'[base + i] && p[i] == cells[base + i] && patch[i - lo] == 0;
    if h'[i] == 0 {
      assert h' == a;
    } else {
      assert h' == p;
    }
  }

  lemma HeaderByte(g: Geo, cells: seq<Byte>, base: nat, i: nat)
    requires IsFlash(g, cells) && IsBase(g, base) && i < HEADER_SIZE
    ensures Header(g, BankAt(g, cells, base))[i] == cells[base + i]
  {
  }

  /** Every byte of the activation patch survives the AND with the cell it lands on. */
  lemma ActivateAccepted(g: Geo, cells: seq<Byte>, base: nat, seqNo: U32, lo: nat, patch: seq<Byte>)
    requires IsFlash(g, cells) && IsBase(g, base)
    requires Header(g, BankAt(g, cells, base)) == EncodeHeader(g, seqNo, HEADER_PREPARE)
    requires lo + |patch| <= HEADER_SIZE
    requires patch == EncodeHeader(g, seqNo, HEADER_ACTIVE)[lo..lo + |patch|]
    ensures ClearsOnly(cells, base + lo, patch)
  {
    ActivationIsOneByte(g, seqNo);
    var p := EncodeHeader(g, seqNo, HEADER_PREPARE);
    forall i | 0 <= i < |patch|
      ensures And(cells[base + lo + i], patch[i]) == patch[i]
    {
      HeaderByte(g, cells, base, lo + i);
      assert cells[base + lo + i] == p[lo + i];
      AndSelf(patch[i]);
    }
  }

  /** Sizes of the two static work buffers. */
  function RecordBufferSize(cfg: Config): nat {
    cfg.lineSize + RECORD_META_SIZE + 2 * cfg.programSize
  }

  function PatchBufferSize(cfg: Config): nat {
    if 2 * cfg.programSize >= 4 then 2 * cfg.programSize else 4
  }

  /** The program units around the state word always fit the patch buffer, and a record its own buffer. */
  lemma {:induction false} BuffersFit(g: Geo, base: nat, at: nat, size: nat)
    requires g.Valid() && IsBase(g, base)
    requires Multiple(at, g.programSize) && at <= base + STATE_OFFSET < at + g.programSize
    requires Multiple(size, g.programSize)
    requires base + STATE_OFFSET - at + 4 <= size < base + STATE_OFFSET - at + 4 + g.programSize
    ensures size <= PatchBufferSize(g.cfg) && g.recordSize <= RecordBufferSize(g.cfg)
  {
    hide Multiple, Times;
    var p := g.programSize;
    if p >= 4 {
      WideUnits(p, size, base + STATE_OFFSET - at);
    } else {
      SmallUnits(p);
      BaseAligned(g, base, STATE_OFFSET);
      NextMultiple(base + STATE_OFFSET, at, p);
      NextMultiple(size, 4, p);
    }
  }

  lemma {:induction false} WideUnits(p: nat, size: nat, offset: nat)
    requires p >= 4 && offset < p && Multiple(size, p) && size < offset + 4 + p
    ensures size <= 2 * p
  {
    hide Multiple;
    assert Multiple(p, p) by {
      MultipleSelf(p);
    }
    MultipleAdd(p, p, p);
    NextMultiple(size, 2 * p, p);
  }

  lemma {:induction false} MultipleSelf(p: nat)
    requires p > 0
    ensures Multiple(p, p)
  {
  }

  /** A program unit below four bytes that divides the header also divides the state word and its offset. */
  lemma {:induction false} SmallUnits(p: nat)
    requires 0 < p < 4 && Multiple(HEADER_SIZE, p)
    ensures Multiple(STATE_OFFSET, p) && Multiple(4, p)
  {
    hide Multiple;
    MultipleIsMod(HEADER_SIZE, p);
    MultipleIsMod(STATE_OFFSET, p);
    MultipleIsMod(4, p);
    assert p in {1, 2, 3};
  }

  // ----- Outcomes of bank preparation and activation

  /** After preparing a bank the other one is untouched. Unless an unsafe erase was cut (`!safe`), the prepared bank
      is not accepted at boot unless its old header still is. */
  ghost predicate PrepareResult(g: Geo, ok: bool, safe: bool, cells: seq<Byte>, cells': seq<Byte>, base: nat,
                                seqNo: U32) {
    && IsFlash(g, cells) && IsFlash(g, cells') && IsBase(g, base)
    && BankAt(g, cells', OtherBase(g, base)) == BankAt(g, cells, OtherBase(g, base))
    && (safe ==> HeaderKept(g, BankAt(g, cells, base), BankAt(g, cells', base)))
    && (ok ==>
      && Header(g, BankAt(g, cells', base)) == EncodeHeader(g, seqNo, HEADER_PREPARE)
      && IsErased(BankAt(g, cells', base)[HEADER_SIZE..]))
  }

  /** Activation touches the header alone, and leaves it PREPARE or ACTIVE. */
  ghost predicate ActivateResult(g: Geo, ok: bool, cells: seq<Byte>, cells': seq<Byte>, base: nat, seqNo: U32) {
    && IsFlash(g, cells) && IsFlash(g, cells') && IsBase(g, base)
    && BankAt(g, cells', OtherBase(g, base)) == BankAt(g, cells, OtherBase(g, base))
    && BankAt(g, cells', base)[HEADER_SIZE..] == BankAt(g, cells, base)[HEADER_SIZE..]
    && PrepareOrActive(g, Header(g, BankAt(g, cells', base)), seqNo)
    && (ok ==> Header(g, BankAt(g, cells', base)) == EncodeHeader(g, seqNo, HEADER_ACTIVE))
  }

  lemma {:induction false} BaseMultiple(g: Geo, base: nat)
    requires g.Valid() && IsBase(g, base)
    ensures Multiple(base, g.eraseSize) && Multiple(base, g.programSize)
  {
  }

  lemma {:induction false} PrepareReady(g: Geo, cells: seq<Byte>, base: nat, seqNo: U32)
    requires IsFlash(g, cells) && IsBase(g, base) && IsErased(BankAt(g, cells, base))
    ensures Multiple(base, g.programSize) && Multiple(HEADER_SIZE, g.programSize)
    ensures base + HEADER_SIZE <= |cells|
    ensures ClearsOnly(cells, base, EncodeHeader(g, seqNo, HEADER_PREPARE))
  {
    hide Multiple, Times, EncodeHeader;
    SliceOfSlice(cells, base, base + g.bankSize, 0, HEADER_SIZE);
    ErasedPart(cells[base..base + g.bankSize], 0, HEADER_SIZE);
    BaseMultiple(g, base);
    ErasedAccepts(cells, base, EncodeHeader(g, seqNo, HEADER_PREPARE));
  }

  /** The read-back units with the state word replaced are exactly those of the ACTIVE header. */
  lemma PatchIsActiveHeader(g: Geo, cells: seq<Byte>, base: nat, seqNo: U32, lo: nat, size: nat, patch: seq<Byte>)
    requires IsFlash(g, cells) && IsBase(g, base)
    requires Header(g, BankAt(g, cells, base)) == EncodeHeader(g, seqNo, HEADER_PREPARE)
    requires lo <= STATE_OFFSET && STATE_OFFSET + 4 <= lo + size <= HEADER_SIZE
    requires patch == Splice(cells[base + lo..base + lo + size], STATE_OFFSET - lo, PutU32(HEADER_ACTIVE))
    ensures patch == EncodeHeader(g, seqNo, HEADER_ACTIVE)[lo..lo + size]
  {
    var p, a := EncodeHeader(g, seqNo, HEADER_PREPARE), EncodeHeader(g, seqNo, HEADER_ACTIVE);
    ActivationIsOneByte(g, seqNo);
    assert a[32..36] == PutU32(HEADER_ACTIVE);
    forall i | 0 <= i < size
      ensures patch[i] == a[lo + i]
    {
      HeaderByte(g, cells, base, lo + i);
      if STATE_OFFSET <= lo + i < STATE_OFFSET + 4 {
        assert patch[i] == PutU32(HEADER_ACTIVE)[lo + i - STATE_OFFSET];
      } else {
        assert patch[i] == cells[base + lo + i];
      }
    }
  }

  /** `patch` at `addr` holds the bytes the ACTIVE header has there, and covers the state word. */
  ghost predicate IsActivePatch(g: Geo, cells: seq<Byte>, base: nat, seqNo: U32, addr: nat, patch: seq<Byte>) {
    && IsFlash(g, cells) && IsBase(g, base)
    && Header(g, BankAt(g, cells, base)) == EncodeHeader(g, seqNo, HEADER_PREPARE)
    && base <= addr <= base + STATE_OFFSET
    && base + STATE_OFFSET + 4 <= addr + |patch| <= base + HEADER_SIZE
    && patch == EncodeHeader(g, seqNo, HEADER_ACTIVE)[addr - base..addr - base + |patch|]
  }

  lemma PatchRead(g: Geo, cells: seq<Byte>, base: nat, seqNo: U32, addr: nat, size: nat, patch: seq<Byte>)
    requires IsFlash(g, cells) && IsBase(g, base)
    requires Header(g, BankAt(g, cells, base)) == EncodeHeader(g, seqNo, HEADER_PREPARE)
    requires base <= addr <= base + STATE_OFFSET && base + STATE_OFFSET + 4 <= addr + size <= base + HEADER_SIZE
    requires patch == Splice(cells[addr..addr + size], base + STATE_OFFSET - addr, PutU32(HEADER_ACTIVE))
    ensures IsActivePatch(g, cells, base, seqNo, addr, patch)
    ensures addr + |patch| <= |cells| && ClearsOnly(cells, addr, patch)
  {
    hide Multiple, View, ProbeHeader, EncodeHeader, Times, And, Views, Header, BankAt, PutU32, ClearsOnly;
    PatchIsActiveHeader(g, cells, base, seqNo, addr - base, size, patch);
    ActivateAccepted(g, cells, base, seqNo, addr - base, patch);
  }

  lemma PatchProgrammed(g: Geo, ok: bool, cells: seq<Byte>, cells': seq<Byte>, base: nat, seqNo: U32, addr: nat,
                        patch: seq<Byte>)
    requires IsActivePatch(g, cells, base, seqNo, addr, patch)
    requires addr + |patch| <= |cells| && Programmed(ok, cells, cells', addr, patch)
    ensures ActivateResult(g, ok, cells, cells', base, seqNo)
  {
    hide Multiple, View, ProbeHeader, EncodeHeader, Times, And, Views;
    ActivateProgram(g, ok, cells, cells', base, seqNo, addr - base, patch);
  }

  // ----- Walking the active log backwards

  /** The walk for `line` stands at byte offset `offset`, below slot `k`, with nothing newer than the answer
      left out. */
  ghost predicate WalkAt(g: Geo, cells: seq<Byte>, base: nat, used: nat, line: nat, k: nat, offset: nat) {
    && IsFlash(g, cells) && IsBase(g, base)
    && k <= used <= g.maxRecords
    && offset == Off(g, k)
    && Lookup(g.cfg.lineSize, Views(g, BankAt(g, cells, base))[..k], line)
      == Lookup(g.cfg.lineSize, Views(g, BankAt(g, cells, base))[..used], line)
  }

  lemma WalkStart(g: Geo, cells: seq<Byte>, base: nat, seqNo: U32, used: nat, line: nat)
    requires Active(g, cells, base, seqNo, used) && line < g.lineCount
    ensures WalkAt(g, cells, base, used, line, used, Off(g, used))
  {
  }

  /** One slot back: the offset never drops below the header, and the slot decides or is skipped. */
  lemma WalkStep(g: Geo, cells: seq<Byte>, base: nat, seqNo: U32, used: nat, line: nat, k: nat, offset: nat)
    requires Active(g, cells, base, seqNo, used) && line < g.lineCount
    requires WalkAt(g, cells, base, used, line, k, offset) && offset > HEADER_SIZE
    ensures k > 0 && offset >= HEADER_SIZE + g.recordSize && base + offset <= |cells|
    ensures var rec := cells[base + offset - g.recordSize..base + offset];
      if RecordMatches(g, rec, line)
      then RecordIntact(g, rec) && rec[..g.cfg.lineSize] == LineOf(g.cfg.lineSize, g.lineCount, Stored(g, cells), line)
      else WalkAt(g, cells, base, used, line, k - 1, offset - g.recordSize)
  {
    hide Multiple, ProbeHeader, View, RecordMatches, RecordIntact, Active, Stored, Views, Slot, Times, Readable;
    OffStep(g, k);
    ActiveShape(g, cells, base, seqNo, used);
    ActiveLine(g, cells, base, seqNo, used, line);
    var bk := BankAt(g, cells, base);
    var vs := Views(g, bk);
    SlotCells(g, cells, base, k - 1);
    ViewsAt(g, bk, k - 1);
    assert Readable(vs[k - 1]);
    assert vs[..k][..k - 1] == vs[..k - 1];
    MatchingRecord(g, Slot(g, bk, k - 1), line);
  }

  /** Reaching the header without a match: the line was never written. */
  lemma WalkEnd(g: Geo, cells: seq<Byte>, base: nat, seqNo: U32, used: nat, line: nat, k: nat, offset: nat)
    requires Active(g, cells, base, seqNo, used) && line < g.lineCount
    requires WalkAt(g, cells, base, used, line, k, offset) && offset <= HEADER_SIZE
    ensures LineOf(g.cfg.lineSize, g.lineCount, Stored(g, cells), line) == Blank(g.cfg.lineSize)
  {
    hide Multiple, ProbeHeader, View;
    OffStep(g, k);
    ActiveLine(g, cells, base, seqNo, used, line);
  }

  // ----- Scanning a bank forwards

  /** The scan stands at byte offset `next`, in front of slot `k`, and has accepted everything before. */
  ghost predicate ScanAt(g: Geo, cells: seq<Byte>, base: nat, k: nat, next: nat) {
    && IsFlash(g, cells) && IsBase(g, base)
    && k <= g.maxRecords
    && next == Off(g, k)
    && ScanSlots(Views(g, BankAt(g, cells, base)), 0) == ScanSlots(Views(g, BankAt(g, cells, base)), k)
  }

  lemma ScanStart(g: Geo, cells: seq<Byte>, base: nat)
    requires IsFlash(g, cells) && IsBase(g, base)
    ensures base + HEADER_SIZE <= |cells|
    ensures cells[base..base + HEADER_SIZE] == Header(g, BankAt(g, cells, base))
    ensures ScanAt(g, cells, base, 0, HEADER_SIZE)
  {
    ReadInBank(g, cells, base, 0, HEADER_SIZE);
  }

  lemma ScanOffset(g: Geo, cells: seq<Byte>, base: nat, k: nat, next: nat)
    requires ScanAt(g, cells, base, k, next)
    ensures next == Off(g, k)
  {
  }

  lemma ScanStep(g: Geo, cells: seq<Byte>, base: nat, k: nat, next: nat)
    requires ScanAt(g, cells, base, k, next)
    ensures k <= g.maxRecords
    ensures next + g.recordSize <= g.bankSize <==> k < g.maxRecords
    ensures var slots := ScanSlots(Views(g, BankAt(g, cells, base)), 0);
      if k == g.maxRecords then slots == Ok(k)
      else
        && base + next + g.recordSize <= |cells|
        && match View(g, cells[base + next..base + next + g.recordSize])
           case Erased => slots == Ok(k)
           case Bad(diag) => slots == Err(diag)
           case _ => ScanAt(g, cells, base, k + 1, next + g.recordSize)
  {
    hide Multiple, ProbeHeader, View;
    OffFits(g, k);
    OffStep(g, k + 1);
    if k < g.maxRecords {
      SlotCells(g, cells, base, k);
      ViewsAt(g, BankAt(g, cells, base), k);
    }
  }
}
