/** The two flash banks: slot offsets, scanning, boot selection, and what each kind of change does. */
module Banks {
  import opened Arith
  import opened Bytes
  import opened FlashFormat
  import opened Lines
  import opened Log
  import opened Wrappers

  // ----- One bank

  ghost predicate IsBank(g: Geo, bk: seq<Byte>) {
    g.Valid() && |bk| == g.bankSize
  }

  /** Byte offset of record slot `k` inside its bank. */
  function Off(g: Geo, k: nat): nat {
    HEADER_SIZE + Times(k, g.recordSize)
  }

  lemma OffMono(g: Geo, j: nat, k: nat)
    requires j < k
    ensures Off(g, j) + g.recordSize <= Off(g, k)
  {
    TimesMono(j, k, g.recordSize);
  }

  /** Slot offsets stay inside the bank exactly for the slots counted by `maxRecords`. */
  lemma OffFits(g: Geo, k: nat)
    requires g.Valid() && k <= g.maxRecords
    ensures Off(g, k) <= g.bankSize
    ensures k < g.maxRecords <==> Off(g, k) + g.recordSize <= g.bankSize
  {
    if k < g.maxRecords {
      OffMono(g, k, g.maxRecords);
    }
  }

  /** The capacity test on byte offsets counts slots. */
  lemma {:induction false} RoomFor(g: Geo, used: nat, needed: nat)
    requires g.Valid()
    ensures Off(g, used) + Times(needed, g.recordSize) <= g.bankSize <==> used + needed <= g.maxRecords
  {
    TimesAdd(used, needed, g.recordSize);
    if used + needed < g.maxRecords {
      OffMono(g, used + needed, g.maxRecords);
    } else if g.maxRecords < used + needed {
      OffMono(g, g.maxRecords, used + needed);
    }
  }

  lemma OffStep(g: Geo, k: nat)
    ensures k == 0 ==> Off(g, k) == HEADER_SIZE
    ensures k > 0 ==> Off(g, k) == Off(g, k - 1) + g.recordSize
  {
  }

  lemma OffAligned(g: Geo, k: nat)
    requires g.Valid()
    ensures Multiple(Off(g, k), g.programSize)
    ensures Multiple(g.recordSize, g.programSize)
  {
    MultipleAdd(g.commitOffset, g.programSize, g.programSize);
    TimesMultiple(k, g.recordSize, g.programSize);
    MultipleAdd(HEADER_SIZE, Times(k, g.recordSize), g.programSize);
  }

  function Slot(g: Geo, bk: seq<Byte>, k: nat): (r: seq<Byte>)
    requires IsBank(g, bk) && k < g.maxRecords
    ensures |r| == g.recordSize
  {
    OffFits(g, k);
    bk[Off(g, k)..Off(g, k) + g.recordSize]
  }

  function ViewAt(g: Geo, bk: seq<Byte>, k: nat): (v: SlotView)
    requires IsBank(g, bk) && k < g.maxRecords
    ensures v.Committed? ==> |v.data| == g.cfg.lineSize && v.line < g.lineCount
  {
    View(g, Slot(g, bk, k))
  }

  /** The first `n` record slots of a bank, classified. */
  function ViewsUpTo(g: Geo, bk: seq<Byte>, n: nat): (vs: seq<SlotView>)
    requires IsBank(g, bk) && n <= g.maxRecords
    ensures |vs| == n
    ensures Sized(vs, g.cfg.lineSize, g.lineCount)
  {
    if n == 0 then [] else ViewsUpTo(g, bk, n - 1) + [ViewAt(g, bk, n - 1)]
  }

  lemma {:induction false} ViewsUpToAt(g: Geo, bk: seq<Byte>, n: nat, k: nat)
    requires IsBank(g, bk) && k < n <= g.maxRecords
    ensures ViewsUpTo(g, bk, n)[k] == ViewAt(g, bk, k)
  {
    if k < n - 1 {
      ViewsUpToAt(g, bk, n - 1, k);
    }
  }

  /** All record slots of a bank, classified. */
  function Views(g: Geo, bk: seq<Byte>): (vs: seq<SlotView>)
    requires IsBank(g, bk)
    ensures |vs| == g.maxRecords
    ensures Sized(vs, g.cfg.lineSize, g.lineCount)
  {
    ViewsUpTo(g, bk, g.maxRecords)
  }

  lemma ViewsAt(g: Geo, bk: seq<Byte>, k: nat)
    requires IsBank(g, bk) && k < g.maxRecords
    ensures Views(g, bk)[k] == ViewAt(g, bk, k)
    ensures Views(g, bk)[k] == Erased <==> IsErased(Slot(g, bk, k))
  {
    ViewsUpToAt(g, bk, g.maxRecords, k);
  }

  function Header(g: Geo, bk: seq<Byte>): (r: seq<Byte>)
    requires IsBank(g, bk)
    ensures |r| == HEADER_SIZE
  {
    bk[..HEADER_SIZE]
  }

  ghost predicate HeaderOk(g: Geo, bk: seq<Byte>)
    requires IsBank(g, bk)
  {
    ProbeHeader(g, Header(g, bk)) == None
  }

  /** An accepted header in `bk'` was accepted in `bk` already, with the same sequence number. */
  ghost predicate HeaderKept(g: Geo, bk: seq<Byte>, bk': seq<Byte>)
    requires IsBank(g, bk) && IsBank(g, bk')
  {
    HeaderOk(g, bk') ==> HeaderOk(g, bk) && HeaderSeq(Header(g, bk')) == HeaderSeq(Header(g, bk))
  }

  /** Bank scan: header probe first, then the slots. Yields the sequence number and the used slots. */
  function Scan(g: Geo, bk: seq<Byte>): (r: Result<(U32, nat), Diag>)
    requires IsBank(g, bk)
    ensures r.Ok? ==> r.value.1 <= g.maxRecords
  {
    var probe := ProbeHeader(g, Header(g, bk));
    if probe != None then Err(probe)
    else match ScanSlots(Views(g, bk), 0)
      case Ok(used) => Ok((HeaderSeq(Header(g, bk)), used))
      case Err(diag) => Err(diag)
  }

  /** The image stored by the first `used` slots. */
  function BankImage(g: Geo, bk: seq<Byte>, used: nat): (r: seq<Byte>)
    requires IsBank(g, bk) && used <= g.maxRecords
    ensures |r| == g.cfg.logicalSize
  {
    PrefixImage(g.cfg.lineSize, g.lineCount, Views(g, bk), used)
  }

  ghost predicate SameOutsideSlot(g: Geo, bk: seq<Byte>, bk': seq<Byte>, n: nat)
    requires IsBank(g, bk) && n < g.maxRecords
  {
    OffFits(g, n);
    && |bk'| == |bk|
    && bk'[..Off(g, n)] == bk[..Off(g, n)]
    && bk'[Off(g, n) + g.recordSize..] == bk[Off(g, n) + g.recordSize..]
  }

  lemma SlotFrame(g: Geo, bk: seq<Byte>, bk': seq<Byte>, n: nat, k: nat)
    requires IsBank(g, bk) && n < g.maxRecords && k < g.maxRecords && k != n
    requires SameOutsideSlot(g, bk, bk', n)
    ensures Slot(g, bk', k) == Slot(g, bk, k)
  {
    OffFits(g, n);
    OffFits(g, k);
    var lo, hi := Off(g, n), Off(g, n) + g.recordSize;
    if k < n {
      OffMono(g, k, n);
      PrefixSlice(bk', bk, lo, Off(g, k), Off(g, k) + g.recordSize);
    } else {
      OffMono(g, n, k);
      SuffixSlice(bk', bk, hi, Off(g, k), Off(g, k) + g.recordSize);
    }
  }

  /** Changing the bytes of slot `n` changes its view alone, and never the header. */
  lemma ViewsFrame(g: Geo, bk: seq<Byte>, bk': seq<Byte>, n: nat)
    requires IsBank(g, bk) && n < g.maxRecords && SameOutsideSlot(g, bk, bk', n)
    ensures Views(g, bk') == Views(g, bk)[n := ViewAt(g, bk', n)]
    ensures Header(g, bk') == Header(g, bk)
  {
    forall k | 0 <= k < g.maxRecords
      ensures Views(g, bk')[k] == Views(g, bk)[n := ViewAt(g, bk', n)][k]
    {
      ViewsAt(g, bk, k);
      ViewsAt(g, bk', k);
      if k != n {
        SlotFrame(g, bk, bk', n, k);
      }
    }
    OffFits(g, n);
    PrefixSlice(bk', bk, Off(g, n), 0, HEADER_SIZE);
  }

  /** An append of `(line, data)` was attempted at slot `n` of a bank. */
  ghost predicate BankAppended(g: Geo, bk: seq<Byte>, bk': seq<Byte>, n: nat, line: nat, data: seq<Byte>)
    requires IsBank(g, bk)
  {
    && |bk'| == |bk|
    && Header(g, bk') == Header(g, bk)
    && Appended(Views(g, bk), Views(g, bk'), n, line, data)
  }

  lemma SlotAppended(g: Geo, bk: seq<Byte>, bk': seq<Byte>, n: nat, line: nat, data: seq<Byte>)
    requires IsBank(g, bk) && n < g.maxRecords && SameOutsideSlot(g, bk, bk', n)
    requires var v := ViewAt(g, bk', n); v in {Erased, Torn} || v == Committed(line, data)
    ensures BankAppended(g, bk, bk', n, line, data)
    ensures Views(g, bk')[n] == ViewAt(g, bk', n)
  {
    ViewsFrame(g, bk, bk', n);
  }

  /** A bank that is erased behind its header holds an empty log and a blank image. */
  lemma EmptyBank(g: Geo, bk: seq<Byte>)
    requires IsBank(g, bk) && IsErased(bk[HEADER_SIZE..])
    ensures Dense(Views(g, bk), 0)
    ensures BankImage(g, bk, 0) == Blank(g.cfg.logicalSize)
  {
    forall k | 0 <= k < g.maxRecords
      ensures IsErased(Slot(g, bk, k))
    {
      OffFits(g, k);
      forall j | 0 <= j < g.recordSize
        ensures Slot(g, bk, k)[j] == ERASED
      {
        assert bk[HEADER_SIZE..][Off(g, k) + j - HEADER_SIZE] == ERASED;
      }
    }
    forall k | 0 <= k < g.maxRecords
      ensures Views(g, bk)[k] == Erased
    {
      ViewsAt(g, bk, k);
    }
    assert Views(g, bk)[..0] == [];
    EmptyImage(g.cfg.lineSize, g.lineCount);
  }

  // ----- Torn records

  /** A slot is erased or torn, hence skipped, exactly when its commit unit still has an erased byte. */
  lemma OpenSlotView(g: Geo, rec: seq<Byte>)
    requires g.Valid() && |rec| == g.recordSize
    ensures View(g, rec) in {Erased, Torn} <==> HasErasedByte(rec[g.commitOffset..])
  {
    var commit := rec[g.commitOffset..];
    if HasErasedByte(commit) {
      var i :| 0 <= i < |commit| && commit[i] == ERASED;
      assert CommitUnit(g)[i] != ERASED;
    }
    if IsErased(rec) {
      assert commit[0] == ERASED;
    }
  }

  /** A commit unit programmed on top of complete data either commits the record or leaves it torn. */
  lemma CommitSlotView(g: Geo, rec: seq<Byte>, line: U32, data: seq<Byte>)
    requires g.Valid() && |rec| == g.recordSize && line < g.lineCount && |data| == g.cfg.lineSize
    requires rec[..g.commitOffset] == RecordData(g, line, data)
    requires forall i :: 0 <= i < g.programSize ==> rec[g.commitOffset..][i] in {ERASED, CommitUnit(g)[i]}
    ensures View(g, rec) in {Erased, Torn} || View(g, rec) == Committed(line, data)
    ensures rec[g.commitOffset..] == CommitUnit(g) ==> View(g, rec) == Committed(line, data)
  {
    var commit := rec[g.commitOffset..];
    if commit == CommitUnit(g) {
      RecordRoundTrip(g, line, data);
      assert rec == RecordData(g, line, data) + CommitUnit(g);
    } else {
      var i :| 0 <= i < g.programSize && commit[i] != CommitUnit(g)[i];
      assert commit[i] == ERASED;
    }
  }

  // ----- Both banks

  ghost predicate IsBase(g: Geo, base: nat) {
    base == 0 || base == g.bankSize
  }

  function OtherBase(g: Geo, base: nat): (r: nat)
    ensures base == 0 ==> r == g.bankSize
    ensures base == g.bankSize ==> r == 0
  {
    if base == 0 then g.bankSize else 0
  }

  ghost predicate IsFlash(g: Geo, cells: seq<Byte>) {
    g.Valid() && 2 * g.bankSize <= |cells|
  }

  function BankAt(g: Geo, cells: seq<Byte>, base: nat): (bk: seq<Byte>)
    requires IsFlash(g, cells) && IsBase(g, base)
    ensures IsBank(g, bk)
  {
    cells[base..base + g.bankSize]
  }

  /** An append of `(line, data)` at slot `n` of bank `base` ran to its end, or lost power when `!ok`. */
  ghost predicate AppendResult(g: Geo, ok: bool, cells: seq<Byte>, cells': seq<Byte>, base: nat, n: nat, line: nat,
                               data: seq<Byte>) {
    && IsFlash(g, cells) && IsFlash(g, cells') && IsBase(g, base) && n < g.maxRecords
    && BankAt(g, cells', OtherBase(g, base)) == BankAt(g, cells, OtherBase(g, base))
    && BankAppended(g, BankAt(g, cells, base), BankAt(g, cells', base), n, line, data)
    && (ok ==> Views(g, BankAt(g, cells', base))[n] == Committed(line, data))
  }

  /** Which bank init adopts; with no readable bank it formats bank 0. */
  datatype Choice = Format | Use(base: nat, seqNo: U32, used: nat)

  function Boot(g: Geo, cells: seq<Byte>): (c: Choice)
    requires IsFlash(g, cells)
    ensures c.Use? ==> IsBase(g, c.base) && c.used <= g.maxRecords
  {
    var s0, s1 := Scan(g, BankAt(g, cells, 0)), Scan(g, BankAt(g, cells, g.bankSize));
    if s0.Err? && s1.Err? then Format
    else if s0.Ok? && (s1.Err? || s0.value.0 >= s1.value.0) then Use(0, s0.value.0, s0.value.1)
    else Use(g.bankSize, s1.value.0, s1.value.1)
  }

  /** The logical bytes a power-up would recover from these cells. */
  function Stored(g: Geo, cells: seq<Byte>): (r: seq<Byte>)
    requires IsFlash(g, cells)
    ensures |r| == g.cfg.logicalSize
  {
    match Boot(g, cells)
    case Format => Blank(g.cfg.logicalSize)
    case Use(base, _, used) => BankImage(g, BankAt(g, cells, base), used)
  }

  /** Bank `base` with sequence number `seqNo` wins over the other bank, whatever the other log holds. */
  ghost predicate Outranks(g: Geo, cells: seq<Byte>, base: nat, seqNo: U32)
    requires IsFlash(g, cells) && IsBase(g, base)
  {
    var other := BankAt(g, cells, OtherBase(g, base));
    HeaderOk(g, other) ==>
      if base == 0 then HeaderSeq(Header(g, other)) <= seqNo else HeaderSeq(Header(g, other)) < seqNo
  }

  /** `base` is the active bank: accepted header, dense log of `used` slots, and it outranks its rival. */
  ghost predicate Active(g: Geo, cells: seq<Byte>, base: nat, seqNo: U32, used: nat) {
    && IsFlash(g, cells)
    && IsBase(g, base)
    && HeaderOk(g, BankAt(g, cells, base))
    && HeaderSeq(Header(g, BankAt(g, cells, base))) == seqNo
    && Dense(Views(g, BankAt(g, cells, base)), used)
    && Outranks(g, cells, base, seqNo)
  }

  /** No bank carries an accepted header, as on a new device. */
  ghost predicate Unformatted(g: Geo, cells: seq<Byte>) {
    && IsFlash(g, cells)
    && !HeaderOk(g, BankAt(g, cells, 0))
    && !HeaderOk(g, BankAt(g, cells, g.bankSize))
  }

  /** Flash contents the backend can meet at power-up. */
  ghost predicate Sound(g: Geo, cells: seq<Byte>) {
    Unformatted(g, cells) || exists base, seqNo, used :: Active(g, cells, base, seqNo, used)
  }

  /** The active bank is exactly what a power-up selects, append position included. */
  lemma ActiveBoots(g: Geo, cells: seq<Byte>, base: nat, seqNo: U32, used: nat)
    requires Active(g, cells, base, seqNo, used)
    ensures Boot(g, cells) == Use(base, seqNo, used)
    ensures Stored(g, cells) == BankImage(g, BankAt(g, cells, base), used)
  {
    DenseScans(Views(g, BankAt(g, cells, base)), used);
    assert Scan(g, BankAt(g, cells, base)) == Ok((seqNo, used));
  }

  /** At most one bank is active, at one append position. */
  lemma ActiveUnique(g: Geo, cells: seq<Byte>, base: nat, seqNo: U32, used: nat, base': nat, seqNo': U32, used': nat)
    requires Active(g, cells, base, seqNo, used) && Active(g, cells, base', seqNo', used')
    ensures base == base' && seqNo == seqNo' && used == used'
  {
    hide Active, Boot;
    ActiveBoots(g, cells, base, seqNo, used);
    ActiveBoots(g, cells, base', seqNo', used');
  }

  lemma ActiveSound(g: Geo, cells: seq<Byte>, base: nat, seqNo: U32, used: nat)
    requires Active(g, cells, base, seqNo, used)
    ensures Sound(g, cells)
  {
  }

  lemma ActiveShape(g: Geo, cells: seq<Byte>, base: nat, seqNo: U32, used: nat)
    requires Active(g, cells, base, seqNo, used)
    ensures IsFlash(g, cells) && IsBase(g, base) && used <= g.maxRecords
    ensures forall k :: 0 <= k < used ==> Readable(Views(g, BankAt(g, cells, base))[k])
    ensures used < g.maxRecords ==> Views(g, BankAt(g, cells, base))[used] == Erased
  {
  }

  /** The newest committed record of a line is what the stored image holds for it. */
  lemma {:induction false} ActiveLine(g: Geo, cells: seq<Byte>, base: nat, seqNo: U32, used: nat, line: nat)
    requires Active(g, cells, base, seqNo, used) && line < g.lineCount
    ensures LineOf(g.cfg.lineSize, g.lineCount, Stored(g, cells), line) ==
      Lookup(g.cfg.lineSize, Views(g, BankAt(g, cells, base))[..used], line)
  {
    hide Multiple, View, ProbeHeader;
    var vs := Views(g, BankAt(g, cells, base));
    ActiveBoots(g, cells, base, seqNo, used);
    SizedPrefix(g.cfg.lineSize, g.lineCount, vs, used);
    ImageLine(g.cfg.lineSize, g.lineCount, vs[..used], line);
  }

  lemma UnformattedBoots(g: Geo, cells: seq<Byte>)
    requires Unformatted(g, cells)
    ensures Boot(g, cells) == Format
    ensures Stored(g, cells) == Blank(g.cfg.logicalSize)
  {
  }

  /** Touching only the other bank, without giving it an accepted header it did not have, changes nothing. */
  lemma OtherBankTouched(g: Geo, cells: seq<Byte>, cells': seq<Byte>, base: nat, seqNo: U32, used: nat)
    requires Active(g, cells, base, seqNo, used) && IsFlash(g, cells')
    requires BankAt(g, cells', base) == BankAt(g, cells, base)
    requires HeaderKept(g, BankAt(g, cells, OtherBase(g, base)), BankAt(g, cells', OtherBase(g, base)))
    ensures Active(g, cells', base, seqNo, used)
    ensures Stored(g, cells') == Stored(g, cells)
  {
    ActiveBoots(g, cells, base, seqNo, used);
    ActiveBoots(g, cells', base, seqNo, used);
  }

  /** An append attempt on the active bank keeps it active; the stored image changes by that line or not at all. */
  lemma ActiveAppend(g: Geo, cells: seq<Byte>, cells': seq<Byte>, base: nat, seqNo: U32, used: nat, line: nat,
                     data: seq<Byte>)
    requires Active(g, cells, base, seqNo, used) && IsFlash(g, cells') && used < g.maxRecords
    requires line < g.lineCount && |data| == g.cfg.lineSize
    requires AppendResult(g, false, cells, cells', base, used, line, data)
    ensures Active(g, cells', base, seqNo, UsedAfter(Views(g, BankAt(g, cells', base)), used))
    ensures Stored(g, cells') ==
      if Views(g, BankAt(g, cells', base))[used].Committed?
      then SetLine(g.cfg.lineSize, g.lineCount, Stored(g, cells), line, data)
      else Stored(g, cells)
  {
    var vs, vs' := Views(g, BankAt(g, cells, base)), Views(g, BankAt(g, cells', base));
    AppendEffect(g.cfg.lineSize, g.lineCount, vs, vs', used, line, data);
    ActiveBoots(g, cells, base, seqNo, used);
    ActiveBoots(g, cells', base, seqNo, UsedAfter(vs', used));
  }

  /** Activating the next sequence number in the other bank makes that bank the active one. */
  lemma Switchover(g: Geo, cells: seq<Byte>, cells': seq<Byte>, base: nat, seqNo: U32, used: nat, target: seq<Byte>,
                   used': nat)
    requires Active(g, cells, base, seqNo, used) && IsFlash(g, cells') && seqNo < 0xFFFF_FFFF
    requires BankAt(g, cells', base) == BankAt(g, cells, base)
    requires target == BankAt(g, cells', OtherBase(g, base))
    requires Header(g, target) == EncodeHeader(g, seqNo + 1, HEADER_ACTIVE)
    requires Dense(Views(g, target), used')
    ensures Active(g, cells', OtherBase(g, base), seqNo + 1, used')
    ensures Stored(g, cells') == BankImage(g, target, used')
  {
    HeaderRoundTrip(g, seqNo + 1, HEADER_ACTIVE);
    ActiveBoots(g, cells', OtherBase(g, base), seqNo + 1, used');
  }

  /** After an activation with the wrapping successor of the sequence number, the new bank is selected exactly when
      nothing wrapped; otherwise the old image is back. */
  lemma SwitchoverExactly(g: Geo, cells: seq<Byte>, cells': seq<Byte>, base: nat, seqNo: U32, used: nat,
                          target: seq<Byte>, used': nat)
    requires Active(g, cells, base, seqNo, used) && IsFlash(g, cells')
    requires BankAt(g, cells', base) == BankAt(g, cells, base)
    requires target == BankAt(g, cells', OtherBase(g, base))
    requires Header(g, target) == EncodeHeader(g, (seqNo + 1) % 0x1_0000_0000, HEADER_ACTIVE)
    requires Dense(Views(g, target), used')
    ensures Boot(g, cells').Use?
    ensures Boot(g, cells').base == OtherBase(g, base) <==> seqNo < 0xFFFF_FFFF
    ensures Stored(g, cells') == if seqNo < 0xFFFF_FFFF then BankImage(g, target, used') else Stored(g, cells)
  {
    hide Multiple, View, ProbeHeader, EncodeHeader, Views, Boot, Stored, BankImage;
    if seqNo < 0xFFFF_FFFF {
      Switchover(g, cells, cells', base, seqNo, used, target, used');
      ActiveBoots(g, cells', OtherBase(g, base), seqNo + 1, used');
    } else {
      HeaderRoundTrip(g, 0, HEADER_ACTIVE);
      ActiveBoots(g, cells, base, seqNo, used);
      ActiveBoots(g, cells', base, seqNo, used);
    }
  }

  lemma RoomForOne(g: Geo, used: nat)
    requires g.Valid()
    ensures Off(g, used) + g.recordSize <= g.bankSize <==> used < g.maxRecords
  {
    RoomFor(g, used, 1);
    assert Times(1, g.recordSize) == Times(0, g.recordSize) + g.recordSize;
  }

  /** One flushed line: stored when the append completed, stored or not when power was lost. */
  lemma FlushOutcome(g: Geo, ok: bool, cells: seq<Byte>, cells': seq<Byte>, base: nat, seqNo: U32, used: nat, line: nat,
                     data: seq<Byte>)
    requires Active(g, cells, base, seqNo, used) && used < g.maxRecords
    requires line < g.lineCount && |data| == g.cfg.lineSize
    requires AppendResult(g, ok, cells, cells', base, used, line, data)
    ensures IsFlash(g, cells') && Sound(g, cells')
    ensures ok ==>
      && Active(g, cells', base, seqNo, used + 1)
      && Stored(g, cells') == SetLine(g.cfg.lineSize, g.lineCount, Stored(g, cells), line, data)
    ensures Stored(g, cells') in {Stored(g, cells), SetLine(g.cfg.lineSize, g.lineCount, Stored(g, cells), line, data)}
  {
    hide Multiple, View, ProbeHeader, Views, Active;
    ActiveShape(g, cells, base, seqNo, used);
    ActiveAppend(g, cells, cells', base, seqNo, used, line, data);
  }
}
