/** Compaction: rebuilding the live lines in the inactive bank, line by line. */
module Rebuild {
  import opened Arith
  import opened Banks
  import opened Bytes
  import opened FlashFormat
  import opened FlashSteps
  import opened Lines
  import opened Log

  /** `bk` carries the PREPARE header `seqNo` and `m` records that store the lines of `live` below `upto`, one for
      each line that is not erased. */
  ghost predicate Rebuilt(g: Geo, bk: seq<Byte>, seqNo: U32, m: nat, live: seq<Byte>, upto: nat) {
    && IsBank(g, bk)
    && IsImage(g.cfg.lineSize, g.lineCount, live)
    && Header(g, bk) == EncodeHeader(g, seqNo, HEADER_PREPARE)
    && upto <= g.lineCount && m == FilledLines(g.cfg.lineSize, g.lineCount, live, upto)
    && Dense(Views(g, bk), m)
    && forall i :: 0 <= i < g.lineCount ==> RebuiltLine(g, bk, m, live, upto, i)
  }

  ghost predicate RebuiltLine(g: Geo, bk: seq<Byte>, m: nat, live: seq<Byte>, upto: nat, i: nat)
    requires IsBank(g, bk) && IsImage(g.cfg.lineSize, g.lineCount, live) && m <= g.maxRecords && i < g.lineCount
  {
    LineOf(g.cfg.lineSize, g.lineCount, BankImage(g, bk, m), i) ==
      if i < upto then LineOf(g.cfg.lineSize, g.lineCount, live, i) else Blank(g.cfg.lineSize)
  }

  lemma RebuildStart(g: Geo, bk: seq<Byte>, seqNo: U32, live: seq<Byte>)
    requires IsBank(g, bk) && IsImage(g.cfg.lineSize, g.lineCount, live)
    requires Header(g, bk) == EncodeHeader(g, seqNo, HEADER_PREPARE)
    requires IsErased(bk[HEADER_SIZE..])
    ensures Rebuilt(g, bk, seqNo, 0, live, 0)
  {
    EmptyBank(g, bk);
    forall i | 0 <= i < g.lineCount
      ensures RebuiltLine(g, bk, 0, live, 0, i)
    {
      LineFits(g.cfg.lineSize, g.lineCount, i);
    }
  }

  /** An erased line needs no record: leaving it out stores the same bytes. */
  lemma RebuildSkip(g: Geo, bk: seq<Byte>, seqNo: U32, m: nat, live: seq<Byte>, upto: nat)
    requires Rebuilt(g, bk, seqNo, m, live, upto) && upto < g.lineCount
    requires IsErased(LineOf(g.cfg.lineSize, g.lineCount, live, upto))
    ensures Rebuilt(g, bk, seqNo, m, live, upto + 1)
  {
    hide Multiple, View, EncodeHeader;
    var next := upto + 1;
    forall i | 0 <= i < g.lineCount
      ensures RebuiltLine(g, bk, m, live, next, i)
    {
      assert RebuiltLine(g, bk, m, live, upto, i);
      assert i == upto ==> LineOf(g.cfg.lineSize, g.lineCount, live, i) == Blank(g.cfg.lineSize);
    }
  }

  lemma RebuildAppend(g: Geo, bk: seq<Byte>, bk': seq<Byte>, seqNo: U32, m: nat, live: seq<Byte>, upto: nat)
    requires Rebuilt(g, bk, seqNo, m, live, upto) && upto < g.lineCount
    requires BankAppended(g, bk, bk', m, upto, LineOf(g.cfg.lineSize, g.lineCount, live, upto))
    requires !IsErased(LineOf(g.cfg.lineSize, g.lineCount, live, upto))
    requires Views(g, bk')[m].Committed?
    ensures Rebuilt(g, bk', seqNo, m + 1, live, upto + 1)
  {
    hide Multiple, View, EncodeHeader, Views, SetLine, LineOf, Image;
    var ls, count, data := g.cfg.lineSize, g.lineCount, LineOf(g.cfg.lineSize, g.lineCount, live, upto);
    AppendEffect(ls, count, Views(g, bk), Views(g, bk'), m, upto, data);
    var m', next := m + 1, upto + 1;
    assert Dense(Views(g, bk'), m');
    assert BankImage(g, bk', m') == SetLine(ls, count, BankImage(g, bk, m), upto, data);
    forall i | 0 <= i < count
      ensures RebuiltLine(g, bk', m', live, next, i)
    {
      RebuiltNext(g, bk, bk', m, live, upto, i);
    }
  }

  lemma RebuiltNext(g: Geo, bk: seq<Byte>, bk': seq<Byte>, m: nat, live: seq<Byte>, upto: nat, i: nat)
    requires IsBank(g, bk) && IsBank(g, bk') && IsImage(g.cfg.lineSize, g.lineCount, live)
    requires m < g.maxRecords && upto < g.lineCount && i < g.lineCount
    requires RebuiltLine(g, bk, m, live, upto, i)
    requires BankImage(g, bk', m + 1)
      == SetLine(g.cfg.lineSize, g.lineCount, BankImage(g, bk, m), upto,
        LineOf(g.cfg.lineSize, g.lineCount, live, upto))
    ensures RebuiltLine(g, bk', m + 1, live, upto + 1, i)
  {
    hide Multiple, View, EncodeHeader, Views;
    SetLineAt(g.cfg.lineSize, g.lineCount, BankImage(g, bk, m), upto, LineOf(g.cfg.lineSize, g.lineCount, live, upto),
      i);
  }

  /** Once every line is covered the bank stores exactly the live image. */
  lemma RebuildDone(g: Geo, bk: seq<Byte>, seqNo: U32, m: nat, live: seq<Byte>)
    requires Rebuilt(g, bk, seqNo, m, live, g.lineCount)
    ensures BankImage(g, bk, m) == live
  {
    hide Multiple, View, EncodeHeader;
    forall i | 0 <= i < g.lineCount
      ensures LineOf(g.cfg.lineSize, g.lineCount, BankImage(g, bk, m), i) ==
        LineOf(g.cfg.lineSize, g.lineCount, live, i)
    {
      assert RebuiltLine(g, bk, m, live, g.lineCount, i);
    }
    SameLines(g.cfg.lineSize, g.lineCount, BankImage(g, bk, m), live);
  }

  /** A bank under construction is never selected at boot. */
  lemma PrepareRejected(g: Geo, bk: seq<Byte>, seqNo: U32)
    requires IsBank(g, bk) && Header(g, bk) == EncodeHeader(g, seqNo, HEADER_PREPARE)
    ensures !HeaderOk(g, bk)
  {
    HeaderRoundTrip(g, seqNo, HEADER_PREPARE);
  }

  /** Changing the header alone keeps every record slot. */
  lemma SameSlots(g: Geo, bk: seq<Byte>, bk': seq<Byte>)
    requires IsBank(g, bk) && IsBank(g, bk') && bk'[HEADER_SIZE..] == bk[HEADER_SIZE..]
    ensures Views(g, bk') == Views(g, bk)
  {
    hide Multiple, View, EncodeHeader;
    forall k | 0 <= k < g.maxRecords
      ensures Views(g, bk')[k] == Views(g, bk)[k]
    {
      ViewsAt(g, bk, k);
      ViewsAt(g, bk', k);
      OffFits(g, k);
      SuffixSlice(bk', bk, HEADER_SIZE, Off(g, k), Off(g, k) + g.recordSize);
    }
  }

  /** Activation of a fully rebuilt bank, complete or interrupted: the boot image is the old one or the live one,
      and both are recoverable states. */
  lemma ActivationOutcome(g: Geo, cells: seq<Byte>, cells': seq<Byte>, base: nat, seqNo: U32, used: nat, m: nat,
                          live: seq<Byte>)
    requires Active(g, cells, base, seqNo, used) && seqNo < 0xFFFF_FFFF && IsFlash(g, cells')
    requires var o := OtherBase(g, base);
      && BankAt(g, cells', base) == BankAt(g, cells, base)
      && Rebuilt(g, BankAt(g, cells, o), seqNo + 1, m, live, g.lineCount)
      && BankAt(g, cells', o)[HEADER_SIZE..] == BankAt(g, cells, o)[HEADER_SIZE..]
    ensures var h := Header(g, BankAt(g, cells', OtherBase(g, base)));
      && (h == EncodeHeader(g, seqNo + 1, HEADER_PREPARE) ==>
            Active(g, cells', base, seqNo, used) && Stored(g, cells') == Stored(g, cells))
      && (h == EncodeHeader(g, seqNo + 1, HEADER_ACTIVE) ==>
            Active(g, cells', OtherBase(g, base), seqNo + 1, m) && Stored(g, cells') == live)
  {
    hide Multiple, View, EncodeHeader;
    var o := OtherBase(g, base);
    var bk, bk' := BankAt(g, cells, o), BankAt(g, cells', o);
    SameSlots(g, bk, bk');
    RebuildDone(g, bk, seqNo + 1, m, live);
    if Header(g, bk') == EncodeHeader(g, seqNo + 1, HEADER_PREPARE) {
      PrepareRejected(g, bk', seqNo + 1);
      OtherBankTouched(g, cells, cells', base, seqNo, used);
    }
    if Header(g, bk') == EncodeHeader(g, seqNo + 1, HEADER_ACTIVE) {
      Switchover(g, cells, cells', base, seqNo, used, bk', m);
    }
  }

  // ----- The whole compaction as seen from the flash

  /** Compaction in progress: the active bank still answers for the old image while the other one is being rebuilt. */
  ghost predicate Compacting(g: Geo, cells0: seq<Byte>, cells: seq<Byte>, base: nat, seqNo: U32, used: nat,
                             m: nat, live: seq<Byte>, upto: nat) {
    && seqNo < 0xFFFF_FFFF
    && IsFlash(g, cells0)
    && Active(g, cells, base, seqNo, used)
    && BankAt(g, cells, base) == BankAt(g, cells0, base)
    && Stored(g, cells) == Stored(g, cells0)
    && Rebuilt(g, BankAt(g, cells, OtherBase(g, base)), seqNo + 1, m, live, upto)
  }

  lemma PrepareKeepsActive(g: Geo, ok: bool, cells0: seq<Byte>, cells: seq<Byte>, base: nat, seqNo: U32, used: nat,
                           next: U32)
    requires Active(g, cells0, base, seqNo, used)
    requires PrepareResult(g, ok, true, cells0, cells, OtherBase(g, base), next)
    ensures Active(g, cells, base, seqNo, used) && Stored(g, cells) == Stored(g, cells0)
    ensures Sound(g, cells)
  {
    hide Multiple, View, ProbeHeader, EncodeHeader, Views;
    OtherBankTouched(g, cells0, cells, base, seqNo, used);
  }

  lemma PrepareElsewhere(g: Geo, ok: bool, safe: bool, cells0: seq<Byte>, cells: seq<Byte>, base: nat, next: U32)
    requires IsFlash(g, cells0) && IsBase(g, base)
    requires PrepareResult(g, ok, safe, cells0, cells, OtherBase(g, base), next)
    ensures IsFlash(g, cells) && BankAt(g, cells, base) == BankAt(g, cells0, base)
  {
    hide Multiple, View, ProbeHeader, EncodeHeader, Views, HeaderKept;
    assert OtherBase(g, OtherBase(g, base)) == base;
  }

  lemma CompactStart(g: Geo, cells0: seq<Byte>, cells: seq<Byte>, base: nat, seqNo: U32, used: nat, live: seq<Byte>)
    requires Active(g, cells0, base, seqNo, used) && seqNo < 0xFFFF_FFFF
    requires IsImage(g.cfg.lineSize, g.lineCount, live)
    requires PrepareResult(g, true, true, cells0, cells, OtherBase(g, base), seqNo + 1)
    ensures Compacting(g, cells0, cells, base, seqNo, used, 0, live, 0)
  {
    hide Multiple, View, ProbeHeader, EncodeHeader, Views, Rebuilt;
    PrepareKeepsActive(g, true, cells0, cells, base, seqNo, used, seqNo + 1);
    RebuildStart(g, BankAt(g, cells, OtherBase(g, base)), seqNo + 1, live);
  }

  /** There is always room: a rebuilt bank never needs more slots than there are lines. */
  lemma {:induction false} CompactRoom(g: Geo, cells0: seq<Byte>, cells: seq<Byte>, base: nat, seqNo: U32, used: nat,
                                       m: nat, live: seq<Byte>, upto: nat)
    requires Compacting(g, cells0, cells, base, seqNo, used, m, live, upto)
    ensures IsFlash(g, cells) && IsBase(g, base)
    ensures m < g.maxRecords
    ensures IsImage(g.cfg.lineSize, g.lineCount, live) && upto <= g.lineCount
    ensures m == FilledLines(g.cfg.lineSize, g.lineCount, live, upto)
    ensures Dense(Views(g, BankAt(g, cells, OtherBase(g, base))), m)
  {
    hide Multiple, View, ProbeHeader, EncodeHeader, Views;
  }

  lemma CompactSkip(g: Geo, cells0: seq<Byte>, cells: seq<Byte>, base: nat, seqNo: U32, used: nat, m: nat,
                    live: seq<Byte>, upto: nat)
    requires Compacting(g, cells0, cells, base, seqNo, used, m, live, upto) && upto < g.lineCount
    requires IsErased(LineOf(g.cfg.lineSize, g.lineCount, live, upto))
    ensures Compacting(g, cells0, cells, base, seqNo, used, m, live, upto + 1)
  {
    hide Multiple, View, ProbeHeader, EncodeHeader, Views;
    RebuildSkip(g, BankAt(g, cells, OtherBase(g, base)), seqNo + 1, m, live, upto);
  }

  /** A record append in the inactive bank, complete or not, leaves the boot image alone. */
  lemma CompactAppend(g: Geo, ok: bool, cells0: seq<Byte>, cells: seq<Byte>, cells': seq<Byte>, base: nat, seqNo: U32,
                      used: nat, m: nat, live: seq<Byte>, upto: nat)
    requires Compacting(g, cells0, cells, base, seqNo, used, m, live, upto) && upto < g.lineCount
    requires AppendResult(g, ok, cells, cells', OtherBase(g, base), m, upto,
      LineOf(g.cfg.lineSize, g.lineCount, live, upto))
    requires !IsErased(LineOf(g.cfg.lineSize, g.lineCount, live, upto))
    ensures Active(g, cells', base, seqNo, used) && Stored(g, cells') == Stored(g, cells0)
    ensures Sound(g, cells') && BankAt(g, cells', base) == BankAt(g, cells0, base)
    ensures ok ==> Compacting(g, cells0, cells', base, seqNo, used, m + 1, live, upto + 1)
  {
    hide Multiple, View, ProbeHeader, EncodeHeader, Views, Active;
    var o := OtherBase(g, base);
    ActiveShape(g, cells, base, seqNo, used);
    PrepareRejected(g, BankAt(g, cells, o), seqNo + 1);
    HeaderVerdict(g, BankAt(g, cells, o), BankAt(g, cells', o));
    OtherBankTouched(g, cells, cells', base, seqNo, used);
    if ok {
      RebuildAppend(g, BankAt(g, cells, o), BankAt(g, cells', o), seqNo + 1, m, live, upto);
    }
  }

  lemma HeaderVerdict(g: Geo, bk: seq<Byte>, bk': seq<Byte>)
    requires IsBank(g, bk) && IsBank(g, bk') && Header(g, bk') == Header(g, bk)
    ensures HeaderOk(g, bk') == HeaderOk(g, bk)
  {
  }

  lemma CompactSound(g: Geo, cells0: seq<Byte>, cells: seq<Byte>, base: nat, seqNo: U32, used: nat, m: nat,
                     live: seq<Byte>, upto: nat)
    requires Compacting(g, cells0, cells, base, seqNo, used, m, live, upto)
    ensures Active(g, cells, base, seqNo, used) && Stored(g, cells) == Stored(g, cells0)
    ensures Sound(g, cells) && BankAt(g, cells, base) == BankAt(g, cells0, base)
    ensures Header(g, BankAt(g, cells, OtherBase(g, base))) == EncodeHeader(g, seqNo + 1, HEADER_PREPARE)
  {
  }

  /** The switch: an activation, complete or cut, selects either the old image or the whole live one. */
  lemma CompactDone(g: Geo, ok: bool, cells0: seq<Byte>, cells: seq<Byte>, cells': seq<Byte>, base: nat, seqNo: U32,
                    used: nat, m: nat, live: seq<Byte>)
    requires Compacting(g, cells0, cells, base, seqNo, used, m, live, g.lineCount)
    requires ActivateResult(g, ok, cells, cells', OtherBase(g, base), seqNo + 1)
    ensures Sound(g, cells') && BankAt(g, cells', base) == BankAt(g, cells0, base)
    ensures Stored(g, cells') in {Stored(g, cells0), live}
    ensures ok ==> Active(g, cells', OtherBase(g, base), seqNo + 1, m) && Stored(g, cells') == live
  {
    hide Multiple, View, ProbeHeader, EncodeHeader, Views, Active, Rebuilt;
    ActiveShape(g, cells, base, seqNo, used);
    assert BankAt(g, cells', base) == BankAt(g, cells, base);
    ActivationOutcome(g, cells, cells', base, seqNo, used, m, live);
  }
}
