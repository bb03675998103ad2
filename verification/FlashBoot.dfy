/** Power-up decisions: what a failed scan allows, which bank is adopted, and what a first format leaves behind. */
module FlashBoot {
  import opened Arith
  import opened Banks
  import opened Bytes
  import opened FlashFormat
  import opened FlashSteps
  import opened Log
  import opened Rebuild

  /** Contents that may be rebuilt from scratch, as opposed to a bank that could not be read. */
  predicate AllowsReformat(diag: Diag) {
    match diag
    case BankErased | HeaderMagic | HeaderVersion | HeaderState | HeaderCrc | HeaderLayout => true
    case RecordCommit | RecordRange | RecordCrc => true
    case _ => false
  }

  lemma {:induction false} ScanSlotsDiag(g: Geo, bk: seq<Byte>, k: nat)
    requires IsBank(g, bk) && k <= g.maxRecords
    ensures var r := ScanSlots(Views(g, bk), k); r.Err? ==> AllowsReformat(r.error)
    decreases g.maxRecords - k
  {
    if k < g.maxRecords {
      ViewsAt(g, bk, k);
      ScanSlotsDiag(g, bk, k + 1);
    }
  }

  /** A bank that was read completely but is not usable may always be reformatted. */
  lemma ScanDiag(g: Geo, bk: seq<Byte>)
    requires IsBank(g, bk)
    ensures Scan(g, bk).Err? ==> AllowsReformat(Scan(g, bk).error)
  {
    ScanSlotsDiag(g, bk, 0);
  }

  /** The boot choice in terms of the two bank scans. */
  lemma BootFromScans(g: Geo, cells: seq<Byte>)
    requires IsFlash(g, cells)
    ensures var s0, s1 := Scan(g, BankAt(g, cells, 0)), Scan(g, BankAt(g, cells, g.bankSize));
      && (s0.Err? ==> AllowsReformat(s0.error))
      && (s1.Err? ==> AllowsReformat(s1.error))
      && Boot(g, cells) ==
         if s0.Err? && s1.Err? then Format
         else if s0.Ok? && (s1.Err? || s0.value.0 >= s1.value.0) then Use(0, s0.value.0, s0.value.1)
         else Use(g.bankSize, s1.value.0, s1.value.1)
  {
    ScanDiag(g, BankAt(g, cells, 0));
    ScanDiag(g, BankAt(g, cells, g.bankSize));
  }

  /** On sound flash the boot choice is the active bank, or a format when no bank is formatted. */
  lemma SoundBoot(g: Geo, cells: seq<Byte>)
    requires Sound(g, cells)
    ensures IsFlash(g, cells)
    ensures match Boot(g, cells)
            case Format => Unformatted(g, cells) && Stored(g, cells) == Blank(g.cfg.logicalSize)
            case Use(base, seqNo, used) => Active(g, cells, base, seqNo, used)
  {
    hide Scan, BankImage;
    if Unformatted(g, cells) {
      UnformattedBoots(g, cells);
    } else {
      var base, seqNo, used :| Active(g, cells, base, seqNo, used);
      ActiveBoots(g, cells, base, seqNo, used);
    }
  }

  // ----- First format

  /** Bank 0 is an empty active bank with sequence number 1; bank 1 is as it was. */
  ghost predicate Formatted(g: Geo, cells: seq<Byte>, cells': seq<Byte>) {
    && IsFlash(g, cells) && IsFlash(g, cells')
    && BankAt(g, cells', g.bankSize) == BankAt(g, cells, g.bankSize)
    && Header(g, BankAt(g, cells', 0)) == EncodeHeader(g, 1, HEADER_ACTIVE)
    && IsErased(BankAt(g, cells', 0)[HEADER_SIZE..])
  }

  lemma FormatPrepared(g: Geo, ok: bool, cells: seq<Byte>, cells': seq<Byte>)
    requires Unformatted(g, cells) && PrepareResult(g, ok, true, cells, cells', 0, 1)
    ensures Unformatted(g, cells') && Sound(g, cells') && Stored(g, cells') == Blank(g.cfg.logicalSize)
  {
    hide BankImage, ProbeHeader, View, EncodeHeader;
    UnformattedBoots(g, cells');
  }

  lemma FormatHeader(g: Geo, cells: seq<Byte>, cells': seq<Byte>)
    requires PrepareResult(g, true, true, cells, cells', 0, 1)
    ensures Header(g, BankAt(g, cells', 0)) == EncodeHeader(g, 1, HEADER_PREPARE)
  {
  }

  /** A freshly formatted device boots from bank 0 with an empty log and a blank image. */
  lemma FormattedActive(g: Geo, cells: seq<Byte>, cells': seq<Byte>)
    requires Formatted(g, cells, cells') && !HeaderOk(g, BankAt(g, cells, g.bankSize))
    ensures Active(g, cells', 0, 1, 0) && Sound(g, cells')
    ensures Stored(g, cells') == Blank(g.cfg.logicalSize)
  {
    hide Multiple, View, EncodeHeader, BankImage;
    HeaderRoundTrip(g, 1, HEADER_ACTIVE);
    EmptyBank(g, BankAt(g, cells', 0));
    ActiveBoots(g, cells', 0, 1, 0);
  }

  lemma FormatActivated(g: Geo, ok: bool, cells: seq<Byte>, cells1: seq<Byte>, cells2: seq<Byte>)
    requires PrepareResult(g, true, true, cells, cells1, 0, 1) && ActivateResult(g, ok, cells1, cells2, 0, 1)
    ensures ok ==> Formatted(g, cells, cells2)
    ensures Unformatted(g, cells) ==> Sound(g, cells2) && Stored(g, cells2) == Blank(g.cfg.logicalSize)
  {
    hide Multiple, View, EncodeHeader, BankImage, ProbeHeader;
    var h := Header(g, BankAt(g, cells2, 0));
    if Unformatted(g, cells) {
      if h == EncodeHeader(g, 1, HEADER_ACTIVE) {
        FormattedActive(g, cells, cells2);
      } else {
        PrepareRejected(g, BankAt(g, cells2, 0), 1);
        UnformattedBoots(g, cells2);
      }
    }
  }
}
