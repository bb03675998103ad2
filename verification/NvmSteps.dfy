/** What complete and interrupted store updates do to the serialized NVM image. */
module NvmSteps {
  import opened Arith
  import opened Bytes
  import opened Lines
  import opened NvmFormat
  import opened Wrappers

  lemma HeadUntouched(s: Schema, img: seq<Byte>, img': seq<Byte>)
    requires Holds(s, img) && Holds(s, img') && img'[..NVM_HEAD_SIZE] == img[..NVM_HEAD_SIZE]
    ensures Plan(s, img') == Plan(s, img)
  {
  }

  /** Record `k` was rewritten with `v`, or interrupted when `!ok`: header and other records are as they were. */
  ghost predicate Wrote(s: Schema, ok: bool, img: seq<Byte>, img': seq<Byte>, k: nat, v: Value) {
    && k < |s.params| && |v| == s.params[k].size
    && SameRecordsExcept(s, img, img', k)
    && |img'| == |img|
    && img'[..NVM_HEAD_SIZE] == img[..NVM_HEAD_SIZE]
    && (ok ==> RecordAt(s, img', k) == EncodeRecord(s, s.params[k], v))
  }

  lemma SliceAway(img: seq<Byte>, img': seq<Byte>, at: nat, n: nat, lo: nat, hi: nat)
    requires |img'| == |img| && at + n <= |img| && lo <= hi <= |img|
    requires img'[..at] == img[..at] && img'[at + n..] == img[at + n..]
    requires hi <= at || at + n <= lo
    ensures img'[lo..hi] == img[lo..hi]
  {
    if hi <= at {
      PrefixSlice(img', img, at, lo, hi);
    } else {
      SuffixSlice(img', img, at + n, lo, hi);
    }
  }

  lemma {:induction false} RecordTouched(s: Schema, ls: nat, count: nat, ok: bool, img: seq<Byte>, img': seq<Byte>,
                                         k: nat, v: Value)
    requires Holds(s, img) && k < |s.params| && |v| == s.params[k].size && ls > 0
    requires Addr(s, k) + RecSize(s.params[k]) <= |img|
    requires TornUpdate(ls, count, img, img', Addr(s, k), EncodeRecord(s, s.params[k], v))
    requires ok ==> img' == Splice(img, Addr(s, k), EncodeRecord(s, s.params[k], v))
    ensures Wrote(s, ok, img, img', k, v)
  {
    hide EncodeRecord, DecodeRecord;
    var at, size, rec := Addr(s, k), RecSize(s.params[k]), EncodeRecord(s, s.params[k], v);
    TornOutside(ls, count, img, img', at, rec);
    forall i | 0 <= i < |s.params| && i != k
      ensures RecordAt(s, img', i) == RecordAt(s, img, i)
    {
      if i < k {
        SlotsDisjoint(s, i, k);
      } else {
        SlotsDisjoint(s, k, i);
      }
      SlotFits(s, img, i);
      SliceAway(img, img', at, size, Addr(s, i), Addr(s, i) + RecSize(s.params[i]));
    }
    SliceAway(img, img', at, size, 0, NVM_HEAD_SIZE);
    if ok {
      SpliceInside(img, at, rec, at, at + size);
    }
  }

  /** The image stores a full set of values that differs from `vs` in slot `k` at most. */
  ghost predicate SettledExcept(s: Schema, img: seq<Byte>, vs: seq<Value>, k: nat) {
    && Holds(s, img) && Settled(s, img, Booted(s, img))
    && |vs| == |s.params| && forall i :: 0 <= i < |vs| && i != k ==> Booted(s, img)[i] == vs[i]
  }

  /** A record write on a settled image: stored afterwards when complete, otherwise at worst this value is
      damaged, and the damage is either noticed or confined to it. */
  lemma SettledWrite(s: Schema, ok: bool, img: seq<Byte>, img': seq<Byte>, k: nat, vs: seq<Value>, v: Value)
    requires Settled(s, img, vs) && Wrote(s, ok, img, img', k, v)
    ensures ok ==> Settled(s, img', vs[k := v])
    ensures Booted(s, img') == Defaults(s) || SettledExcept(s, img', vs, k)
  {
    hide EncodeRecord, DecodeRecord, RecordAt;
    HeadUntouched(s, img, img');
    LoadUpdate(s, img, img', |s.params|, k);
    if ok {
      RecordExact(s, s.params[k], RecordAt(s, img', k), v);
    }
    var r := DecodeRecord(s, s.params[k], RecordAt(s, img', k));
    if r.Ok? {
      SettledBoots(s, img', vs[k := r.value]);
    }
  }

  /** A record that lies inside one line is stored atomically: old value or new value, nothing else. */
  lemma {:induction false} RecordInLine(s: Schema, ls: nat, count: nat, img: seq<Byte>, img': seq<Byte>, k: nat,
                                        vs: seq<Value>, v: Value, line: nat)
    requires Settled(s, img, vs) && k < |vs| && |v| == s.params[k].size && ls > 0 && line < count
    requires LineStart(ls, line) <= Addr(s, k) && Addr(s, k) + RecSize(s.params[k]) <= LineStart(ls, line) + ls
    requires Addr(s, k) + RecSize(s.params[k]) <= |img|
    requires TornUpdate(ls, count, img, img', Addr(s, k), EncodeRecord(s, s.params[k], v))
    ensures Settled(s, img', vs) || Settled(s, img', vs[k := v])
  {
    hide EncodeRecord, DecodeRecord, RecordAt, LineOf, LinesFrom;
    var rec := EncodeRecord(s, s.params[k], v);
    TornInLine(ls, count, img, img', Addr(s, k), rec, line);
    if img' == Splice(img, Addr(s, k), rec) {
      RecordTouched(s, ls, count, true, img, img', k, v);
      SettledWrite(s, true, img, img', k, vs, v);
    }
  }

  /** The record of slot `k` lies inside one line. */
  predicate InLine(s: Schema, ls: nat, k: nat)
    requires k < |s.params| && ls > 0
  {
    Addr(s, k) / ls == (Addr(s, k) + RecSize(s.params[k]) - 1) / ls
  }

  lemma {:induction false} InLineExactly(s: Schema, ls: nat, k: nat)
    requires k < |s.params| && ls > 0
    ensures InLine(s, ls, k) <==> LinesTouched(ls, Addr(s, k), RecSize(s.params[k])) == 1
  {
    hide Addr, LineStart;
    var at, n := Addr(s, k), RecSize(s.params[k]);
    assert LinesTouched(ls, at, n) == LineIndex(ls, at + n - 1) - LineIndex(ls, at) + 1;
  }

  lemma InLineBounds(s: Schema, ls: nat, count: nat, k: nat) returns (line: nat)
    requires k < |s.params| && ls > 0 && InLine(s, ls, k)
    requires Addr(s, k) + RecSize(s.params[k]) <= LineStart(ls, count)
    ensures line < count
    ensures LineStart(ls, line) <= Addr(s, k) && Addr(s, k) + RecSize(s.params[k]) <= LineStart(ls, line) + ls
  {
    hide Addr;
    line := Addr(s, k) / ls;
    DivTimes(Addr(s, k), ls);
    DivTimes(Addr(s, k) + RecSize(s.params[k]) - 1, ls);
    if count <= line {
      if count < line {
        TimesMono(count, line, ls);
      }
      assert false;
    }
  }

  /** So a cut save of such a slot keeps its old value or stores the new one. */
  lemma {:induction false} InLineSave(s: Schema, ls: nat, count: nat, img: seq<Byte>, img': seq<Byte>, k: nat,
                                      vs: seq<Value>, v: Value)
    requires Settled(s, img, vs) && k < |vs| && |v| == s.params[k].size && ls > 0 && IsImage(ls, count, img)
    requires Addr(s, k) + RecSize(s.params[k]) <= |img|
    requires TornUpdate(ls, count, img, img', Addr(s, k), EncodeRecord(s, s.params[k], v))
    requires InLine(s, ls, k)
    ensures Holds(s, img') && Booted(s, img') in {vs, vs[k := v]}
  {
    hide Addr, InLine, EncodeRecord, TornUpdate, Load, Stored, Booted;
    var line := InLineBounds(s, ls, count, k);
    RecordInLine(s, ls, count, img, img', k, vs, v, line);
    if Settled(s, img', vs) {
      SettledBoots(s, img', vs);
    } else {
      SettledBoots(s, img', vs[k := v]);
    }
  }

  // ----- Cut saves that cross a line

  /** Payload bytes of record `k` in the line its header starts in. */
  function FirstPart(s: Schema, ls: nat, k: nat): (p: nat)
    requires k < |s.params| && ls > 0
    ensures p <= s.params[k].size
  {
    var payload, next := Addr(s, k) + RECORD_OVERHEAD, LineStart(ls, Addr(s, k) / ls + 1);
    if next <= payload then 0 else if payload + s.params[k].size <= next then s.params[k].size else next - payload
  }

  /** A payload byte belongs to the first part exactly when it lies in the line of the record's first byte. */
  lemma {:induction false} FirstPartExactly(s: Schema, ls: nat, k: nat, i: nat)
    requires k < |s.params| && ls > 0 && i < s.params[k].size
    ensures i < FirstPart(s, ls, k) <==>
      LineIndex(ls, Addr(s, k) + RECORD_OVERHEAD + i) == LineIndex(ls, Addr(s, k))
  {
    hide Addr;
    var at, x := Addr(s, k), Addr(s, k) + RECORD_OVERHEAD + i;
    DivTimes(at, ls);
    LineOrder(ls, at, x);
    if LineIndex(ls, at) < LineIndex(ls, x) {
      TimesMono(LineIndex(ls, at), LineIndex(ls, x), ls);
    }
  }

  /** A payload split behind byte `p`, each part old or new. */
  function Mixtures(was: Value, now: Value, p: nat): set<Value>
    requires p <= |was| == |now|
  {
    {was, now, was[..p] + now[p..], now[..p] + was[p..]}
  }

  lemma MixturesExactly(was: Value, now: Value, p: nat, v: Value)
    requires p <= |was| == |now|
    ensures v in Mixtures(was, now, p) <==>
      |v| == |was| && v[..p] in {was[..p], now[..p]} && v[p..] in {was[p..], now[p..]}
  {
    assert |v| == |was| ==> v == v[..p] + v[p..];
    assert was == was[..p] + was[p..] && now == now[..p] + now[p..];
  }

  /** A stretch inside one line comes from one of the two images. */
  lemma StretchFrom(ls: nat, count: nat, img: seq<Byte>, was: seq<Byte>, now: seq<Byte>, line: nat, a: nat, b: nat)
    requires LinesFrom(ls, count, img, {was, now}) && a < b <= LineStart(ls, count)
    requires LineStart(ls, line) <= a && b <= LineStart(ls, line) + ls
    ensures |img| == |was| == |now| == LineStart(ls, count)
    ensures img[a..b] == was[a..b] || img[a..b] == now[a..b]
  {
    if count <= line {
      if count < line {
        TimesMono(count, line, ls);
      }
      assert false;
    }
    var at := LineStart(ls, line);
    LineFits(ls, count, line);
    assert LineIn(ls, count, img, {was, now}, line);
    var s :| s in {was, now} && LineOf(ls, count, img, line) == LineOf(ls, count, s, line);
    SliceOfSlice(img, at, at + ls, a - at, b - at);
    SliceOfSlice(s, at, at + ls, a - at, b - at);
  }

  /** Payload bytes `[a, b)` split at `m` into two stretches of one line each. */
  lemma SplitStretch(ls: nat, count: nat, img: seq<Byte>, was: seq<Byte>, now: seq<Byte>, line: nat, a: nat, m: nat,
                     b: nat)
    requires LinesFrom(ls, count, img, {was, now}) && a <= m <= b <= LineStart(ls, count)
    requires a < m ==> LineStart(ls, line) <= a && m <= LineStart(ls, line) + ls
    requires m < b ==> LineStart(ls, line + 1) <= m && b <= LineStart(ls, line + 1) + ls
    ensures |img| == |was| == |now| == LineStart(ls, count)
    ensures img[a..b] in Mixtures(was[a..b], now[a..b], m - a)
  {
    hide LinesFrom;
    LinesSized(ls, count, img, was, now);
    if a < m {
      StretchFrom(ls, count, img, was, now, line, a, m);
    }
    if m < b {
      StretchFrom(ls, count, img, was, now, line + 1, m, b);
    }
    assert img[a..b] == img[a..m] + img[m..b] && was[a..b] == was[a..m] + was[m..b] &&
      now[a..b] == now[a..m] + now[m..b];
  }

  lemma LinesSized(ls: nat, count: nat, img: seq<Byte>, was: seq<Byte>, now: seq<Byte>)
    requires LinesFrom(ls, count, img, {was, now})
    ensures |img| == |was| == |now| == LineStart(ls, count)
  {
    assert was in {was, now} && now in {was, now};
  }

  /** A cut save leaves the old value, the new one, or a mixture of the two by lines, unless it is noticed. */
  lemma {:induction false} CutSave(s: Schema, ls: nat, count: nat, img: seq<Byte>, img': seq<Byte>, k: nat,
                                   vs: seq<Value>, v: Value)
    requires Settled(s, img, vs) && k < |vs| && |v| == s.params[k].size == |vs[k]| && NVM_HEAD_SIZE <= ls
    requires IsImage(ls, count, img) && Addr(s, k) + RecSize(s.params[k]) <= |img|
    requires TornUpdate(ls, count, img, img', Addr(s, k), EncodeRecord(s, s.params[k], v))
    ensures Holds(s, img')
    ensures Booted(s, img') == Defaults(s)
      || exists w :: w in Mixtures(vs[k], v, FirstPart(s, ls, k)) && Booted(s, img') == vs[k := w]
  {
    hide Addr, EncodeRecord, DecodeRecord, Load, Booted, RecordAt, Stored, Plan, TornUpdate, Mixtures, FirstPart;
    RecordTouched(s, ls, count, false, img, img', k, v);
    TornPayload(s, ls, count, img, img', k, vs, v);
    CutRecord(s, img, img', k, vs, v);
  }

  /** After an interrupted write the slot boots with the payload found there, or everything with its default. */
  lemma CutRecord(s: Schema, img: seq<Byte>, img': seq<Byte>, k: nat, vs: seq<Value>, v: Value)
    requires Settled(s, img, vs) && Wrote(s, false, img, img', k, v)
    ensures Holds(s, img')
    ensures Booted(s, img') == Defaults(s) || Booted(s, img') == vs[k := RecordAt(s, img', k)[RECORD_OVERHEAD..]]
  {
    hide EncodeRecord, RecordAt, Addr;
    HeadUntouched(s, img, img');
    LoadUpdate(s, img, img', |s.params|, k);
    var r := DecodeRecord(s, s.params[k], RecordAt(s, img', k));
    if r.Ok? {
      SettledBoots(s, img', vs[k := r.value]);
    }
  }

  lemma {:induction false} TornPayload(s: Schema, ls: nat, count: nat, img: seq<Byte>, img': seq<Byte>, k: nat,
                                       vs: seq<Value>, v: Value)
    requires Settled(s, img, vs) && k < |vs| && |v| == s.params[k].size == |vs[k]| && NVM_HEAD_SIZE <= ls
    requires IsImage(ls, count, img) && Addr(s, k) + RecSize(s.params[k]) <= |img| && Holds(s, img')
    requires TornUpdate(ls, count, img, img', Addr(s, k), EncodeRecord(s, s.params[k], v))
    ensures RecordAt(s, img', k)[RECORD_OVERHEAD..] in Mixtures(vs[k], v, FirstPart(s, ls, k))
  {
    hide Addr, DecodeRecord, Load, Stored, RecordAt, Plan, LinesFrom, EncodeRecord;
    var rec, at, size := EncodeRecord(s, s.params[k], v), Addr(s, k), RecSize(s.params[k]);
    var now := Splice(img, at, rec);
    var line, a := at / ls, at + RECORD_OVERHEAD;
    DivTimes(at, ls);
    SplitStretch(ls, count, img', img, now, line, a, a + FirstPart(s, ls, k), at + size);
    LinesSized(ls, count, img', img, now);
    SettledRecord(s, img, vs, k);
    Payload(s, k, vs[k]);
    Payload(s, k, v);
    PayloadAt(s, img, k);
    PayloadAt(s, img', k);
    SpliceInside(img, at, rec, a, at + size);
    assert now[a..at + size] == v;
  }

  lemma {:induction false} PayloadAt(s: Schema, img: seq<Byte>, k: nat)
    requires Holds(s, img) && k < |s.params| && Addr(s, k) + RecSize(s.params[k]) <= |img|
    ensures img[Addr(s, k) + RECORD_OVERHEAD..Addr(s, k) + RecSize(s.params[k])] ==
      RecordAt(s, img, k)[RECORD_OVERHEAD..]
  {
    hide Addr;
    RecordBytes(s, img, k);
    SliceOfSlice(img, Addr(s, k), Addr(s, k) + RecSize(s.params[k]), RECORD_OVERHEAD, RecSize(s.params[k]));
  }

  lemma SettledRecord(s: Schema, img: seq<Byte>, vs: seq<Value>, k: nat)
    requires Settled(s, img, vs) && k < |vs|
    ensures |vs[k]| == s.params[k].size && RecordAt(s, img, k) == EncodeRecord(s, s.params[k], vs[k])
  {
    hide Addr, DecodeRecord, EncodeRecord, RecordAt, Plan;
    assert vs[..|vs|] == vs;
    StoredRecord(s, img, vs, |vs|, k);
  }

  lemma Payload(s: Schema, k: nat, v: Value)
    requires s.Valid() && k < |s.params| && |v| == s.params[k].size
    ensures EncodeRecord(s, s.params[k], v)[RECORD_OVERHEAD..] == v
  {
  }

  // ----- Header updates

  /** The header was rewritten for `n` records as a single line, or power was lost before that when `!ok`. */
  ghost predicate HeadWrote(s: Schema, ok: bool, img: seq<Byte>, img': seq<Byte>, n: nat) {
    && s.Valid() && n <= |s.params| && NVM_HEAD_SIZE <= |img|
    && (img' == Splice(img, 0, EncodeHead(s, n)) || (!ok && img' == img))
  }

  lemma HeadTouched(s: Schema, ls: nat, count: nat, ok: bool, img: seq<Byte>, img': seq<Byte>, n: nat)
    requires s.Valid() && n <= |s.params| && NVM_HEAD_SIZE <= |img| && NVM_HEAD_SIZE <= ls && count > 0
    requires TornUpdate(ls, count, img, img', 0, EncodeHead(s, n))
    requires ok ==> img' == Splice(img, 0, EncodeHead(s, n))
    ensures HeadWrote(s, ok, img, img', n)
  {
    hide EncodeHead;
    TornInLine(ls, count, img, img', 0, EncodeHead(s, n), 0);
  }

  /** Rewriting header bytes alone keeps every record. */
  lemma {:induction false} HeadKeepsRecords(s: Schema, img: seq<Byte>, head: seq<Byte>, n: nat)
    requires Holds(s, img) && |head| <= NVM_HEAD_SIZE && n <= |s.params|
    ensures Holds(s, Splice(img, 0, head))
    ensures Load(s, Splice(img, 0, head), n) == Load(s, img, n)
  {
    var img' := Splice(img, 0, head);
    forall i | 0 <= i < n
      ensures RecordAt(s, img', i) == RecordAt(s, img, i)
    {
      SlotFits(s, img, i);
      SpliceOutside(img, 0, head, Addr(s, i), Addr(s, i) + RecSize(s.params[i]));
    }
    LoadFrame(s, img, img', n);
  }

  /** A header written over fully stored records settles the image. */
  lemma {:induction false} HeadSettles(s: Schema, img: seq<Byte>, vs: seq<Value>)
    requires Holds(s, img) && |vs| == |s.params| && Load(s, img, |vs|) == Ok(vs)
    ensures Settled(s, Splice(img, 0, EncodeHead(s, |vs|)), vs)
  {
    hide EncodeHead, ReadHead, Accept, RecordAt;
    var n := |vs|;
    var head := EncodeHead(s, n);
    HeadKeepsRecords(s, img, head, n);
    assert Splice(img, 0, head)[..NVM_HEAD_SIZE] == head;
    HeadRoundTrip(s, n);
  }

  // ----- Bulk rewrite

  /** The signature is erased: whatever the records hold, a power-up ends with defaults. */
  ghost predicate Voided(s: Schema, img: seq<Byte>) {
    Holds(s, img) && GetU32(img[..NVM_SIGN_SIZE]) != NVM_SIGN
  }

  lemma VoidedBoots(s: Schema, img: seq<Byte>)
    requires Voided(s, img)
    ensures Stored(s, img) == Err(Error) && Booted(s, img) == Defaults(s)
  {
    assert img[..NVM_HEAD_SIZE][..4] == img[..NVM_SIGN_SIZE];
  }

  lemma SignErased(s: Schema, ls: nat, count: nat, ok: bool, img: seq<Byte>, img': seq<Byte>)
    requires Holds(s, img) && NVM_HEAD_SIZE <= ls && count > 0
    requires TornUpdate(ls, count, img, img', 0, Blank(NVM_SIGN_SIZE))
    requires ok ==> img' == Splice(img, 0, Blank(NVM_SIGN_SIZE))
    ensures Holds(s, img')
    ensures ok ==> Voided(s, img')
    ensures img' == img || Voided(s, img')
  {
    var blank := Blank(NVM_SIGN_SIZE);
    TornInLine(ls, count, img, img', 0, blank, 0);
    assert Splice(img, 0, blank)[..NVM_SIGN_SIZE] == blank;
    assert blank[..2] == [0xFF, 0xFF] && blank[2..] == [0xFF, 0xFF];
  }

  /** Bulk rewrite in progress: no valid signature, and the first `k` records already store the live values. */
  ghost predicate Rewriting(s: Schema, img: seq<Byte>, vs: seq<Value>, k: nat) {
    Voided(s, img) && Typed(s, vs) && k <= |vs| && Load(s, img, k) == Ok(vs[..k])
  }

  lemma RewriteStart(s: Schema, img: seq<Byte>, vs: seq<Value>)
    requires Voided(s, img) && Typed(s, vs)
    ensures Rewriting(s, img, vs, 0)
  {
  }

  lemma RewriteStep(s: Schema, ok: bool, img: seq<Byte>, img': seq<Byte>, vs: seq<Value>, k: nat)
    requires Rewriting(s, img, vs, k) && k < |vs|
    requires Wrote(s, ok, img, img', k, vs[k])
    ensures Voided(s, img')
    ensures ok ==> Rewriting(s, img', vs, k + 1)
  {
    hide EncodeRecord, DecodeRecord, RecordAt;
    PrefixSlice(img', img, NVM_HEAD_SIZE, 0, NVM_SIGN_SIZE);
    LoadFrame(s, img, img', k);
    if ok {
      LoadNext(s, img', vs, k);
    }
  }

  lemma RewriteDone(s: Schema, ok: bool, img: seq<Byte>, img': seq<Byte>, vs: seq<Value>)
    requires Rewriting(s, img, vs, |vs|) && HeadWrote(s, ok, img, img', |vs|)
    ensures Holds(s, img')
    ensures Settled(s, img', vs) || (!ok && Voided(s, img'))
  {
    assert vs[..|vs|] == vs;
    HeadSettles(s, img, vs);
  }

  // ----- Tail append

  /** A prefix of `n` records is valid; the first `k >= n` records store `vs`, whose tail is the defaults. */
  ghost predicate Appending(s: Schema, img: seq<Byte>, vs: seq<Value>, n: nat, k: nat) {
    && Holds(s, img) && Typed(s, vs) && n <= k <= |vs|
    && Plan(s, img) == Ok(n)
    && vs[n..] == Defaults(s)[n..]
    && Load(s, img, n) == Ok(vs[..n])
    && Load(s, img, k) == Ok(vs[..k])
  }

  lemma {:induction false} AppendStart(s: Schema, img: seq<Byte>, vs: seq<Value>, n: nat)
    requires Holds(s, img) && Typed(s, vs) && n <= |vs| && Plan(s, img) == Ok(n)
    requires Load(s, img, n) == Ok(vs[..n]) && vs[n..] == Defaults(s)[n..]
    ensures Appending(s, img, vs, n, n)
  {
  }

  /** Until the new header lands, a power-up still sees the stored prefix and the default tail. */
  lemma AppendingBoots(s: Schema, img: seq<Byte>, vs: seq<Value>, n: nat, k: nat)
    requires Appending(s, img, vs, n, k)
    ensures Booted(s, img) == vs
    ensures n == |vs| ==> Settled(s, img, vs)
  {
    assert vs == vs[..n] + vs[n..];
    assert n == |vs| ==> vs[..n] == vs;
  }

  lemma AppendStep(s: Schema, ok: bool, img: seq<Byte>, img': seq<Byte>, vs: seq<Value>, n: nat, k: nat)
    requires Appending(s, img, vs, n, k) && k < |vs|
    requires Wrote(s, ok, img, img', k, vs[k])
    ensures Appending(s, img', vs, n, n)
    ensures ok ==> Appending(s, img', vs, n, k + 1)
  {
    hide EncodeRecord, DecodeRecord, RecordAt, ReadHead, Accept;
    HeadUntouched(s, img, img');
    LoadFrame(s, img, img', n);
    LoadFrame(s, img, img', k);
    if ok {
      LoadNext(s, img', vs, k);
    }
  }

  lemma AppendDone(s: Schema, ok: bool, img: seq<Byte>, img': seq<Byte>, vs: seq<Value>, n: nat)
    requires Appending(s, img, vs, n, |vs|) && HeadWrote(s, ok, img, img', |vs|)
    ensures Holds(s, img') && Booted(s, img') == vs
    ensures ok ==> Settled(s, img', vs)
  {
    hide EncodeHead, ReadHead, Accept, RecordAt;
    assert vs[..|vs|] == vs;
    HeadSettles(s, img, vs);
    AppendingBoots(s, img, vs, n, |vs|);
    if Settled(s, img', vs) {
      SettledBoots(s, img', vs);
    }
  }

  // ----- Firmware updates

  lemma {:induction false} SameAddr(a: Schema, b: Schema, i: nat)
    requires i <= |a.params| <= |b.params| && b.params[..|a.params|] == a.params
    ensures Addr(a, i) == Addr(b, i)
  {
    if i != 0 {
      SameAddr(a, b, i - 1);
      assert a.params[i - 1] == b.params[..|a.params|][i - 1];
    }
  }

  lemma SameRecord(a: Schema, b: Schema, img: seq<Byte>, i: nat)
    requires Holds(a, img) && Holds(b, img) && a.crc8 == b.crc8
    requires i < |a.params| <= |b.params| && b.params[..|a.params|] == a.params
    ensures a.params[i] == b.params[i]
    ensures DecodeRecord(a, a.params[i], RecordAt(a, img, i)) == DecodeRecord(b, b.params[i], RecordAt(b, img, i))
  {
    assert a.params[i] == b.params[..|a.params|][i];
    SameAddr(a, b, i);
  }

  lemma {:induction false} SameLoad(a: Schema, b: Schema, img: seq<Byte>, n: nat)
    requires Holds(a, img) && Holds(b, img) && a.crc8 == b.crc8
    requires n <= |a.params| <= |b.params| && b.params[..|a.params|] == a.params
    ensures Load(a, img, n) == Load(b, img, n)
  {
    hide DecodeRecord, RecordAt, Addr;
    if n != 0 {
      SameLoad(a, b, img, n - 1);
      SameRecord(a, b, img, n - 1);
    }
  }

  /** A firmware that appends parameters restores everything its predecessor stored and defaults the rest. */
  lemma Upgrade(a: Schema, b: Schema, img: seq<Byte>, vs: seq<Value>)
    requires Settled(a, img, vs) && Holds(b, img)
    requires |a.params| <= |b.params| && b.params[..|a.params|] == a.params
    requires a.digest == b.digest && a.crc8 == b.crc8 && a.crc16 == b.crc16 && a.tableIdCheck == b.tableIdCheck
    ensures Stored(b, img) == Ok(vs)
    ensures Booted(b, img) == vs + Defaults(b)[|vs|..]
  {
    var n := |a.params|;
    SameLoad(a, b, img, n);
    assert a.params[..n] == a.params;
  }

  /** A firmware with fewer parameters rebuilds from its defaults. */
  lemma Downgrade(a: Schema, b: Schema, img: seq<Byte>, vs: seq<Value>)
    requires Settled(a, img, vs) && Holds(b, img) && |b.params| < |a.params| && a.crc16 == b.crc16
    ensures Stored(b, img) == Err(if b.tableIdCheck then ErrorTableId else Error) && Booted(b, img) == Defaults(b)
  {
  }

  /** A firmware with the same parameters and another table ID: the image is refused exactly when table IDs are
      checked. */
  lemma TableIdVerdict(a: Schema, b: Schema, img: seq<Byte>, vs: seq<Value>)
    requires Settled(a, img, vs) && b.params == a.params && a.crc8 == b.crc8 && a.crc16 == b.crc16
    requires a.tableIdCheck && a.digest(a.params) != b.digest(b.params)
    ensures Holds(b, img)
    ensures Stored(b, img) == if b.tableIdCheck then Err(ErrorTableId) else Ok(vs)
  {
    var n := |a.params|;
    SameAddr(a, b, n);
    SameLoad(a, b, img, n);
    assert a.params[..n] == a.params && b.params[..n] == b.params;
  }
}
