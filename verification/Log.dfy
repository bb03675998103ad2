/** The append log of one bank as a sequence of classified slots. */
module Log {
  import opened Bytes
  import opened Lines
  import opened Wrappers

  datatype Diag =
    | None
    | PortRead
    | PortGeometry
    | BadConfig
    | BankErased
    | HeaderMagic
    | HeaderVersion
    | HeaderState
    | HeaderCrc
    | HeaderLayout
    | RecordCommit
    | RecordRange
    | RecordCrc
    | Capacity

  /** What one record slot holds. */
  datatype SlotView =
    | Erased
    | Torn
    | Committed(line: nat, data: seq<Byte>)
    | Bad(diag: Diag)

  predicate Readable(v: SlotView) {
    v.Torn? || v.Committed?
  }

  /** Committed payloads are whole lines of the logical space. */
  ghost predicate Sized(vs: seq<SlotView>, ls: nat, count: nat) {
    forall k :: 0 <= k < |vs| && vs[k].Committed? ==> |vs[k].data| == ls && vs[k].line < count
  }

  // ----- Scanning

  /** Forward scan: stops at the first erased slot, skips torn slots, fails on a bad one. */
  function ScanSlots(vs: seq<SlotView>, k: nat): (r: Result<nat, Diag>)
    requires k <= |vs|
    ensures r.Ok? ==> k <= r.value <= |vs|
    decreases |vs| - k
  {
    if k == |vs| then Ok(k)
    else match vs[k]
      case Erased => Ok(k)
      case Bad(diag) => Err(diag)
      case _ => ScanSlots(vs, k + 1)
  }

  /** The log shape: the first `n` slots are written, none of them bad, and every later slot is erased. */
  ghost predicate Dense(vs: seq<SlotView>, n: nat) {
    && n <= |vs|
    && (forall k :: 0 <= k < n ==> Readable(vs[k]))
    && (forall k :: n <= k < |vs| ==> vs[k] == Erased)
  }

  lemma {:induction false} DenseScansFrom(vs: seq<SlotView>, n: nat, k: nat)
    requires Dense(vs, n) && k <= n
    ensures ScanSlots(vs, k) == Ok(n)
    decreases n - k
  {
    if k < n {
      assert Readable(vs[k]);
      DenseScansFrom(vs, n, k + 1);
    }
  }

  /** On a dense log the scan finds exactly the append position, torn slots included. */
  lemma {:induction false} DenseScans(vs: seq<SlotView>, n: nat)
    requires Dense(vs, n)
    ensures ScanSlots(vs, 0) == Ok(n)
  {
    DenseScansFrom(vs, n, 0);
  }

  // ----- Lookup

  /** Backward walk: the newest committed payload of `line`, or an erased line. */
  function Lookup(ls: nat, vs: seq<SlotView>, line: nat): seq<Byte> {
    if |vs| == 0 then Blank(ls)
    else
      var v := vs[|vs| - 1];
      if v.Committed? && v.line == line then v.data else Lookup(ls, vs[..|vs| - 1], line)
  }

  lemma {:induction false} LookupSized(ls: nat, count: nat, vs: seq<SlotView>, line: nat)
    requires Sized(vs, ls, count)
    ensures |Lookup(ls, vs, line)| == ls
  {
    if |vs| > 0 {
      assert Sized(vs[..|vs| - 1], ls, count) by {
        assert forall k :: 0 <= k < |vs| - 1 ==> vs[..|vs| - 1][k] == vs[k];
      }
      LookupSized(ls, count, vs[..|vs| - 1], line);
    }
  }

  lemma {:induction false} LookupAppend(ls: nat, vs: seq<SlotView>, v: SlotView, line: nat)
    ensures Lookup(ls, vs + [v], line) == if v.Committed? && v.line == line then v.data else Lookup(ls, vs, line)
  {
    assert (vs + [v])[..|vs|] == vs;
  }

  /** Forward replay of a log on top of a map from line to payload. */
  function Replay(vs: seq<SlotView>, m: map<nat, seq<Byte>>): map<nat, seq<Byte>> {
    if |vs| == 0 then m else Replay(vs[1..], ReplayStep(vs[0], m))
  }

  function ReplayStep(v: SlotView, m: map<nat, seq<Byte>>): map<nat, seq<Byte>> {
    if v.Committed? then m[v.line := v.data] else m
  }

  lemma {:induction false} ReplayLast(vs: seq<SlotView>, v: SlotView, m: map<nat, seq<Byte>>)
    ensures Replay(vs + [v], m) == ReplayStep(v, Replay(vs, m))
  {
    if |vs| == 0 {
      assert (vs + [v])[1..] == [];
    } else {
      assert (vs + [v])[1..] == vs[1..] + [v];
      ReplayLast(vs[1..], v, ReplayStep(vs[0], m));
    }
  }

  /** Latest wins: the backward walk agrees with replaying the whole log forward into a map. */
  lemma {:induction false} LatestWins(ls: nat, vs: seq<SlotView>, line: nat)
    ensures var m := Replay(vs, map[]);
      Lookup(ls, vs, line) == if line in m then m[line] else Blank(ls)
  {
    if |vs| > 0 {
      var front, v := vs[..|vs| - 1], vs[|vs| - 1];
      assert vs == front + [v];
      LatestWins(ls, front, line);
      ReplayLast(front, v, map[]);
    }
  }

  /** An append of `(line, data)` was attempted at slot `n`: nothing else changed, and the slot is
      still erased, torn, or holds exactly that record. */
  ghost predicate Appended(vs: seq<SlotView>, vs': seq<SlotView>, n: nat, line: nat, data: seq<Byte>) {
    && n < |vs| == |vs'|
    && vs' == vs[n := vs'[n]]
    && (vs'[n] == Erased || vs'[n] == Torn || vs'[n] == Committed(line, data))
  }

  /** Used slots after an append attempt at slot `n`. */
  function UsedAfter(vs: seq<SlotView>, n: nat): (r: nat)
    requires n < |vs|
    ensures n <= r <= |vs|
  {
    if vs[n].Erased? then n else n + 1
  }

  // ----- The stored image

  /** The first `lines` lines stored by a log. */
  function ImageLines(ls: nat, vs: seq<SlotView>, lines: nat): seq<Byte> {
    if lines == 0 then [] else ImageLines(ls, vs, lines - 1) + Lookup(ls, vs, lines - 1)
  }

  lemma {:induction false} ImageLinesSized(ls: nat, count: nat, vs: seq<SlotView>, lines: nat)
    requires Sized(vs, ls, count)
    ensures |ImageLines(ls, vs, lines)| == LineStart(ls, lines)
  {
    if lines != 0 {
      ImageLinesSized(ls, count, vs, lines - 1);
      LookupSized(ls, count, vs, lines - 1);
    }
  }

  /** The logical bytes stored by a log. */
  function Image(ls: nat, count: nat, vs: seq<SlotView>): (r: seq<Byte>)
    requires Sized(vs, ls, count)
    ensures IsImage(ls, count, r)
  {
    ImageLinesSized(ls, count, vs, count);
    ImageLines(ls, vs, count)
  }

  lemma {:induction false} ImageLinesAt(ls: nat, count: nat, vs: seq<SlotView>, lines: nat, i: nat)
    requires Sized(vs, ls, count) && i < lines
    ensures LineStart(ls, i) + ls <= LineStart(ls, lines) == |ImageLines(ls, vs, lines)|
    ensures ImageLines(ls, vs, lines)[LineStart(ls, i)..LineStart(ls, i) + ls] == Lookup(ls, vs, i)
  {
    ImageLinesSized(ls, count, vs, lines - 1);
    LookupSized(ls, count, vs, lines - 1);
    if i < lines - 1 {
      ImageLinesAt(ls, count, vs, lines - 1, i);
      var front := ImageLines(ls, vs, lines - 1);
      assert ImageLines(ls, vs, lines)[LineStart(ls, i)..LineStart(ls, i) + ls] ==
        front[LineStart(ls, i)..LineStart(ls, i) + ls];
    }
  }

  lemma {:induction false} ImageLine(ls: nat, count: nat, vs: seq<SlotView>, i: nat)
    requires Sized(vs, ls, count) && i < count
    ensures LineOf(ls, count, Image(ls, count, vs), i) == Lookup(ls, vs, i)
  {
    ImageLinesAt(ls, count, vs, count, i);
  }

  lemma SizedAppend(ls: nat, count: nat, vs: seq<SlotView>, v: SlotView)
    requires Sized(vs, ls, count)
    requires v.Committed? ==> |v.data| == ls && v.line < count
    ensures Sized(vs + [v], ls, count)
  {
  }

  /** Appending one slot replaces exactly the committed line, or nothing at all. */
  lemma ImageAppend(ls: nat, count: nat, vs: seq<SlotView>, v: SlotView)
    requires Sized(vs, ls, count)
    requires v.Committed? ==> |v.data| == ls && v.line < count
    ensures Sized(vs + [v], ls, count)
    ensures Image(ls, count, vs + [v]) ==
      if v.Committed? then SetLine(ls, count, Image(ls, count, vs), v.line, v.data) else Image(ls, count, vs)
  {
    SizedAppend(ls, count, vs, v);
    var before, after := Image(ls, count, vs), Image(ls, count, vs + [v]);
    var expected := if v.Committed? then SetLine(ls, count, before, v.line, v.data) else before;
    forall i | 0 <= i < count
      ensures LineOf(ls, count, after, i) == LineOf(ls, count, expected, i)
    {
      LookupAppend(ls, vs, v, i);
      ImageLine(ls, count, vs, i);
      ImageLine(ls, count, vs + [v], i);
      if v.Committed? {
        SetLineAt(ls, count, before, v.line, v.data, i);
      }
    }
    SameLines(ls, count, after, expected);
  }

  lemma SizedPrefix(ls: nat, count: nat, vs: seq<SlotView>, n: nat)
    requires Sized(vs, ls, count) && n <= |vs|
    ensures Sized(vs[..n], ls, count)
  {
    assert forall k :: 0 <= k < n ==> vs[..n][k] == vs[k];
  }

  /** The image stored by the first `n` slots. */
  function PrefixImage(ls: nat, count: nat, vs: seq<SlotView>, n: nat): (r: seq<Byte>)
    requires Sized(vs, ls, count) && n <= |vs|
    ensures IsImage(ls, count, r)
  {
    SizedPrefix(ls, count, vs, n);
    Image(ls, count, vs[..n])
  }

  /** An append attempt keeps the log dense and replaces exactly the appended line, or nothing. */
  lemma AppendEffect(ls: nat, count: nat, vs: seq<SlotView>, vs': seq<SlotView>, n: nat, line: nat, data: seq<Byte>)
    requires Sized(vs, ls, count) && Sized(vs', ls, count) && line < count && |data| == ls
    requires Appended(vs, vs', n, line, data) && Dense(vs, n)
    ensures Dense(vs', UsedAfter(vs', n))
    ensures PrefixImage(ls, count, vs', UsedAfter(vs', n)) ==
      if vs'[n].Committed? then SetLine(ls, count, PrefixImage(ls, count, vs, n), line, data)
      else PrefixImage(ls, count, vs, n)
  {
    SizedPrefix(ls, count, vs, n);
    ImageAppend(ls, count, vs[..n], vs'[n]);
    assert vs'[..n] == vs[..n];
    assert vs'[..n + 1] == vs[..n] + [vs'[n]];
  }

  /** An empty log stores an erased image. */
  lemma {:induction false} EmptyImage(ls: nat, lines: nat)
    ensures ImageLines(ls, [], lines) == Blank(LineStart(ls, lines))
  {
    if lines != 0 {
      EmptyImage(ls, lines - 1);
    }
  }
}
