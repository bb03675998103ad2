/** A logical byte image seen as `count` lines of `ls` bytes each. */
module Lines {
  import opened Arith
  import opened Bytes

  /** Address of the first byte of line `i`. */
  function LineStart(ls: nat, i: nat): nat {
    Times(i, ls)
  }

  ghost predicate IsImage(ls: nat, count: nat, img: seq<Byte>) {
    |img| == LineStart(ls, count)
  }

  lemma LineFits(ls: nat, count: nat, i: nat)
    requires i < count
    ensures LineStart(ls, i) + ls <= LineStart(ls, count)
  {
    TimesMono(i, count, ls);
  }

  /** Line `i` of an image. */
  function LineOf(ls: nat, count: nat, img: seq<Byte>, i: nat): (r: seq<Byte>)
    requires IsImage(ls, count, img) && i < count
    ensures |r| == ls
  {
    LineFits(ls, count, i);
    img[LineStart(ls, i)..LineStart(ls, i) + ls]
  }

  lemma {:induction false} SamePrefix(ls: nat, count: nat, x: seq<Byte>, y: seq<Byte>, lines: nat)
    requires IsImage(ls, count, x) && IsImage(ls, count, y) && lines <= count
    requires forall i :: 0 <= i < lines ==> LineOf(ls, count, x, i) == LineOf(ls, count, y, i)
    ensures LineStart(ls, lines) <= |x|
    ensures x[..LineStart(ls, lines)] == y[..LineStart(ls, lines)]
  {
    if lines != 0 {
      SamePrefix(ls, count, x, y, lines - 1);
      LineFits(ls, count, lines - 1);
      var lo, hi := LineStart(ls, lines - 1), LineStart(ls, lines);
      assert LineOf(ls, count, x, lines - 1) == LineOf(ls, count, y, lines - 1);
      assert x[..hi] == x[..lo] + x[lo..hi] && y[..hi] == y[..lo] + y[lo..hi];
    }
  }

  /** How many of the first `n` lines of an image are not erased. */
  function FilledLines(ls: nat, count: nat, img: seq<Byte>, n: nat): (r: nat)
    requires IsImage(ls, count, img) && n <= count
    ensures r <= n
  {
    if n == 0 then 0
    else FilledLines(ls, count, img, n - 1) + if IsErased(LineOf(ls, count, img, n - 1)) then 0 else 1
  }

  /** An image is determined by its lines. */
  lemma SameLines(ls: nat, count: nat, x: seq<Byte>, y: seq<Byte>)
    requires IsImage(ls, count, x) && IsImage(ls, count, y)
    requires forall i :: 0 <= i < count ==> LineOf(ls, count, x, i) == LineOf(ls, count, y, i)
    ensures x == y
  {
    SamePrefix(ls, count, x, y, count);
    assert x[..|x|] == x && y[..|y|] == y;
  }

  /** `img` with line `line` replaced. */
  function SetLine(ls: nat, count: nat, img: seq<Byte>, line: nat, data: seq<Byte>): (r: seq<Byte>)
    requires IsImage(ls, count, img) && line < count && |data| == ls
    ensures IsImage(ls, count, r)
  {
    LineFits(ls, count, line);
    Splice(img, LineStart(ls, line), data)
  }

  lemma SetLineAt(ls: nat, count: nat, img: seq<Byte>, line: nat, data: seq<Byte>, i: nat)
    requires IsImage(ls, count, img) && line < count && i < count && |data| == ls
    ensures LineOf(ls, count, SetLine(ls, count, img, line, data), i) ==
      if i == line then data else LineOf(ls, count, img, i)
  {
    LineFits(ls, count, i);
    LineFits(ls, count, line);
    var at := LineStart(ls, line);
    if i == line {
      SpliceInside(img, at, data, at, at + ls);
    } else {
      if i < line {
        TimesMono(i, line, ls);
      } else {
        TimesMono(line, i, ls);
      }
      SpliceOutside(img, at, data, LineStart(ls, i), LineStart(ls, i) + ls);
    }
  }

  /** Number of lines that bytes `[addr, addr + n)` touch. */
  function LinesTouched(ls: nat, addr: nat, n: nat): (r: nat)
    requires ls > 0
    ensures n == 0 <==> r == 0
  {
    if n == 0 then 0
    else
      var first, last := LineIndex(ls, addr), LineIndex(ls, addr + n - 1);
      LineOrder(ls, addr, addr + n - 1);
      last - first + 1
  }

  /** The line that holds an address. */
  function LineIndex(ls: nat, addr: nat): (i: nat)
    requires ls > 0
    ensures LineStart(ls, i) <= addr < LineStart(ls, i) + ls
  {
    DivTimes(addr, ls);
    addr / ls
  }

  lemma LineOrder(ls: nat, a: nat, b: nat)
    requires ls > 0 && a <= b
    ensures LineIndex(ls, a) <= LineIndex(ls, b)
  {
    if LineIndex(ls, b) < LineIndex(ls, a) {
      TimesMono(LineIndex(ls, b), LineIndex(ls, a), ls);
    }
  }

  lemma LineIndexIs(ls: nat, i: nat, addr: nat)
    requires ls > 0 && LineStart(ls, i) <= addr < LineStart(ls, i) + ls
    ensures LineIndex(ls, addr) == i
  {
    TimesDiv(i, ls, addr - LineStart(ls, i));
  }

  /** Moving a range by whole lines does not change how many lines it touches. */
  lemma TouchedShift(ls: nat, first: nat, off: nat, n: nat)
    requires ls > 0
    ensures LinesTouched(ls, LineStart(ls, first) + off, n) == LinesTouched(ls, off, n)
  {
    if n > 0 {
      forall x | x in {off, off + n - 1}
        ensures LineIndex(ls, LineStart(ls, first) + x) == first + LineIndex(ls, x)
      {
        TimesAdd(first, LineIndex(ls, x), ls);
        LineIndexIs(ls, first + LineIndex(ls, x), LineStart(ls, first) + x);
      }
    }
  }

  /** Splitting a range at a line boundary splits the lines it touches. */
  lemma TouchedSplit(ls: nat, addr: nat, a: nat, b: nat, line: nat)
    requires ls > 0 && (a == 0 || b == 0 || addr + a == LineStart(ls, line))
    ensures LinesTouched(ls, addr, a + b) == LinesTouched(ls, addr, a) + LinesTouched(ls, addr + a, b)
  {
    if a > 0 && b > 0 {
      LineIndexIs(ls, line, addr + a);
      TimesMono(0, line, ls);
      LineIndexIs(ls, line - 1, addr + a - 1);
    }
  }

  /** Every line of `img` is the corresponding line of one of the images in `sources`. */
  ghost predicate LinesFrom(ls: nat, count: nat, img: seq<Byte>, sources: set<seq<Byte>>) {
    && IsImage(ls, count, img)
    && (forall s :: s in sources ==> IsImage(ls, count, s))
    && (forall i :: 0 <= i < count ==> LineIn(ls, count, img, sources, i))
  }

  ghost predicate LineIn(ls: nat, count: nat, img: seq<Byte>, sources: set<seq<Byte>>, i: nat)
    requires IsImage(ls, count, img) && i < count
    requires forall s :: s in sources ==> IsImage(ls, count, s)
  {
    exists s :: s in sources && LineOf(ls, count, img, i) == LineOf(ls, count, s, i)
  }

  lemma LinesFromSelf(ls: nat, count: nat, img: seq<Byte>, sources: set<seq<Byte>>)
    requires forall s :: s in sources ==> IsImage(ls, count, s)
    requires img in sources
    ensures LinesFrom(ls, count, img, sources)
  {
  }

  /** A mixture of copies of one image is that image. */
  lemma LinesFromOne(ls: nat, count: nat, img: seq<Byte>, sources: set<seq<Byte>>, only: seq<Byte>)
    requires LinesFrom(ls, count, img, sources) && IsImage(ls, count, only)
    requires forall s :: s in sources ==> s == only
    ensures img == only
  {
    forall i | 0 <= i < count
      ensures LineOf(ls, count, img, i) == LineOf(ls, count, only, i)
    {
      assert LineIn(ls, count, img, sources, i);
    }
    SameLines(ls, count, img, only);
  }

  /** Mixing images that are themselves mixtures stays within the original images. */
  lemma LinesFromTrans(ls: nat, count: nat, img: seq<Byte>, mid: set<seq<Byte>>, sources: set<seq<Byte>>)
    requires forall s :: s in sources ==> IsImage(ls, count, s)
    requires forall m :: m in mid ==> LinesFrom(ls, count, m, sources)
    requires LinesFrom(ls, count, img, mid)
    ensures LinesFrom(ls, count, img, sources)
  {
    forall i | 0 <= i < count
      ensures LineIn(ls, count, img, sources, i)
    {
      assert LineIn(ls, count, img, mid, i);
      var m :| m in mid && LineOf(ls, count, img, i) == LineOf(ls, count, m, i);
      assert LineIn(ls, count, m, sources, i);
    }
  }

  /** A byte of a mixed image comes from the same position of one of its sources. */
  lemma ByteFrom(ls: nat, count: nat, img: seq<Byte>, sources: set<seq<Byte>>, x: nat) returns (s: seq<Byte>)
    requires LinesFrom(ls, count, img, sources) && x < |img| && ls > 0
    ensures s in sources && |s| == |img| && img[x] == s[x]
  {
    DivTimes(x, ls);
    var i, r := x / ls, x % ls;
    if count <= i {
      if count < i {
        TimesMono(count, i, ls);
      }
      assert false;
    }
    LineFits(ls, count, i);
    assert LineIn(ls, count, img, sources, i);
    s :| s in sources && LineOf(ls, count, img, i) == LineOf(ls, count, s, i);
    assert img[x] == LineOf(ls, count, img, i)[r] && s[x] == LineOf(ls, count, s, i)[r];
  }

  /** An interrupted update: every line is the old one or the updated one. */
  ghost predicate TornUpdate(ls: nat, count: nat, before: seq<Byte>, after: seq<Byte>, at: nat, data: seq<Byte>)
    requires at + |data| <= |before|
  {
    LinesFrom(ls, count, after, {before, Splice(before, at, data)})
  }

  /** Bytes outside the updated range keep their value. */
  lemma TornOutside(ls: nat, count: nat, before: seq<Byte>, after: seq<Byte>, at: nat, data: seq<Byte>)
    requires ls > 0 && at + |data| <= |before| && TornUpdate(ls, count, before, after, at, data)
    ensures |after| == |before|
    ensures after[..at] == before[..at] && after[at + |data|..] == before[at + |data|..]
  {
    forall x | 0 <= x < |before| && !(at <= x < at + |data|)
      ensures after[x] == before[x]
    {
      var s := ByteFrom(ls, count, after, {before, Splice(before, at, data)}, x);
    }
  }

  /** An update inside a single line is atomic. */
  lemma TornInLine(ls: nat, count: nat, before: seq<Byte>, after: seq<Byte>, at: nat, data: seq<Byte>, line: nat)
    requires at + |data| <= |before| && TornUpdate(ls, count, before, after, at, data)
    requires line < count && LineStart(ls, line) <= at && at + |data| <= LineStart(ls, line) + ls
    ensures after == before || after == Splice(before, at, data)
  {
    var target := Splice(before, at, data);
    forall i | 0 <= i < count && i != line
      ensures LineOf(ls, count, after, i) == LineOf(ls, count, before, i) == LineOf(ls, count, target, i)
    {
      assert LineIn(ls, count, after, {before, target}, i);
      LineFits(ls, count, i);
      if i < line {
        TimesMono(i, line, ls);
      } else {
        TimesMono(line, i, ls);
      }
      SpliceOutside(before, at, data, LineStart(ls, i), LineStart(ls, i) + ls);
    }
    assert LineIn(ls, count, after, {before, target}, line);
    if LineOf(ls, count, after, line) == LineOf(ls, count, before, line) {
      SameLines(ls, count, after, before);
    } else {
      SameLines(ls, count, after, target);
    }
  }
}
