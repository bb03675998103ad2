/** The write-back cache window laid over the stored image, and flushing it line by line. */
module CacheWindow {
  import opened Arith
  import opened Bytes
  import opened Lines

  /** Line `j` of a window. */
  function WinLine(ls: nat, win: seq<Byte>, j: nat): (r: seq<Byte>)
    requires LineStart(ls, j) + ls <= |win|
    ensures |r| == ls
  {
    win[LineStart(ls, j)..LineStart(ls, j) + ls]
  }

  /** A window of `lines` whole lines that starts at line `first` of a `count`-line image. */
  ghost predicate IsWindow(ls: nat, count: nat, first: nat, lines: nat, win: seq<Byte>) {
    first + lines <= count && |win| == LineStart(ls, lines)
  }

  lemma WindowFits(ls: nat, count: nat, first: nat, lines: nat)
    requires first + lines <= count
    ensures LineStart(ls, first) + LineStart(ls, lines) == LineStart(ls, first + lines) <= LineStart(ls, count)
  {
    TimesAdd(first, lines, ls);
    if first + lines < count {
      TimesMono(first + lines, count, ls);
    }
  }

  /** The stored image with the first `j` window lines written over it. */
  function FlushedTo(ls: nat, count: nat, stored: seq<Byte>, first: nat, lines: nat, win: seq<Byte>,
                     j: nat): (r: seq<Byte>)
    requires IsImage(ls, count, stored) && IsWindow(ls, count, first, lines, win) && j <= lines
    ensures IsImage(ls, count, r)
  {
    WindowFits(ls, count, first, lines);
    WindowFits(ls, lines, 0, j);
    Splice(stored, LineStart(ls, first), win[..LineStart(ls, j)])
  }

  /** The view a reader gets: the window on top of the stored image. */
  function Overlaid(ls: nat, count: nat, stored: seq<Byte>, first: nat, lines: nat, win: seq<Byte>): (r: seq<Byte>)
    requires IsImage(ls, count, stored) && IsWindow(ls, count, first, lines, win)
    ensures IsImage(ls, count, r)
  {
    WindowFits(ls, count, first, lines);
    Splice(stored, LineStart(ls, first), win)
  }

  lemma FlushedBounds(ls: nat, count: nat, stored: seq<Byte>, first: nat, lines: nat, win: seq<Byte>)
    requires IsImage(ls, count, stored) && IsWindow(ls, count, first, lines, win)
    ensures FlushedTo(ls, count, stored, first, lines, win, 0) == stored
    ensures FlushedTo(ls, count, stored, first, lines, win, lines) == Overlaid(ls, count, stored, first, lines, win)
  {
    WindowFits(ls, count, first, lines);
    assert win[..LineStart(ls, lines)] == win;
  }

  /** Appending window line `j` advances the flush by one line. */
  lemma FlushStep(ls: nat, count: nat, stored: seq<Byte>, first: nat, lines: nat, win: seq<Byte>, j: nat)
    requires IsImage(ls, count, stored) && IsWindow(ls, count, first, lines, win) && j < lines
    ensures LineStart(ls, j) + ls <= |win|
    ensures SetLine(ls, count, FlushedTo(ls, count, stored, first, lines, win, j), first + j, WinLine(ls, win, j))
         == FlushedTo(ls, count, stored, first, lines, win, j + 1)
  {
    LineFits(ls, lines, j);
    WindowFits(ls, count, first, lines);
    WindowFits(ls, count, first, j + 1);
    TimesAdd(first, j, ls);
    LineFits(ls, count, first + j);
    assert win[..LineStart(ls, j + 1)] == win[..LineStart(ls, j)] + WinLine(ls, win, j);
  }

  /** A clean line needs no append. */
  lemma FlushSkip(ls: nat, count: nat, stored: seq<Byte>, first: nat, lines: nat, win: seq<Byte>, j: nat)
    requires IsImage(ls, count, stored) && IsWindow(ls, count, first, lines, win) && j < lines
    requires LineStart(ls, j) + ls <= |win|
    requires WinLine(ls, win, j) == LineOf(ls, count, stored, first + j)
    ensures FlushedTo(ls, count, stored, first, lines, win, j + 1) == FlushedTo(ls, count, stored, first, lines, win, j)
  {
    hide SetLine, LineOf, Times, WinLine, Splice;
    FlushStep(ls, count, stored, first, lines, win, j);
    var before := FlushedTo(ls, count, stored, first, lines, win, j);
    var part := win[..LineStart(ls, j)];
    WindowFits(ls, lines, 0, j);
    OverlaidLine(ls, count, stored, first, j, part, first + j);
    forall i | 0 <= i < count
      ensures LineOf(ls, count, SetLine(ls, count, before, first + j, WinLine(ls, win, j)), i) ==
        LineOf(ls, count, before, i)
    {
      SetLineAt(ls, count, before, first + j, WinLine(ls, win, j), i);
    }
    SameLines(ls, count, SetLine(ls, count, before, first + j, WinLine(ls, win, j)), before);
  }

  /** A line lies in the window by address exactly when it does by index. */
  lemma LineInWindow(ls: nat, first: nat, lines: nat, i: nat)
    requires ls > 0
    ensures first <= i < first + lines <==>
      LineStart(ls, first) <= LineStart(ls, i) && LineStart(ls, i) + ls <= LineStart(ls, first) + LineStart(ls, lines)
    ensures first <= i ==> LineStart(ls, i) == LineStart(ls, first) + LineStart(ls, i - first)
  {
    TimesAdd(first, lines, ls);
    if i < first {
      TimesMono(i, first, ls);
    } else {
      TimesAdd(first, i - first, ls);
      if i < first + lines {
        TimesMono(i, first + lines, ls);
      } else if first + lines < i {
        TimesMono(first + lines, i, ls);
      }
    }
  }

  lemma OverlaidLine(ls: nat, count: nat, stored: seq<Byte>, first: nat, lines: nat, win: seq<Byte>, i: nat)
    requires IsImage(ls, count, stored) && IsWindow(ls, count, first, lines, win) && i < count
    ensures first <= i < first + lines ==> LineStart(ls, i - first) + ls <= |win|
    ensures LineOf(ls, count, Overlaid(ls, count, stored, first, lines, win), i) ==
      if first <= i < first + lines then WinLine(ls, win, i - first) else LineOf(ls, count, stored, i)
  {
    WindowFits(ls, count, first, lines);
    LineFits(ls, count, i);
    var at, a := LineStart(ls, first), LineStart(ls, i);
    if first <= i < first + lines {
      TimesAdd(first, i - first, ls);
      LineFits(ls, lines, i - first);
      SpliceInside(stored, at, win, a, a + ls);
    } else {
      if i < first {
        TimesMono(i, first, ls);
      } else if first + lines < i {
        TimesMono(first + lines, i, ls);
      }
      SpliceOutside(stored, at, win, a, a + ls);
    }
  }

  /** Interrupting a flush anywhere leaves each line at its stored or its staged value. */
  lemma FlushedMix(ls: nat, count: nat, stored: seq<Byte>, first: nat, lines: nat, win: seq<Byte>, j: nat)
    requires IsImage(ls, count, stored) && IsWindow(ls, count, first, lines, win) && j <= lines
    ensures LinesFrom(ls, count, FlushedTo(ls, count, stored, first, lines, win, j),
                      {stored, Overlaid(ls, count, stored, first, lines, win)})
  {
    var full := Overlaid(ls, count, stored, first, lines, win);
    WindowFits(ls, lines, 0, j);
    var part := win[..LineStart(ls, j)];
    var img := FlushedTo(ls, count, stored, first, lines, win, j);
    assert img == Overlaid(ls, count, stored, first, j, part);
    forall i | 0 <= i < count
      ensures LineIn(ls, count, img, {stored, full}, i)
    {
      OverlaidLine(ls, count, stored, first, lines, win, i);
      OverlaidLine(ls, count, stored, first, j, part, i);
      if first <= i < first + j {
        LineFits(ls, j, i - first);
        SliceOfSlice(win, 0, LineStart(ls, j), LineStart(ls, i - first), LineStart(ls, i - first) + ls);
        assert WinLine(ls, part, i - first) == WinLine(ls, win, i - first);
        assert LineOf(ls, count, img, i) == LineOf(ls, count, full, i);
      } else {
        assert LineOf(ls, count, img, i) == LineOf(ls, count, stored, i);
      }
    }
  }

  /** Window line `j` equals the image line it stands for. */
  ghost predicate ShownLine(ls: nat, count: nat, img: seq<Byte>, first: nat, lines: nat, win: seq<Byte>, j: nat)
    requires IsImage(ls, count, img) && IsWindow(ls, count, first, lines, win) && j < lines
  {
    LineFits(ls, lines, j);
    WinLine(ls, win, j) == LineOf(ls, count, img, first + j)
  }

  /** The whole window shows `img`. */
  ghost predicate Shows(ls: nat, count: nat, img: seq<Byte>, first: nat, lines: nat, win: seq<Byte>) {
    && IsImage(ls, count, img)
    && IsWindow(ls, count, first, lines, win)
    && forall j :: 0 <= j < lines ==> ShownLine(ls, count, img, first, lines, win, j)
  }

  /** Laying a window over an image that already contains it changes nothing. */
  lemma OverlaidShown(ls: nat, count: nat, img: seq<Byte>, first: nat, lines: nat, win: seq<Byte>)
    requires Shows(ls, count, img, first, lines, win)
    ensures Overlaid(ls, count, img, first, lines, win) == img
  {
    forall i | 0 <= i < count
      ensures LineOf(ls, count, Overlaid(ls, count, img, first, lines, win), i) == LineOf(ls, count, img, i)
    {
      OverlaidLine(ls, count, img, first, lines, win, i);
      if first <= i < first + lines {
        assert ShownLine(ls, count, img, first, lines, win, i - first);
      }
    }
    SameLines(ls, count, Overlaid(ls, count, img, first, lines, win), img);
  }

  /** A window laid over any image is shown by the result. */
  lemma OverlayShows(ls: nat, count: nat, img: seq<Byte>, first: nat, lines: nat, win: seq<Byte>)
    requires IsImage(ls, count, img) && IsWindow(ls, count, first, lines, win)
    ensures Shows(ls, count, Overlaid(ls, count, img, first, lines, win), first, lines, win)
  {
    forall j | 0 <= j < lines
      ensures ShownLine(ls, count, Overlaid(ls, count, img, first, lines, win), first, lines, win, j)
    {
      OverlaidLine(ls, count, img, first, lines, win, first + j);
    }
  }

  /** A partly flushed image agrees with the window on every line it agreed on before. */
  lemma FlushedShown(ls: nat, count: nat, stored: seq<Byte>, first: nat, lines: nat, win: seq<Byte>, j: nat, k: nat)
    requires IsImage(ls, count, stored) && IsWindow(ls, count, first, lines, win) && j <= lines && k < lines
    requires k < j || ShownLine(ls, count, stored, first, lines, win, k)
    ensures ShownLine(ls, count, FlushedTo(ls, count, stored, first, lines, win, j), first, lines, win, k)
  {
    WindowFits(ls, lines, 0, j);
    var part := win[..LineStart(ls, j)];
    OverlaidLine(ls, count, stored, first, j, part, first + k);
    if k < j {
      LineFits(ls, j, k);
      SliceOfSlice(win, 0, LineStart(ls, j), LineStart(ls, k), LineStart(ls, k) + ls);
    }
  }

  /** Flushing part of the window does not change what a reader sees. */
  lemma FlushedOverlay(ls: nat, count: nat, stored: seq<Byte>, first: nat, lines: nat, win: seq<Byte>, j: nat)
    requires IsImage(ls, count, stored) && IsWindow(ls, count, first, lines, win) && j <= lines
    ensures Overlaid(ls, count, FlushedTo(ls, count, stored, first, lines, win, j), first, lines, win)
         == Overlaid(ls, count, stored, first, lines, win)
  {
    WindowFits(ls, count, first, lines);
    WindowFits(ls, lines, 0, j);
  }

  lemma FlushSkipShown(ls: nat, count: nat, stored: seq<Byte>, first: nat, lines: nat, win: seq<Byte>, j: nat)
    requires IsImage(ls, count, stored) && IsWindow(ls, count, first, lines, win) && j < lines
    requires ShownLine(ls, count, stored, first, lines, win, j)
    ensures FlushedTo(ls, count, stored, first, lines, win, j + 1) == FlushedTo(ls, count, stored, first, lines, win, j)
  {
    LineFits(ls, lines, j);
    FlushSkip(ls, count, stored, first, lines, win, j);
  }

  // ----- Placing and filling a window

  /** Base of the cache-sized block that covers an address. */
  function WindowBase(addr: nat, cacheSize: nat): (r: nat)
    requires cacheSize > 0
    ensures Multiple(r, cacheSize) && r <= addr < r + cacheSize
  {
    DivTimes(addr, cacheSize);
    TimesIsProduct(addr / cacheSize, cacheSize);
    TimesMultiple(addr / cacheSize, cacheSize, cacheSize);
    addr / cacheSize * cacheSize
  }

  /** Size of the window at `base`: a whole cache, cut at the end of the logical space. */
  function WindowSize(base: nat, logicalSize: nat, cacheSize: nat): (r: nat)
    requires base <= logicalSize
  {
    if logicalSize - base > cacheSize then cacheSize else logicalSize - base
  }

  lemma MultipleIsLines(ls: nat, x: nat) returns (n: nat)
    requires ls > 0 && Multiple(x, ls)
    ensures LineStart(ls, n) == x
  {
    MultipleTimes(x, ls);
    n := x / ls;
  }

  lemma {:induction false} LinesMultiple(ls: nat, n: nat)
    requires ls > 0
    ensures Multiple(LineStart(ls, n), ls)
  {
    assert Multiple(ls, ls);
    TimesMultiple(n, ls, ls);
  }

  lemma LinesOrder(ls: nat, m: nat, n: nat)
    requires ls > 0 && LineStart(ls, m) <= LineStart(ls, n)
    ensures m <= n
  {
    if n < m {
      TimesMono(n, m, ls);
    }
  }

  /** A line-aligned window covers whole lines of the image and fits the buffers. */
  lemma WindowLines(ls: nat, count: nat, base: nat, cacheSize: nat, capacity: nat) returns (first: nat, lines: nat)
    requires ls > 0 && Multiple(base, ls) && Multiple(cacheSize, ls)
    requires base < LineStart(ls, count) && cacheSize <= LineStart(ls, capacity)
    ensures LineStart(ls, first) == base
    ensures LineStart(ls, lines) == WindowSize(base, LineStart(ls, count), cacheSize)
    ensures first + lines <= count
    ensures lines <= capacity
  {
    hide Multiple;
    LinesMultiple(ls, count);
    MultipleAdd(base, LineStart(ls, count) - base, ls);
    first := MultipleIsLines(ls, base);
    lines := MultipleIsLines(ls, WindowSize(base, LineStart(ls, count), cacheSize));
    TimesAdd(first, lines, ls);
    LinesOrder(ls, first + lines, count);
    LinesOrder(ls, lines, capacity);
  }

  /** Number of whole lines in `x` bytes. */
  method LineCount(x: nat, ls: nat, ghost n: nat) returns (r: nat)
    requires ls > 0 && x == LineStart(ls, n)
    ensures r == n
  {
    TimesDiv(n, ls, 0);
    r := x / ls;
  }

  /** Cache blocks are line aligned. */
  lemma {:induction false} WindowBaseAligned(ls: nat, cacheSize: nat, base: nat)
    requires ls > 0 && cacheSize > 0 && Multiple(cacheSize, ls) && Multiple(base, cacheSize)
    ensures Multiple(base, ls)
  {
    MultipleTimes(base, cacheSize);
    TimesMultiple(base / cacheSize, cacheSize, ls);
  }

  /** Filling window line `j` keeps the lines already filled. */
  lemma FillStep(ls: nat, count: nat, img: seq<Byte>, first: nat, lines: nat, win: seq<Byte>, win': seq<Byte>, j: nat,
                 data: seq<Byte>)
    requires IsImage(ls, count, img) && IsWindow(ls, count, first, lines, win) && j < lines
    requires forall k :: 0 <= k < j ==> ShownLine(ls, count, img, first, lines, win, k)
    requires |data| == ls && data == LineOf(ls, count, img, first + j)
    requires LineStart(ls, j) + ls <= |win| && win' == Splice(win, LineStart(ls, j), data)
    ensures forall k :: 0 <= k < j + 1 ==> ShownLine(ls, count, img, first, lines, win', k)
  {
    var at := LineStart(ls, j);
    forall k | 0 <= k < j + 1
      ensures ShownLine(ls, count, img, first, lines, win', k)
    {
      LineFits(ls, lines, k);
      if k < j {
        assert ShownLine(ls, count, img, first, lines, win, k);
        TimesMono(k, j, ls);
        SpliceOutside(win, at, data, LineStart(ls, k), LineStart(ls, k) + ls);
      } else {
        SpliceInside(win, at, data, at, at + ls);
      }
    }
  }

  // ----- Staging bytes

  /** Bytes `[off, off + n)` do not touch window line `j`. */
  ghost predicate Apart(ls: nat, j: nat, off: nat, n: nat) {
    LineStart(ls, j) + ls <= off || off + n <= LineStart(ls, j)
  }

  lemma StageKeeps(ls: nat, count: nat, img: seq<Byte>, first: nat, lines: nat, win: seq<Byte>, off: nat,
                   chunk: seq<Byte>, j: nat)
    requires IsImage(ls, count, img) && IsWindow(ls, count, first, lines, win) && j < lines
    requires off + |chunk| <= |win| && Apart(ls, j, off, |chunk|)
    requires ShownLine(ls, count, img, first, lines, win, j)
    ensures ShownLine(ls, count, img, first, lines, Splice(win, off, chunk), j)
  {
    LineFits(ls, lines, j);
    SpliceOutside(win, off, chunk, LineStart(ls, j), LineStart(ls, j) + ls);
  }

  /** Staging a chunk in the window is writing it into the reader's view. */
  lemma StageView(ls: nat, count: nat, img: seq<Byte>, first: nat, lines: nat, win: seq<Byte>, off: nat,
                  chunk: seq<Byte>)
    requires IsImage(ls, count, img) && IsWindow(ls, count, first, lines, win) && off + |chunk| <= |win|
    ensures LineStart(ls, first) + off + |chunk| <= |img|
    ensures Overlaid(ls, count, img, first, lines, Splice(win, off, chunk))
         == Splice(Overlaid(ls, count, img, first, lines, win), LineStart(ls, first) + off, chunk)
  {
    WindowFits(ls, count, first, lines);
  }

  /** A line and an offset inside it for one address. */
  method LineAt(addr: nat, ls: nat) returns (line: nat, offset: nat)
    requires ls > 0
    ensures LineStart(ls, line) + offset == addr && offset < ls
  {
    DivTimes(addr, ls);
    line, offset := addr / ls, addr % ls;
  }

  /** Lines that a non-empty byte range of a window touches lie between its first and last one. */
  lemma TouchedLines(ls: nat, lines: nat, off: nat, n: nat, first: nat, last: nat)
    requires ls > 0 && n > 0 && off + n <= LineStart(ls, lines)
    requires LineStart(ls, first) <= off < LineStart(ls, first) + ls
    requires LineStart(ls, last) <= off + n - 1 < LineStart(ls, last) + ls
    ensures first <= last < lines
    ensures forall j: nat :: Apart(ls, j, off, n) <==> j < first || last < j
  {
    if last < first {
      TimesMono(last, first, ls);
    }
    if lines <= last {
      if lines < last {
        TimesMono(lines, last, ls);
      }
    }
    forall j: nat
      ensures Apart(ls, j, off, n) <==> j < first || last < j
    {
      if j < first {
        TimesMono(j, first, ls);
      } else if first < j {
        TimesMono(first, j, ls);
      }
      if j < last {
        TimesMono(j, last, ls);
      } else if last < j {
        TimesMono(last, j, ls);
      }
    }
  }

  // ----- Writes that span windows

  /** Writing a longer prefix of the data on top of a shorter one. */
  lemma WriteMore(img: seq<Byte>, addr: nat, data: seq<Byte>, k: nat, n: nat)
    requires addr + |data| <= |img| && k + n <= |data|
    ensures Splice(Splice(img, addr, data[..k]), addr + k, data[k..k + n]) == Splice(img, addr, data[..k + n])
  {
  }

  lemma WriteNothing(img: seq<Byte>, addr: nat, data: seq<Byte>)
    requires addr + |data| <= |img|
    ensures Splice(img, addr, data[..0]) == img
    ensures Splice(img, addr, data[..|data|]) == Splice(img, addr, data)
  {
    assert data[..|data|] == data;
  }

  /** A write that stopped at a line boundary has whole old lines and whole new lines only. */
  lemma WritePrefixMix(ls: nat, count: nat, img: seq<Byte>, addr: nat, data: seq<Byte>, k: nat, line: nat)
    requires IsImage(ls, count, img) && addr + |data| <= |img| && k <= |data|
    requires k == 0 || k == |data| || addr + k == LineStart(ls, line)
    ensures LinesFrom(ls, count, Splice(img, addr, data[..k]), {img, Splice(img, addr, data)})
  {
    hide LineOf;
    WriteNothing(img, addr, data);
    var part, full := Splice(img, addr, data[..k]), Splice(img, addr, data);
    if k == 0 || k == |data| {
      LinesFromSelf(ls, count, part, {img, full});
    } else {
      forall i | 0 <= i < count
        ensures LineIn(ls, count, part, {img, full}, i)
      {
        WriteLine(ls, count, img, addr, data, k, line, i);
      }
    }
  }

  /** One more staged chunk: the view holds a longer prefix of the data, still in whole old and new lines. */
  lemma WriteOn(ls: nat, count: nat, img: seq<Byte>, addr: nat, data: seq<Byte>, done: nat, chunk: nat, line: nat,
                sources: set<seq<Byte>>)
    requires IsImage(ls, count, img) && addr + |data| <= |img| && done + chunk <= |data|
    requires done + chunk == |data| || addr + done + chunk == LineStart(ls, line)
    requires img in sources && Splice(img, addr, data) in sources
    requires forall s :: s in sources ==> IsImage(ls, count, s)
    ensures Splice(Splice(img, addr, data[..done]), addr + done, data[done..][..chunk]) ==
      Splice(img, addr, data[..done + chunk])
    ensures LinesFrom(ls, count, Splice(img, addr, data[..done + chunk]), sources)
  {
    hide LinesFrom;
    assert data[done..][..chunk] == data[done..done + chunk];
    WriteMore(img, addr, data, done, chunk);
    WritePrefixMix(ls, count, img, addr, data, done + chunk, line);
    LinesFromSelf(ls, count, img, sources);
    LinesFromSelf(ls, count, Splice(img, addr, data), sources);
    LinesFromTrans(ls, count, Splice(img, addr, data[..done + chunk]), {img, Splice(img, addr, data)}, sources);
  }

  lemma WriteLine(ls: nat, count: nat, img: seq<Byte>, addr: nat, data: seq<Byte>, k: nat, line: nat, i: nat)
    requires IsImage(ls, count, img) && addr + |data| <= |img| && k <= |data| && i < count
    requires addr + k == LineStart(ls, line)
    ensures LineOf(ls, count, Splice(img, addr, data[..k]), i) in
      {LineOf(ls, count, img, i), LineOf(ls, count, Splice(img, addr, data), i)}
  {
    var part, full, at := Splice(img, addr, data[..k]), Splice(img, addr, data), LineStart(ls, i);
    LineFits(ls, count, i);
    if i < line {
      TimesMono(i, line, ls);
      assert part[at..at + ls] == full[at..at + ls];
    } else {
      if line < i {
        TimesMono(line, i, ls);
      }
      SpliceOutside(img, addr, data[..k], at, at + ls);
    }
  }

  // ----- Reading bytes

  lemma LineInRange(ls: nat, count: nat, line: nat, offset: nat)
    requires LineStart(ls, line) + offset < LineStart(ls, count)
    ensures line < count
  {
    if count < line {
      TimesMono(count, line, ls);
    }
  }

  /** Bytes inside one line of an image. */
  lemma LineChunk(ls: nat, count: nat, img: seq<Byte>, line: nat, offset: nat, n: nat)
    requires IsImage(ls, count, img) && line < count && offset + n <= ls
    ensures LineStart(ls, line) + offset + n <= |img|
    ensures LineOf(ls, count, img, line)[offset..offset + n] ==
      img[LineStart(ls, line) + offset..LineStart(ls, line) + offset + n]
  {
    LineFits(ls, count, line);
    SliceOfSlice(img, LineStart(ls, line), LineStart(ls, line) + ls, offset, offset + n);
  }

  lemma SliceJoin<T>(s: seq<T>, a: nat, b: nat, c: nat)
    requires a <= b <= c <= |s|
    ensures s[a..b] + s[b..c] == s[a..c]
  {
  }

  /** Inside the window the reader's view is the window. */
  lemma OverlaidBytes(ls: nat, count: nat, img: seq<Byte>, first: nat, lines: nat, win: seq<Byte>, offset: nat, n: nat)
    requires IsImage(ls, count, img) && IsWindow(ls, count, first, lines, win) && offset + n <= |win|
    ensures LineStart(ls, first) + offset + n <= |img|
    ensures Overlaid(ls, count, img, first, lines, win)[
              LineStart(ls, first) + offset..LineStart(ls, first) + offset + n]
         == win[offset..offset + n]
  {
    WindowFits(ls, count, first, lines);
    SpliceInside(img, LineStart(ls, first), win, LineStart(ls, first) + offset, LineStart(ls, first) + offset + n);
  }
}
