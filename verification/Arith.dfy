/** Products, multiples and division with a symbolic factor, in a form that unfolds one step at a time. */
module Arith {

  /** `k * m` as repeated addition. */
  function Times(k: nat, m: nat): nat {
    if k == 0 then 0 else Times(k - 1, m) + m
  }

  lemma {:induction false} TimesIsProduct(k: nat, m: nat)
    ensures Times(k, m) == k * m
  {
    if k != 0 {
      TimesIsProduct(k - 1, m);
    }
  }

  lemma {:induction false} TimesMono(j: nat, k: nat, m: nat)
    requires j < k
    ensures Times(j, m) + m <= Times(k, m)
  {
    if j < k - 1 {
      TimesMono(j, k - 1, m);
    }
  }

  lemma {:induction false} TimesAdd(j: nat, k: nat, m: nat)
    ensures Times(j + k, m) == Times(j, m) + Times(k, m)
  {
    if k != 0 {
      TimesAdd(j, k - 1, m);
    }
  }

  /** `x` is a multiple of `m`. */
  predicate Multiple(x: nat, m: nat)
    requires m > 0
  {
    x == 0 || (x >= m && Multiple(x - m, m))
  }

  lemma {:induction false} MultipleAdd(x: nat, y: nat, m: nat)
    requires m > 0 && Multiple(x, m)
    ensures Multiple(y, m) <==> Multiple(x + y, m)
  {
    if x != 0 {
      MultipleAdd(x - m, y, m);
    }
  }

  lemma {:induction false} TimesMultiple(k: nat, m: nat, d: nat)
    requires d > 0 && Multiple(m, d)
    ensures Multiple(Times(k, m), d)
  {
    if k != 0 {
      TimesMultiple(k - 1, m, d);
      MultipleAdd(Times(k - 1, m), m, d);
    }
  }

  lemma MulMono(x: int, y: int, m: int)
    requires x <= y && m >= 0
    ensures x * m <= y * m
  {
    assert (y - x) * m >= 0;
    assert (y - x) * m == y * m - x * m;
  }

  lemma DivUnique(q: int, m: int, r: int)
    requires m > 0 && 0 <= r < m
    ensures (q * m + r) / m == q && (q * m + r) % m == r
  {
    var a := q * m + r;
    var q' := a / m;
    assert a == m * q' + a % m;
    if q < q' {
      MulMono(q + 1, q', m);
    } else if q' < q {
      MulMono(q' + 1, q, m);
    }
  }

  /** Division and remainder of an address that lies `r` bytes into block `q`. */
  lemma {:induction false} TimesDiv(q: nat, m: nat, r: nat)
    requires r < m
    ensures (Times(q, m) + r) / m == q && (Times(q, m) + r) % m == r
  {
    TimesIsProduct(q, m);
    DivUnique(q, m, r);
  }

  lemma {:induction false} DivTimes(x: nat, m: nat)
    requires m > 0
    ensures Times(x / m, m) + x % m == x && x % m < m
  {
    TimesIsProduct(x / m, m);
  }

  lemma {:induction false} MultipleTimes(x: nat, m: nat)
    requires m > 0 && Multiple(x, m)
    ensures x % m == 0 && Times(x / m, m) == x
  {
    if x != 0 {
      MultipleTimes(x - m, m);
      TimesDiv((x - m) / m + 1, m, 0);
    }
  }

  lemma {:induction false} ModMultiple(x: nat, m: nat)
    requires m > 0 && x % m == 0
    ensures Multiple(x, m)
  {
    if x != 0 {
      DivTimes(x, m);
      assert x / m != 0;
      TimesDiv(x / m - 1, m, 0);
      ModMultiple(x - m, m);
    }
  }

  /** Start of the `m`-sized block that holds `x`. */
  function BlockStart(x: nat, m: nat): (r: nat)
    requires m > 0
    ensures Multiple(r, m) && r <= x < r + m
  {
    DivTimes(x, m);
    TimesMultiple(x / m, m, m);
    x - x % m
  }

  function AlignUp(value: nat, align: nat): (r: nat)
    requires align > 0
    ensures Multiple(r, align) && value <= r < value + align
  {
    DivTimes(value + align - 1, align);
    TimesIsProduct((value + align - 1) / align, align);
    TimesMultiple((value + align - 1) / align, align, align);
    (value + align - 1) / align * align
  }

  /** The blocks that cover `[x, x + n)` lie between two block boundaries that enclose it. */
  lemma {:induction false} BlocksInside(lo: nat, x: nat, n: nat, hi: nat, at: nat, size: nat, m: nat)
    requires m > 0 && Multiple(lo, m) && Multiple(hi, m) && lo <= x && x + n <= hi
    requires Multiple(at, m) && at <= x < at + m
    requires Multiple(size, m) && x - at + n <= size < x - at + n + m
    ensures lo <= at && x + n <= at + size <= hi
  {
    hide Multiple;
    NextMultiple(lo, at, m);
    MultipleAdd(at, size, m);
    NextMultiple(at + size, hi, m);
  }

  /** A multiple that is less than one unit above another one does not exceed it. */
  lemma {:induction false} NextMultiple(x: nat, y: nat, m: nat)
    requires m > 0 && Multiple(x, m) && Multiple(y, m) && x < y + m
    ensures x <= y
  {
    hide Multiple, Times;
    MultipleTimes(x, m);
    MultipleTimes(y, m);
    if y / m < x / m {
      TimesMono(y / m, x / m, m);
    } else if x / m < y / m {
      TimesMono(x / m, y / m, m);
    }
  }

  lemma {:induction false} MultipleIsMod(x: nat, m: nat)
    requires m > 0
    ensures Multiple(x, m) <==> x % m == 0
  {
    if Multiple(x, m) {
      MultipleTimes(x, m);
    }
    if x % m == 0 {
      ModMultiple(x, m);
    }
  }
}
