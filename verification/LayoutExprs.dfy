/** Layout expressions the generator emits for conditional tables, and what they evaluate to in each build. */
module LayoutExprs {
  import opened SchemaRows

  /** What an expression adds up over rows. */
  datatype Measure = CountOf(width: Width) | CountAll | PoolBytes

  predicate Selects(m: Measure, row: Row) {
    match m
    case CountOf(w) => WidthOf(row.kind) == w
    case CountAll => true
    case PoolBytes => WidthOf(row.kind) == Object
  }

  function Weight(m: Measure, row: Row): nat {
    if !Selects(m, row) then 0 else if m == PoolBytes then row.capacity else 1
  }

  /** Sum of a measure over compiled rows: what a scan over the table accumulates. */
  function Total(m: Measure, rows: seq<Row>): nat {
    if |rows| == 0 then 0 else Total(m, rows[..|rows| - 1]) + Weight(m, rows[|rows| - 1])
  }

  /** `base` plus `weight` for every listed row whose enable flag is set. */
  datatype Expr = Expr(base: nat, terms: seq<Term>)
  datatype Term = Term(row: nat, weight: nat)

  ghost predicate InTable(e: Expr, size: nat) {
    forall i :: 0 <= i < |e.terms| ==> e.terms[i].row < size
  }

  function EvalTerms(terms: seq<Term>, on: seq<bool>): nat
    requires forall i :: 0 <= i < |terms| ==> terms[i].row < |on|
  {
    if |terms| == 0 then 0
    else
      var t := terms[|terms| - 1];
      EvalTerms(terms[..|terms| - 1], on) + if on[t.row] then t.weight else 0
  }

  function Eval(e: Expr, on: seq<bool>): nat
    requires InTable(e, |on|)
  {
    e.base + EvalTerms(e.terms, on)
  }

  /** Expression for all rows: unconditional ones are folded into the constant. */
  function ExprOf(rows: seq<Row>, m: Measure): (e: Expr)
    ensures InTable(e, |rows|)
  {
    if |rows| == 0 then Expr(0, [])
    else
      var n := |rows| - 1;
      AddRow(ExprOf(rows[..n], m), n, rows[n], m)
  }

  function AddRow(e: Expr, at: nat, row: Row, m: Measure): Expr {
    if !Selects(m, row) then e
    else if row.conditional then Expr(e.base, e.terms + [Term(at, Weight(m, row))])
    else Expr(e.base + Weight(m, row), e.terms)
  }

  /** The generator's loop. */
  method BuildExpr(rows: seq<Row>, m: Measure) returns (e: Expr)
    ensures e == ExprOf(rows, m)
  {
    var base: nat, terms: seq<Term> := 0, [];
    var i: nat := 0;
    while i < |rows|
      invariant i <= |rows| && Expr(base, terms) == ExprOf(rows[..i], m)
    {
      assert rows[..i + 1][..i] == rows[..i];
      if Selects(m, rows[i]) {
        if rows[i].conditional {
          terms := terms + [Term(i, Weight(m, rows[i]))];
        } else {
          base := base + Weight(m, rows[i]);
        }
      }
      i := i + 1;
    }
    assert rows[..i] == rows;
    e := Expr(base, terms);
  }

  /** Position of a row, as the generator looks it up by value. */
  method IndexOf(rows: seq<Row>, row: Row) returns (k: nat)
    requires row in rows
    ensures k < |rows| && rows[k] == row
    ensures DistinctEnums(rows) ==> forall i :: 0 <= i < |rows| && rows[i] == row ==> i == k
  {
    k := 0;
    while rows[k] != row
      invariant k < |rows| && row !in rows[..k]
      decreases |rows| - k
    {
      k := k + 1;
    }
  }

  /** Expression over the rows in front of `row`. */
  method PriorExpr(rows: seq<Row>, row: Row, m: Measure) returns (e: Expr)
    requires row in rows && DistinctEnums(rows)
    ensures forall k :: 0 <= k < |rows| && rows[k] == row ==> e == ExprOf(rows[..k], m)
  {
    var at := IndexOf(rows, row);
    e := BuildExpr(rows[..at], m);
  }

  // ----- Meaning

  lemma {:induction false} EvalTermsPrefix(terms: seq<Term>, on: seq<bool>, n: nat)
    requires n <= |on| && forall i :: 0 <= i < |terms| ==> terms[i].row < n
    ensures EvalTerms(terms, on) == EvalTerms(terms, on[..n])
  {
    if |terms| != 0 {
      EvalTermsPrefix(terms[..|terms| - 1], on, n);
    }
  }

  lemma {:induction false} EvalAppend(terms: seq<Term>, t: Term, on: seq<bool>)
    requires t.row < |on| && forall i :: 0 <= i < |terms| ==> terms[i].row < |on|
    ensures EvalTerms(terms + [t], on) == EvalTerms(terms, on) + if on[t.row] then t.weight else 0
  {
    assert (terms + [t])[..|terms|] == terms;
  }

  lemma {:induction false} TotalAppend(m: Measure, rows: seq<Row>, row: Row)
    ensures Total(m, rows + [row]) == Total(m, rows) + Weight(m, row)
  {
    assert (rows + [row])[..|rows|] == rows;
  }

  /** Adding one row to an expression adds its weight in exactly the builds that compile it. */
  lemma AddRowMeaning(e: Expr, row: Row, m: Measure, on: seq<bool>, n: nat)
    requires InTable(e, n) && |on| == n + 1 && (!row.conditional ==> on[n])
    ensures InTable(AddRow(e, n, row, m), n + 1)
    ensures Eval(AddRow(e, n, row, m), on) == Eval(e, on[..n]) + if on[n] then Weight(m, row) else 0
  {
    EvalTermsPrefix(e.terms, on, n);
    EvalAppend(e.terms, Term(n, Weight(m, row)), on);
  }

  lemma {:induction false} TotalCompiled(m: Measure, rows: seq<Row>, on: seq<bool>, n: nat)
    requires |rows| == |on| == n + 1
    ensures Total(m, Compiled(rows, on)) ==
      Total(m, Compiled(rows[..n], on[..n])) + if on[n] then Weight(m, rows[n]) else 0
  {
    var front := Compiled(rows[..n], on[..n]);
    TotalAppend(m, front, rows[n]);
    assert front + [] == front;
  }

  /** In every build an expression equals the same sum over the rows that build compiles. */
  lemma {:induction false} ExprMeaning(rows: seq<Row>, m: Measure, on: seq<bool>)
    requires Assignment(rows, on)
    ensures Eval(ExprOf(rows, m), on) == Total(m, Compiled(rows, on))
  {
    if |rows| != 0 {
      hide Eval, Total, Compiled, Weight, AddRow;
      var n := |rows| - 1;
      ExprMeaning(rows[..n], m, on[..n]);
      AddRowMeaning(ExprOf(rows[..n], m), rows[n], m, on, n);
      TotalCompiled(m, rows, on, n);
    }
  }

  /** The prior expression of a compiled row is the sum over the compiled rows in front of it. */
  lemma {:induction false} PriorMeaning(rows: seq<Row>, m: Measure, on: seq<bool>, k: nat)
    requires Assignment(rows, on) && k < |rows| && on[k]
    ensures var c, j := Compiled(rows, on), CountOn(on[..k]);
      && j < |c| && c[j] == rows[k]
      && InTable(ExprOf(rows[..k], m), |on|)
      && Eval(ExprOf(rows[..k], m), on) == Total(m, c[..j])
  {
    CompiledAt(rows, on, k);
    ExprMeaning(rows[..k], m, on[..k]);
    EvalTermsPrefix(ExprOf(rows[..k], m).terms, on, k);
  }

  /** The compiled-index expression is the enum value of the row. */
  lemma {:induction false} CountAllIsLength(rows: seq<Row>)
    ensures Total(CountAll, rows) == |rows|
  {
    if |rows| != 0 {
      CountAllIsLength(rows[..|rows| - 1]);
    }
  }
}
