/** WHERE conditions on whole tables: laws of AND, OR and NOT on the rows kept, and what becomes of
    those words in another case, which the lexer takes for the same keywords and the evaluator does
    not. */
module Conditions {
  import opened Ast
  import opened Expressions
  import opened KeyOrder
  import opened NormalForms
  import opened Options
  import opened Plans
  import opened Printing
  import opened PrintStatements
  import opened Lexing
  import opened Queries
  import opened Rows
  import opened SortOrder
  import opened Spoken
  import Tokens

  /** Conditions that hold of the same rows keep the same list of rows. */
  lemma {:induction false} KeptSame(stod: Stod, c: Expr, d: Expr, rows: seq<Row>)
    requires forall row :: row in rows ==> Evaluate(stod, c, row) == Evaluate(stod, d, row)
    ensures Kept(stod, c, rows) == Kept(stod, d, rows)
  {
    hide Evaluate;
    if rows != [] {
      assert rows[0] in rows && forall row :: row in rows[1..] ==> row in rows;
      KeptSame(stod, c, d, rows[1..]);
    }
  }

  /** On any table De Morgan, absorption and commutativity hold of the lists of rows kept. */
  lemma KeptLaws(stod: Stod, a: Expr, b: Expr, rows: seq<Row>)
    ensures Kept(stod, Unary("NOT", Binary("AND", a, b)), rows) ==
            Kept(stod, Binary("OR", Unary("NOT", a), Unary("NOT", b)), rows)
    ensures Kept(stod, Binary("AND", a, Binary("OR", a, b)), rows) == Kept(stod, a, rows)
    ensures Kept(stod, Binary("OR", a, Binary("AND", a, b)), rows) == Kept(stod, a, rows)
    ensures Kept(stod, Binary("AND", a, b), rows) == Kept(stod, Binary("AND", b, a), rows)
  {
    hide Kept, Evaluate;
    forall row | row in rows
      ensures Evaluate(stod, Unary("NOT", Binary("AND", a, b)), row)
           == Evaluate(stod, Binary("OR", Unary("NOT", a), Unary("NOT", b)), row)
      ensures Evaluate(stod, Binary("AND", a, Binary("OR", a, b)), row) == Evaluate(stod, a, row)
           == Evaluate(stod, Binary("OR", a, Binary("AND", a, b)), row)
      ensures Evaluate(stod, Binary("AND", a, b), row) == Evaluate(stod, Binary("AND", b, a), row)
    {
      BooleanLaws(stod, a, b, row);
    }
    KeptSame(stod, Unary("NOT", Binary("AND", a, b)), Binary("OR", Unary("NOT", a), Unary("NOT", b)), rows);
    KeptSame(stod, Binary("AND", a, Binary("OR", a, b)), a, rows);
    KeptSame(stod, Binary("OR", a, Binary("AND", a, b)), a, rows);
    KeptSame(stod, Binary("AND", a, b), Binary("AND", b, a), rows);
  }

  /** AND filters twice, and a condition and its NOT share the rows out between them. */
  lemma {:induction false} KeptSplits(stod: Stod, a: Expr, b: Expr, rows: seq<Row>)
    ensures Kept(stod, Binary("AND", a, b), rows) == Kept(stod, b, Kept(stod, a, rows))
    ensures multiset(Kept(stod, a, rows)) + multiset(Kept(stod, Unary("NOT", a), rows)) == multiset(rows)
  {
    hide Evaluate;
    if rows != [] {
      var row, rest := rows[0], rows[1..];
      KeptSplits(stod, a, b, rest);
      TwoParts(stod, a, b, row);
      assert rows == [row] + rest;
      if Evaluate(stod, a, row) {
        assert Kept(stod, a, rows)[1..] == Kept(stod, a, rest);
      }
    }
  }

  lemma TwoParts(stod: Stod, a: Expr, b: Expr, row: Row)
    ensures Evaluate(stod, Binary("AND", a, b), row) == (Evaluate(stod, a, row) && Evaluate(stod, b, row))
    ensures Evaluate(stod, Unary("NOT", a), row) == !Evaluate(stod, a, row)
  {
  }

  // ----- what a comparison says -----

  /** a stands to b as the operator asks. */
  predicate Stands(stod: Stod, a: string, op: string, b: string) {
    var cmp := CompareKeys(stod, a, b);
    match op
    case "=" => cmp == 0 && !NaNMeets(stod, a, b)
    case "!=" => cmp != 0 || NaNMeets(stod, a, b)
    case "<" => cmp < 0
    case ">" => cmp > 0
    case "<=" => cmp <= 0 && !NaNMeets(stod, a, b)
    case ">=" => cmp >= 0 && !NaNMeets(stod, a, b)
    case _ => false
  }

  const COMPARISONS := {"=", "!=", "<", ">", "<=", ">="}

  /** What a row holds in a column, the empty text if it has none. */
  function Held(row: Row, c: string): string {
    if c in row then row[c] else ""
  }

  lemma ValuesStand(stod: Stod, a: string, op: string, b: string)
    ensures CompareValues(stod, a, op, b) <==> Stands(stod, a, op, b)
  {
    hide Less, Rank;
    LessIsRank(a, b);
    LessIsRank(b, a);
  }

  /** A column compared with a literal, on either side, or with a column: the left value stands to
      the right one as the operator asks. A condition in the place of a value counts as the empty text. */
  lemma ComparisonHolds(stod: Stod, op: string, row: Row, t: string, c: string, kind: LiteralKind, v: string,
                        u: string, d: string, e: Expr)
    requires op in COMPARISONS && (e.Binary? || e.Unary?)
    ensures Evaluate(stod, Binary(op, ColumnRef(t, c), Literal(kind, v)), row) <==> Stands(stod, Held(row, c), op, v)
    ensures Evaluate(stod, Binary(op, Literal(kind, v), ColumnRef(t, c)), row) <==> Stands(stod, v, op, Held(row, c))
    ensures Evaluate(stod, Binary(op, ColumnRef(t, c), ColumnRef(u, d)), row) <==>
            Stands(stod, Held(row, c), op, Held(row, d))
    ensures Evaluate(stod, Binary(op, e, Literal(kind, v)), row) <==> Stands(stod, "", op, v)
  {
    hide CompareValues, Stands;
    ValuesStand(stod, "", op, v);
    ValuesStand(stod, Held(row, c), op, v);
    ValuesStand(stod, v, op, Held(row, c));
    ValuesStand(stod, Held(row, c), op, Held(row, d));
  }

  /** WHERE column op literal keeps exactly the rows whose column value is on that side, each as often
      as it was there. */
  lemma KeptComparison(stod: Stod, op: string, rows: seq<Row>, t: string, c: string, kind: LiteralKind, v: string)
    requires op in COMPARISONS
    ensures forall row ::
      multiset(Kept(stod, Binary(op, ColumnRef(t, c), Literal(kind, v)), rows))[row] ==
      if Stands(stod, Held(row, c), op, v) then multiset(rows)[row] else 0
  {
    hide Kept, Evaluate, Stands;
    forall row
      ensures multiset(Kept(stod, Binary(op, ColumnRef(t, c), Literal(kind, v)), rows))[row] ==
              if Stands(stod, Held(row, c), op, v) then multiset(rows)[row] else 0
    {
      KeptCount(stod, Binary(op, ColumnRef(t, c), Literal(kind, v)), rows, row);
      ComparisonHolds(stod, op, row, t, c, kind, v, t, c, Unary("NOT", ColumnRef(t, c)));
    }
  }

  /** As a condition of its own a literal holds iff its text is "true" or "1", so the keyword holds in
      small letters only; a column always holds. */
  lemma BareConditions(stod: Stod, kind: LiteralKind, v: string, t: string, c: string, rows: seq<Row>)
    ensures Kept(stod, Literal(kind, v), rows) == if v in {"true", "1"} then rows else []
    ensures Kept(stod, ColumnRef(t, c), rows) == rows
  {
    hide Kept;
    KeptAll(stod, ColumnRef(t, c), rows);
    if v in {"true", "1"} {
      KeptAll(stod, Literal(kind, v), rows);
    } else {
      KeptNone(stod, Literal(kind, v), rows);
    }
  }

  // ----- keywords in another case -----

  lemma {:induction false} KeptNone(stod: Stod, c: Expr, rows: seq<Row>)
    requires forall row :: !Evaluate(stod, c, row)
    ensures Kept(stod, c, rows) == []
  {
    hide Evaluate;
    if rows != [] {
      KeptNone(stod, c, rows[1..]);
    }
  }

  lemma {:induction false} KeptAll(stod: Stod, c: Expr, rows: seq<Row>)
    requires forall row :: Evaluate(stod, c, row)
    ensures Kept(stod, c, rows) == rows
  {
    hide Evaluate;
    if rows != [] {
      KeptAll(stod, c, rows[1..]);
    }
  }

  lemma NothingSorted(e: Engine, clauses: seq<OrderByClause>)
    requires SortWorks(e)
    ensures e.sort(clauses, []) == []
  {
    hide Before;
    assert StrictWeakOn(e.stod, clauses, []);
    assert IsSortOf(e.stod, clauses, [], e.sort(clauses, []));
    MultisetSize(e.sort(clauses, []), []);
  }

  lemma NothingLimited(n: int)
    ensures Limited([], n) == []
  {
  }

  /** A SELECT whose condition is put together with "and" or "or" has a text and is read from it, the
      word being a keyword in any case; but the evaluator knows only AND and OR, and so the answer is
      empty, whatever the table holds. */
  lemma LowerCaseFindsNothing(e: Engine, tables: Tables, q: SelectStatement)
    requires SortWorks(e) && q.table in tables && Writable(SelectStmt(q)) && SpokenStatement(SelectStmt(q))
    requires q.where_.Some? && q.where_.value.Binary?
    requires var op := q.where_.value.op;
      (Tokens.Upper(op) == "AND" || Tokens.Upper(op) == "OR") && op != "AND" && op != "OR"
    ensures Means(Render(PrintStatement(SelectStmt(q))), SelectStmt(q))
    ensures PhysicalRows(e, tables, BuildPhysical(SelectPlan(q))) == Some([])
  {
    hide Means, PhysicalRows, BuildPhysical, SelectPlan, Writable, SpokenStatement, SpokenExpr, Render,
      PrintStatement, Kept,
      Evaluate, Limited, Projected;
    SpokenMeans(SelectStmt(q));
    SelectIsPipeline(e, tables, q);
    forall row
      ensures !Evaluate(e.stod, q.where_.value, row)
    {
      OtherCase(q.where_.value.op);
      UnknownNeverHolds(e.stod, q.where_.value, row);
    }
    KeptNone(e.stod, q.where_.value, tables[q.table]);
    ProjectedNone(q.columns);
    NothingSorted(e, q.orderBy);
    if q.limit.Some? {
      NothingLimited(q.limit.value);
    }
  }

  lemma ProjectedNone(columns: seq<string>)
    ensures Projected(columns, []) == []
  {
  }

  lemma OtherCase(op: string)
    requires (Tokens.Upper(op) == "AND" || Tokens.Upper(op) == "OR") && op != "AND" && op != "OR"
    ensures !Known(op)
  {
    hide Tokens.Upper;
    SymbolsAreUpper();
  }

  /** And "not" in another case keeps every row. */
  lemma LowerCaseNotKeepsAll(e: Engine, q: SelectStatement, rows: seq<Row>)
    requires Writable(SelectStmt(q)) && SpokenStatement(SelectStmt(q))
    requires q.where_.Some? && q.where_.value.Unary? && q.where_.value.op != "NOT"
    ensures Means(Render(PrintStatement(SelectStmt(q))), SelectStmt(q)) && WhereRows(e, q, rows) == rows
  {
    hide Means, Writable, SpokenStatement, SpokenExpr, Render, PrintStatement, Kept;
    SpokenMeans(SelectStmt(q));
    KeptAll(e.stod, q.where_.value, rows);
  }
}
