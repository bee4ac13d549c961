/** Evaluation of expressions on a row. std::stod is a parameter: it reads a number from some
    texts and throws on the others. */
module Expressions {
  import opened Ast
  import opened KeyOrder
  import opened Options
  import opened Rows

  /** A double: not a number, or a place on the number line (the infinities at its ends). */
  datatype Number = NaN | At(pos: real)

  type Stod = string -> Option<Number>

  function ResolveExpr(e: Expr, row: Row): string {
    match e
    case Literal(_, value) => value
    case ColumnRef(_, column) => if column in row then row[column] else ""
    case Binary(_, _, _) => ""
    case Unary(_, _) => ""
  }

  function CompareNumbers(l: Number, op: string, r: Number): bool {
    if op == "=" then l.At? && l == r
    else if op == "!=" then !(l.At? && l == r)
    else if op == "<" then l.At? && r.At? && l.pos < r.pos
    else if op == ">" then l.At? && r.At? && l.pos > r.pos
    else if op == "<=" then l.At? && r.At? && l.pos <= r.pos
    else if op == ">=" then l.At? && r.At? && l.pos >= r.pos
    else false
  }

  function CompareTexts(l: string, op: string, r: string): bool {
    if op == "=" then l == r
    else if op == "!=" then l != r
    else if op == "<" then Less(l, r)
    else if op == ">" then Less(r, l)
    else if op == "<=" then !Less(r, l)
    else if op == ">=" then !Less(l, r)
    else false
  }

  /** As numbers when both sides read as numbers, otherwise as texts. */
  function CompareValues(stod: Stod, l: string, op: string, r: string): bool {
    match (stod(l), stod(r))
    case (Some(x), Some(y)) => CompareNumbers(x, op, y)
    case _ => CompareTexts(l, op, r)
  }

  /** AND, OR and NOT only in upper case; a column, or a unary minus, counts as true. */
  function Evaluate(stod: Stod, e: Expr, row: Row): bool {
    match e
    case Binary(op, left, right) =>
      if op == "AND" then Evaluate(stod, left, row) && Evaluate(stod, right, row)
      else if op == "OR" then Evaluate(stod, left, row) || Evaluate(stod, right, row)
      else CompareValues(stod, ResolveExpr(left, row), op, ResolveExpr(right, row))
    case Unary(op, operand) => if op == "NOT" then !Evaluate(stod, operand, row) else true
    case Literal(_, value) => value == "true" || value == "1"
    case ColumnRef(_, _) => true
  }

  predicate Matches(stod: Stod, where_: Option<Expr>, row: Row) {
    where_.None? || Evaluate(stod, where_.value, row)
  }

  // ----- laws -----

  /** The six comparisons agree with one another on any two values: != is not =, <= is < or =,
      > and >= are < and <= turned round. */
  lemma ComparisonsAgree(stod: Stod, l: string, r: string)
    ensures CompareValues(stod, l, "!=", r) == !CompareValues(stod, l, "=", r)
    ensures CompareValues(stod, l, "<=", r) == (CompareValues(stod, l, "<", r) || CompareValues(stod, l, "=", r))
    ensures CompareValues(stod, l, ">", r) == CompareValues(stod, r, "<", l)
    ensures CompareValues(stod, l, ">=", r) == CompareValues(stod, r, "<=", l)
    ensures !(CompareValues(stod, l, "<", r) && CompareValues(stod, r, "<", l))
  {
    LessIsRank(l, r);
    LessIsRank(r, l);
  }

  /** One of <, =, > holds exactly when neither side is NaN next to a number. */
  lemma TrichotomyIff(stod: Stod, l: string, r: string)
    ensures (CompareValues(stod, l, "<", r) || CompareValues(stod, l, "=", r) || CompareValues(stod, l, ">", r)) <==>
            (stod(l).None? || stod(r).None? || (stod(l) != Some(NaN) && stod(r) != Some(NaN)))
  {
    LessIsRank(l, r);
    LessIsRank(r, l);
  }

  predicate Known(op: string) {
    op == "AND" || op == "OR" || op == "=" || op == "!=" || op == "<" || op == ">" || op == "<=" || op == ">="
  }

  /** Any other operator text, lower-case "and" and "or" included, makes a condition that no row meets. */
  lemma UnknownNeverHolds(stod: Stod, e: Expr, row: Row)
    requires e.Binary? && !Known(e.op)
    ensures !Evaluate(stod, e, row)
  {
    var l, r := ResolveExpr(e.left, row), ResolveExpr(e.right, row);
    assert !CompareTexts(l, e.op, r);
    match (stod(l), stod(r)) {
      case (Some(x), Some(y)) => assert !CompareNumbers(x, e.op, y);
      case _ =>
    }
  }

  /** AND, OR and NOT are a boolean algebra on conditions. */
  lemma BooleanLaws(stod: Stod, a: Expr, b: Expr, row: Row)
    ensures !Evaluate(stod, Binary("AND", a, Unary("NOT", a)), row) && Evaluate(stod, Binary("OR", a, Unary("NOT", a)), row)
    ensures Evaluate(stod, Unary("NOT", Binary("AND", a, b)), row)
         == Evaluate(stod, Binary("OR", Unary("NOT", a), Unary("NOT", b)), row)
    ensures Evaluate(stod, Binary("AND", a, Binary("OR", a, b)), row) == Evaluate(stod, a, row)
         == Evaluate(stod, Binary("OR", a, Binary("AND", a, b)), row)
    ensures Evaluate(stod, Binary("AND", a, b), row) == Evaluate(stod, Binary("AND", b, a), row)
  {
  }
}
