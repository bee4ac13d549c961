/** Statements as tokens, with only the parentheses that the ladder needs, and what the parser
    makes of them. */
module Printing {
  import opened Ast
  import Decimal
  import opened Grammar
  import opened Options
  import opened Parsing
  import opened Tokens

  // ----- expressions that have a text -----

  function BinaryKind(op: string): Option<TokenType> {
    if Upper(op) == "AND" then Some(AND)
    else if Upper(op) == "OR" then Some(OR)
    else if op == "=" then Some(EQ)
    else if op == "!=" then Some(NEQ)
    else if op == "<" then Some(LT)
    else if op == ">" then Some(GT)
    else if op == "<=" then Some(LTE)
    else if op == ">=" then Some(GTE)
    else None
  }

  function UnaryKind(op: string): Option<TokenType> {
    if Upper(op) == "NOT" then Some(NOT) else if op == "-" then Some(MINUS) else None
  }

  function BoolKind(value: string): Option<TokenType> {
    if Upper(value) == "TRUE" then Some(BOOL_TRUE) else if Upper(value) == "FALSE" then Some(BOOL_FALSE) else None
  }

  /** The tree could have come from a text. */
  predicate Printable(e: Expr) {
    match e
    case Literal(Integer, value) => '.' !in value
    case Literal(Float, value) => '.' in value
    case Literal(String, value) => true
    case Literal(Bool, value) => BoolKind(value).Some?
    case ColumnRef(_, _) => true
    case Binary(op, left, right) => BinaryKind(op).Some? && Printable(left) && Printable(right)
    case Unary(op, operand) => UnaryKind(op).Some? && Printable(operand)
  }

  /** The rung of the ladder that makes the node: 0 for AND and OR up to 3 for a primary. */
  function Rung(e: Expr): nat {
    match e
    case Binary(op, _, _) => if BinaryKind(op).Some? && IsLogical(BinaryKind(op).value) then 0 else 1
    case Unary(_, _) => 2
    case _ => 3
  }

  function Kinded(k: Option<TokenType>, value: string): seq<Lexeme> {
    if k.Some? then [Lexeme(k.value, value)] else []
  }

  function PrintLeaf(e: Expr): seq<Lexeme> {
    match e
    case Literal(Integer, value) => [Lexeme(NUMBER, value)]
    case Literal(Float, value) => [Lexeme(NUMBER, value)]
    case Literal(String, value) => [Lexeme(STRING, value)]
    case Literal(Bool, value) => Kinded(BoolKind(value), value)
    case ColumnRef(table, column) =>
      if table == "" then [Lexeme(IDENTIFIER, column)]
      else [Lexeme(IDENTIFIER, table), Lexeme(DOT, "."), Lexeme(IDENTIFIER, column)]
    case _ => []
  }

  /** The tokens of e where a node of at least this rung is wanted: lower ones get parentheses. */
  function Print(e: Expr, rung: nat): seq<Lexeme>
    requires rung <= 3
    decreases e, if Rung(e) < rung then 1 else 0
  {
    if Rung(e) < rung then [Lexeme(LPAREN, "(")] + Print(e, 0) + [Lexeme(RPAREN, ")")]
    else
      match e
      case Binary(op, left, right) =>
        Print(left, Rung(e)) + Kinded(BinaryKind(op), op) + Print(right, Rung(e) + 1)
      case Unary(op, operand) => Kinded(UnaryKind(op), op) + Print(operand, 2)
      case _ => PrintLeaf(e)
  }

  // ----- what is printed is derived -----

  lemma LeafForm(e: Expr)
    requires Printable(e) && Rung(e) == 3
    ensures ExprForm(3, PrintLeaf(e), e)
  {
    hide Upper;
    assert PrimaryForm(PrintLeaf(e), e);
  }

  /** From a rung to any below it. */
  lemma {:induction false} LiftedTo(from: nat, rung: nat, ts: seq<Lexeme>, e: Expr)
    requires rung <= from <= 3 && ExprForm(from, ts, e)
    ensures ExprForm(rung, ts, e)
    decreases from
  {
    hide ExprForm;
    if rung < from {
      Lifted(from - 1, ts, e);
      LiftedTo(from - 1, rung, ts, e);
    }
  }

  lemma SignedForm(head: Lexeme, ts: seq<Lexeme>, e: Expr)
    requires (head.kind == NOT || head.kind == MINUS) && ExprForm(2, ts, e)
    ensures ExprForm(2, [head] + ts, Unary(head.value, e))
  {
    hide PrimaryForm;
    HeadOf(head, ts);
  }

  lemma OperatorKinds(e: Expr)
    requires Printable(e)
    ensures e.Binary? ==> BinaryKind(e.op).Some? && Rung(e) < 2 && Joins(Rung(e), BinaryKind(e.op).value)
    ensures e.Binary? ==> Printable(e.left) && Printable(e.right)
    ensures e.Unary? ==> UnaryKind(e.op).Some? && UnaryKind(e.op).value in {NOT, MINUS} && Printable(e.operand)
  {
    hide Upper;
  }

  /** An expression printed on a rung, with only the parentheses it needs, is one of the strings that the
      grammar derives it from. */
  lemma {:induction false} PrintForm(e: Expr, rung: nat)
    requires Printable(e) && rung <= 3
    ensures ExprForm(rung, Print(e, rung), e)
    decreases e, if Rung(e) < rung then 10 else 3 - rung
  {
    hide ExprForm, Printable, PrintLeaf, Upper;
    OperatorKinds(e);
    if Rung(e) < rung {
      PrintForm(e, 0);
      GroupForm(Lexeme(LPAREN, "("), Print(e, 0), Lexeme(RPAREN, ")"), e);
      LiftedTo(3, rung, Print(e, rung), e);
    } else if Rung(e) > rung {
      PrintForm(e, rung + 1);
      Lifted(rung, Print(e, rung + 1), e);
    } else {
      match e
      case Binary(op, left, right) =>
        PrintForm(left, rung);
        PrintForm(right, rung + 1);
        Combined(rung, Print(left, rung), left, Lexeme(BinaryKind(op).value, op), Print(right, rung + 1), right);
      case Unary(op, operand) =>
        PrintForm(operand, 2);
        SignedForm(Lexeme(UnaryKind(op).value, op), Print(operand, 2), operand);
      case _ => LeafForm(e);
    }
  }

  /** On every rung, reading a printed expression gets that expression back, takes exactly its
      tokens, and goes on from there. */
  lemma PrintReadsBack(e: Expr, rung: nat, rest: seq<Lexeme>)
    requires Printable(e) && rung <= 3 && Follows(rung, rest)
    ensures RungAt(rung, Print(e, rung) + rest) == Continue(rung, e, rest)
    ensures Print(e, rung) != []
  {
    hide RungAt, Continue, Printable, Print, ExprForm;
    PrintForm(e, rung);
    ExprReads(rung, Print(e, rung), e, rest);
  }
}
