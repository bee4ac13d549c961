/** The grammar the parser follows, on the kinds and texts of the tokens that are left. An error
    is `Err`. */
module Parsing {
  import opened Ast
  import Decimal
  import opened Options
  import opened Tokens

  datatype Parsed<+T> = Ok(value: T, rest: seq<Lexeme>) | Err

  function Kind(ts: seq<Lexeme>): TokenType {
    if ts == [] then END_OF_FILE else ts[0].kind
  }

  function Expect(ts: seq<Lexeme>, k: TokenType): (r: Parsed<string>)
    ensures r.Ok? ==> |r.rest| < |ts|
  {
    if ts != [] && ts[0].kind == k then Ok(ts[0].value, ts[1..]) else Err
  }

  /** An optional token, passed over if it is there. */
  function Skip(ts: seq<Lexeme>, k: TokenType): seq<Lexeme> {
    if ts != [] && ts[0].kind == k then ts[1..] else ts
  }

  // ----- the expression ladder -----

  predicate IsLogical(k: TokenType) {
    k == AND || k == OR
  }

  predicate IsComparison(k: TokenType) {
    k == EQ || k == NEQ || k == LT || k == GT || k == LTE || k == GTE
  }

  function ExpressionAt(ts: seq<Lexeme>): (r: Parsed<Expr>)
    ensures r.Ok? ==> |r.rest| < |ts|
    decreases |ts|, 4
  {
    match ComparisonAt(ts)
    case Err => Err
    case Ok(left, rest) => ExpressionTail(left, rest)
  }

  /** The loop over AND and OR: both bind alike, to the left. */
  function ExpressionTail(left: Expr, ts: seq<Lexeme>): (r: Parsed<Expr>)
    ensures r.Ok? ==> |r.rest| <= |ts|
    decreases |ts|, 4
  {
    if ts != [] && IsLogical(ts[0].kind) then
      match ComparisonAt(ts[1..])
      case Err => Err
      case Ok(right, rest) => ExpressionTail(Binary(ts[0].value, left, right), rest)
    else Ok(left, ts)
  }

  function ComparisonAt(ts: seq<Lexeme>): (r: Parsed<Expr>)
    ensures r.Ok? ==> |r.rest| < |ts|
    decreases |ts|, 3
  {
    match UnaryAt(ts)
    case Err => Err
    case Ok(left, rest) => ComparisonTail(left, rest)
  }

  function ComparisonTail(left: Expr, ts: seq<Lexeme>): (r: Parsed<Expr>)
    ensures r.Ok? ==> |r.rest| <= |ts|
    decreases |ts|, 3
  {
    if ts != [] && IsComparison(ts[0].kind) then
      match UnaryAt(ts[1..])
      case Err => Err
      case Ok(right, rest) => ComparisonTail(Binary(ts[0].value, left, right), rest)
    else Ok(left, ts)
  }

  function UnaryAt(ts: seq<Lexeme>): (r: Parsed<Expr>)
    ensures r.Ok? ==> |r.rest| < |ts|
    decreases |ts|, 2
  {
    if ts != [] && (ts[0].kind == NOT || ts[0].kind == MINUS) then
      match UnaryAt(ts[1..])
      case Err => Err
      case Ok(operand, rest) => Ok(Unary(ts[0].value, operand), rest)
    else PrimaryAt(ts)
  }

  function NumberKind(value: string): LiteralKind {
    if '.' in value then Float else Integer
  }

  function PrimaryAt(ts: seq<Lexeme>): (r: Parsed<Expr>)
    ensures r.Ok? ==> |r.rest| < |ts|
    decreases |ts|, 1
  {
    if ts == [] then Err
    else
      var value, rest := ts[0].value, ts[1..];
      match ts[0].kind
      case NUMBER => Ok(Literal(NumberKind(value), value), rest)
      case STRING => Ok(Literal(String, value), rest)
      case BOOL_TRUE => Ok(Literal(Bool, value), rest)
      case BOOL_FALSE => Ok(Literal(Bool, value), rest)
      case IDENTIFIER =>
        if Kind(rest) == DOT then
          match Expect(rest[1..], IDENTIFIER)
          case Err => Err
          case Ok(column, more) => Ok(ColumnRef(value, column), more)
        else Ok(ColumnRef("", value), rest)
      case LPAREN =>
        (match ExpressionAt(rest)
         case Err => Err
         case Ok(inner, more) =>
           match Expect(more, RPAREN)
           case Err => Err
           case Ok(_, after) => Ok(inner, after))
      case _ => Err
  }

  // ----- clauses -----

  /** One or more items with commas between. An item takes at least one token. */
  function ListAt<T>(item: seq<Lexeme> -> Parsed<T>, ts: seq<Lexeme>): (r: Parsed<seq<T>>)
    ensures r.Ok? ==> |r.rest| < |ts|
    decreases |ts|
  {
    match item(ts)
    case Err => Err
    case Ok(x, rest) =>
      if |rest| >= |ts| then Err
      else if Kind(rest) != COMMA then Ok([x], rest)
      else
        match ListAt(item, rest[1..])
        case Err => Err
        case Ok(xs, more) => Ok([x] + xs, more)
  }

  function NameAt(ts: seq<Lexeme>): Parsed<string> {
    Expect(ts, IDENTIFIER)
  }

  function AssignmentAt(ts: seq<Lexeme>): (r: Parsed<Assignment>)
    ensures r.Ok? ==> |r.rest| < |ts|
  {
    match Expect(ts, IDENTIFIER)
    case Err => Err
    case Ok(column, rest) =>
      match Expect(rest, EQ)
      case Err => Err
      case Ok(_, more) =>
        match ExpressionAt(more)
        case Err => Err
        case Ok(value, after) => Ok(Assignment(column, value), after)
  }

  function WhereAt(ts: seq<Lexeme>): (r: Parsed<Option<Expr>>)
    ensures r.Ok? ==> |r.rest| <= |ts|
  {
    if Kind(ts) != WHERE then Ok(None, ts)
    else
      match ExpressionAt(ts[1..])
      case Err => Err
      case Ok(e, rest) => Ok(Some(e), rest)
  }

  /** A column, then DESC if it is there, then ASC if it is there. */
  function OrderItemAt(ts: seq<Lexeme>): (r: Parsed<OrderByClause>)
    ensures r.Ok? ==> |r.rest| < |ts|
  {
    match Expect(ts, IDENTIFIER)
    case Err => Err
    case Ok(column, rest) =>
      Ok(OrderByClause(column, Kind(rest) != DESC), Skip(Skip(rest, DESC), ASC))
  }

  function OrderByAt(ts: seq<Lexeme>): (r: Parsed<seq<OrderByClause>>)
    ensures r.Ok? ==> |r.rest| <= |ts|
  {
    if Kind(ts) != ORDER then Ok([], ts)
    else
      match Expect(ts[1..], BY)
      case Err => Err
      case Ok(_, rest) => ListAt(OrderItemAt, rest)
  }

  const INT_MAX: nat := 0x7FFF_FFFF

  /** std::stoi on a number token: its leading digits, or a throw when there are none or the
      value is too large. */
  function Stoi(s: string): Option<int> {
    var n := Run(Decimal.IsDigit, s);
    if n == 0 || Decimal.Parse(s[..n]) > INT_MAX then None else Some(Decimal.Parse(s[..n]))
  }

  function LimitAt(ts: seq<Lexeme>): (r: Parsed<Option<int>>)
    ensures r.Ok? ==> |r.rest| <= |ts|
  {
    if Kind(ts) != LIMIT then Ok(None, ts)
    else
      match Expect(ts[1..], NUMBER)
      case Err => Err
      case Ok(num, rest) =>
        match Stoi(num)
        case None => Err
        case Some(n) => Ok(Some(n), rest)
  }

  // ----- statements -----

  function SelectColumnsAt(ts: seq<Lexeme>): (r: Parsed<seq<string>>)
    ensures r.Ok? ==> |r.rest| < |ts|
  {
    if Kind(ts) == STAR then Ok(["*"], ts[1..]) else ListAt(NameAt, ts)
  }

  function SelectAt(ts: seq<Lexeme>): Parsed<Statement> {
    match Expect(ts, TokenType.SELECT)
    case Err => Err
    case Ok(_, t1) =>
      match SelectColumnsAt(t1)
      case Err => Err
      case Ok(columns, t2) =>
        match Expect(t2, FROM)
        case Err => Err
        case Ok(_, t3) =>
          match Expect(t3, IDENTIFIER)
          case Err => Err
          case Ok(table, t4) => SelectTail(columns, table, t4)
  }

  function SelectTail(columns: seq<string>, table: string, ts: seq<Lexeme>): Parsed<Statement> {
    match WhereAt(ts)
    case Err => Err
    case Ok(where_, t1) =>
      match OrderByAt(t1)
      case Err => Err
      case Ok(orderBy, t2) =>
        match LimitAt(t2)
        case Err => Err
        case Ok(limit, t3) => Ok(SelectStmt(SelectStatement(columns, table, where_, orderBy, limit)), t3)
  }

  /** Several tokens of these kinds in a row; the value of the last one. */
  function ExpectAll(ts: seq<Lexeme>, ks: seq<TokenType>): (r: Parsed<string>)
    requires ks != []
    ensures r.Ok? ==> |r.rest| < |ts|
    decreases |ks|
  {
    match Expect(ts, ks[0])
    case Err => Err
    case Ok(value, rest) => if |ks| == 1 then Ok(value, rest) else ExpectAll(rest, ks[1..])
  }

  function InsertAt(ts: seq<Lexeme>): Parsed<Statement> {
    match ExpectAll(ts, [TokenType.INSERT, INTO, IDENTIFIER])
    case Err => Err
    case Ok(table, t1) =>
      match Expect(t1, LPAREN)
      case Err => Err
      case Ok(_, t2) => InsertColumns(table, t2)
  }

  function InsertColumns(table: string, ts: seq<Lexeme>): Parsed<Statement> {
    match ListAt(NameAt, ts)
    case Err => Err
    case Ok(columns, t1) =>
      match ExpectAll(t1, [RPAREN, VALUES, LPAREN])
      case Err => Err
      case Ok(_, t2) => InsertTail(table, columns, t2)
  }

  function InsertTail(table: string, columns: seq<string>, ts: seq<Lexeme>): Parsed<Statement> {
    match ListAt(ExpressionAt, ts)
    case Err => Err
    case Ok(values, t1) =>
      match Expect(t1, RPAREN)
      case Err => Err
      case Ok(_, t2) => Ok(InsertStmt(InsertStatement(table, columns, values)), t2)
  }

  function UpdateAt(ts: seq<Lexeme>): Parsed<Statement> {
    match ExpectAll(ts, [TokenType.UPDATE, IDENTIFIER])
    case Err => Err
    case Ok(table, t1) =>
      match Expect(t1, SET)
      case Err => Err
      case Ok(_, t2) =>
        match ListAt(AssignmentAt, t2)
        case Err => Err
        case Ok(assignments, t3) =>
          match WhereAt(t3)
          case Err => Err
          case Ok(where_, t4) => Ok(UpdateStmt(UpdateStatement(table, assignments, where_)), t4)
  }

  function DeleteAt(ts: seq<Lexeme>): Parsed<Statement> {
    match ExpectAll(ts, [TokenType.DELETE, FROM, IDENTIFIER])
    case Err => Err
    case Ok(table, t1) =>
      match WhereAt(t1)
      case Err => Err
      case Ok(where_, t2) => Ok(DeleteStmt(DeleteStatement(table, where_)), t2)
  }

  /** PRIMARY is known by its text, not its kind; the words after PRIMARY and NOT by their kind. */
  function ConstraintsAt(def: ColumnDef, ts: seq<Lexeme>): (r: Parsed<ColumnDef>)
    ensures r.Ok? ==> |r.rest| <= |ts|
    decreases |ts|
  {
    if ts != [] && ts[0].value == "PRIMARY" then
      match Expect(ts[1..], IDENTIFIER)
      case Err => Err
      case Ok(_, rest) => ConstraintsAt(def.(primaryKey := true), rest)
    else if Kind(ts) == NOT then
      match Expect(ts[1..], IDENTIFIER)
      case Err => Err
      case Ok(_, rest) => ConstraintsAt(def.(notNull := true), rest)
    else Ok(def, ts)
  }

  function ColumnDefAt(ts: seq<Lexeme>): (r: Parsed<ColumnDef>)
    ensures r.Ok? ==> |r.rest| < |ts|
  {
    match Expect(ts, IDENTIFIER)
    case Err => Err
    case Ok(name, rest) =>
      match Expect(rest, IDENTIFIER)
      case Err => Err
      case Ok(typeName, more) => ConstraintsAt(ColumnDef(name, typeName, false, false), more)
  }

  function CreateTableAt(ts: seq<Lexeme>): Parsed<Statement> {
    match ExpectAll(ts, [CREATE, TABLE, IDENTIFIER])
    case Err => Err
    case Ok(table, t1) =>
      match Expect(t1, LPAREN)
      case Err => Err
      case Ok(_, t2) => CreateColumns(table, t2)
  }

  function CreateColumns(table: string, ts: seq<Lexeme>): Parsed<Statement> {
    match ListAt(ColumnDefAt, ts)
    case Err => Err
    case Ok(defs, t1) =>
      match Expect(t1, RPAREN)
      case Err => Err
      case Ok(_, t2) => Ok(CreateTable(table, defs), t2)
  }

  function DropTableAt(ts: seq<Lexeme>): Parsed<Statement> {
    match ExpectAll(ts, [DROP, TABLE, IDENTIFIER])
    case Err => Err
    case Ok(table, rest) => Ok(DropTable(table), rest)
  }

  function StatementAt(ts: seq<Lexeme>): Parsed<Statement> {
    match Kind(ts)
    case SELECT => SelectAt(ts)
    case INSERT => InsertAt(ts)
    case UPDATE => UpdateAt(ts)
    case DELETE => DeleteAt(ts)
    case CREATE => CreateTableAt(ts)
    case DROP => DropTableAt(ts)
    case _ => Err
  }

  /** A statement and, if it is there, a semicolon. */
  function ParseAt(ts: seq<Lexeme>): Parsed<Statement> {
    match StatementAt(ts)
    case Err => Err
    case Ok(stmt, rest) => Ok(stmt, Skip(rest, SEMICOLON))
  }
}
