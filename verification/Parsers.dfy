/** The recursive-descent parser: a cursor over the tokens that every method moves on. */
module Parsers {
  import opened Ast
  import opened Options
  import opened Parsing
  import opened Tokens

  /** What a token stream looks like: it ends with its only end-of-file token. */
  predicate Stream(tokens: seq<Token>) {
    && tokens != [] && tokens[|tokens| - 1].kind == END_OF_FILE
    && forall i :: 0 <= i < |tokens| - 1 ==> tokens[i].kind != END_OF_FILE
  }

  function Prepend<T>(xs: seq<T>, r: Parsed<seq<T>>): Parsed<seq<T>> {
    match r
    case Err => Err
    case Ok(ys, rest) => Ok(xs + ys, rest)
  }

  lemma ListStep<T>(item: seq<Lexeme> -> Parsed<T>, xs: seq<T>, ts: seq<Lexeme>)
    ensures item(ts).Err? ==> Prepend(xs, ListAt(item, ts)) == Err
    ensures item(ts).Ok? && |item(ts).rest| < |ts| ==>
      if Kind(item(ts).rest) == COMMA then
        Prepend(xs, ListAt(item, ts)) == Prepend(xs + [item(ts).value], ListAt(item, item(ts).rest[1..]))
      else Prepend(xs, ListAt(item, ts)) == Ok(xs + [item(ts).value], item(ts).rest)
  {
    if item(ts).Ok? && |item(ts).rest| < |ts| && Kind(item(ts).rest) == COMMA {
      var r := ListAt(item, item(ts).rest[1..]);
      if r.Ok? {
        assert xs + ([item(ts).value] + r.value) == (xs + [item(ts).value]) + r.value;
      }
    }
  }

  lemma PrependNone<T>(r: Parsed<seq<T>>)
    ensures Prepend([], r) == r
  {
    if r.Ok? {
      assert [] + r.value == r.value;
    }
  }

  class Parser {
    const tokens: seq<Token>
    var pos: nat

    constructor (tokens: seq<Token>)
      requires Stream(tokens)
      ensures Valid() && this.tokens == tokens && Rest() == LexemesOf(tokens)
    {
      this.tokens := tokens;
      pos := 0;
    }

    /** The cursor never passes the final token. */
    ghost predicate Valid()
      reads this
    {
      Stream(tokens) && pos < |tokens|
    }

    ghost function Rest(): (ts: seq<Lexeme>)
      requires Valid()
      reads this
      ensures ts != [] && |ts| == |tokens| - pos
    {
      LexemesOf(tokens[pos..])
    }

    /** The method did what the grammar says: the value and where it ends, or an error. */
    ghost predicate Got<T>(r: Option<T>, parsed: Parsed<T>)
      requires Valid()
      reads this
    {
      match parsed
      case Err => r == None
      case Ok(value, rest) => r == Some(value) && Rest() == rest
    }

    // ----- navigation -----

    predicate IsAtEnd()
      requires Valid()
      reads this
    {
      tokens[pos].kind == END_OF_FILE
    }

    predicate Check(kind: TokenType)
      requires Valid()
      reads this
      ensures Check(kind) <==> Kind(Rest()) == kind
    {
      tokens[pos].kind == kind
    }

    method Advance() returns (token: Token)
      requires Valid() && (pos > 0 || !IsAtEnd())
      modifies this`pos
      ensures Valid()
      ensures !old(IsAtEnd()) ==> token == tokens[old(pos)] && Rest() == old(Rest())[1..] && pos == old(pos) + 1
      ensures old(IsAtEnd()) ==> pos == old(pos)
    {
      if !IsAtEnd() {
        assert LexemesOf(tokens[pos..])[1..] == LexemesOf(tokens[pos + 1..]);
        pos := pos + 1;
      }
      token := tokens[pos - 1];
    }

    method Match(kind: TokenType) returns (matched: bool)
      requires Valid() && kind != END_OF_FILE
      modifies this`pos
      ensures Valid() && matched == (Kind(old(Rest())) == kind)
      ensures Rest() == if matched then old(Rest())[1..] else old(Rest())
    {
      matched := Check(kind);
      if matched {
        var _ := Advance();
      }
    }

    method Require(kind: TokenType) returns (r: Option<string>)
      requires Valid() && kind != END_OF_FILE
      modifies this`pos
      ensures Valid() && Got(r, Expect(old(Rest()), kind))
    {
      if !Check(kind) {
        return None;
      }
      var token := Advance();
      return Some(token.value);
    }

    // ----- expressions -----

    method ParseExpression() returns (r: Option<Expr>)
      requires Valid()
      modifies this`pos
      ensures Valid() && Got(r, ExpressionAt(old(Rest())))
      decreases |tokens| - pos, 4
    {
      hide ComparisonAt, ExpressionTail, ExpressionAt;
      ExpressionUnfolds(Rest());
      r := ParseComparison();
      if r.None? {
        return;
      }
      while Check(AND) || Check(OR)
        invariant Valid() && r.Some? && pos > old(pos)
        invariant ExpressionTail(r.value, Rest()) == ExpressionAt(old(Rest()))
        decreases |tokens| - pos
      {
        ExpressionTailUnfolds(r.value, Rest());
        var op := Advance();
        var right := ParseComparison();
        if right.None? {
          return None;
        }
        r := Some(Binary(op.value, r.value, right.value));
      }
      ExpressionTailUnfolds(r.value, Rest());
    }

    method ParseComparison() returns (r: Option<Expr>)
      requires Valid()
      modifies this`pos
      ensures Valid() && Got(r, ComparisonAt(old(Rest())))
      decreases |tokens| - pos, 3
    {
      hide UnaryAt, ComparisonTail, ComparisonAt;
      ComparisonUnfolds(Rest());
      r := ParseUnary();
      if r.None? {
        return;
      }
      while Check(EQ) || Check(NEQ) || Check(LT) || Check(GT) || Check(LTE) || Check(GTE)
        invariant Valid() && r.Some? && pos > old(pos)
        invariant ComparisonTail(r.value, Rest()) == ComparisonAt(old(Rest()))
        decreases |tokens| - pos
      {
        ComparisonTailUnfolds(r.value, Rest());
        var op := Advance();
        var right := ParseUnary();
        if right.None? {
          return None;
        }
        r := Some(Binary(op.value, r.value, right.value));
      }
      ComparisonTailUnfolds(r.value, Rest());
    }

    method ParseUnary() returns (r: Option<Expr>)
      requires Valid()
      modifies this`pos
      ensures Valid() && Got(r, UnaryAt(old(Rest())))
      decreases |tokens| - pos, 2
    {
      hide UnaryAt, PrimaryAt;
      UnaryUnfolds(Rest());
      if Check(NOT) || Check(MINUS) {
        var op := Advance();
        var operand := ParseUnary();
        if operand.None? {
          return None;
        }
        return Some(Unary(op.value, operand.value));
      }
      r := ParsePrimary();
    }

    method ParsePrimary() returns (r: Option<Expr>)
      requires Valid()
      modifies this`pos
      ensures Valid() && Got(r, PrimaryAt(old(Rest())))
      decreases |tokens| - pos, 1
    {
      hide PrimaryAt;
      LiteralUnfolds(Rest());
      if Check(NUMBER) {
        var token := Advance();
        return Some(Literal(NumberKind(token.value), token.value));
      }
      if Check(STRING) {
        var token := Advance();
        return Some(Literal(String, token.value));
      }
      if Check(BOOL_TRUE) || Check(BOOL_FALSE) {
        var token := Advance();
        return Some(Literal(Bool, token.value));
      }
      if Check(IDENTIFIER) {
        r := ParseColumnRef();
        return;
      }
      if Check(LPAREN) {
        r := ParseParentheses();
        return;
      }
      return None;
    }

    /** A column, with its table before a dot if there is one. */
    method ParseColumnRef() returns (r: Option<Expr>)
      requires Valid() && Check(IDENTIFIER)
      modifies this`pos
      ensures Valid() && Got(r, PrimaryAt(old(Rest())))
    {
      hide PrimaryAt, Expect;
      ColumnUnfolds(Rest());
      var first := Advance();
      if !Check(DOT) {
        return Some(ColumnRef("", first.value));
      }
      var _ := Advance();
      var column := Require(IDENTIFIER);
      if column.None? {
        return None;
      }
      return Some(ColumnRef(first.value, column.value));
    }

    method ParseParentheses() returns (r: Option<Expr>)
      requires Valid() && Check(LPAREN)
      modifies this`pos
      ensures Valid() && Got(r, PrimaryAt(old(Rest())))
      decreases |tokens| - pos, 0
    {
      hide ExpressionAt, PrimaryAt, Expect;
      ParenthesesUnfold(Rest());
      var _ := Advance();
      r := ParseExpression();
      if r.None? {
        return;
      }
      var close := Require(RPAREN);
      if close.None? {
        return None;
      }
    }

    // ----- clauses -----

    method ParseColumnList() returns (r: Option<seq<string>>)
      requires Valid()
      modifies this`pos
      ensures Valid() && Got(r, ListAt(NameAt, old(Rest())))
    {
      hide ListAt;
      var cols: seq<string> := [];
      PrependNone(ListAt(NameAt, Rest()));
      var more := true;
      while more
        invariant Valid()
        invariant more ==> Prepend(cols, ListAt(NameAt, Rest())) == ListAt(NameAt, old(Rest()))
        invariant !more ==> Ok(cols, Rest()) == ListAt(NameAt, old(Rest()))
        decreases more, |tokens| - pos
      {
        ListStep(NameAt, cols, Rest());
        var name := Require(IDENTIFIER);
        if name.None? {
          return None;
        }
        cols := cols + [name.value];
        more := Match(COMMA);
      }
      return Some(cols);
    }

    method ParseValueList() returns (r: Option<seq<Expr>>)
      requires Valid()
      modifies this`pos
      ensures Valid() && Got(r, ListAt(ExpressionAt, old(Rest())))
    {
      hide ListAt, ExpressionAt;
      var values: seq<Expr> := [];
      PrependNone(ListAt(ExpressionAt, Rest()));
      var more := true;
      while more
        invariant Valid()
        invariant more ==> Prepend(values, ListAt(ExpressionAt, Rest())) == ListAt(ExpressionAt, old(Rest()))
        invariant !more ==> Ok(values, Rest()) == ListAt(ExpressionAt, old(Rest()))
        decreases more, |tokens| - pos
      {
        ListStep(ExpressionAt, values, Rest());
        var value := ParseExpression();
        if value.None? {
          return None;
        }
        values := values + [value.value];
        more := Match(COMMA);
      }
      return Some(values);
    }

    method ParseAssignment() returns (r: Option<Assignment>)
      requires Valid()
      modifies this`pos
      ensures Valid() && Got(r, AssignmentAt(old(Rest())))
    {
      hide ExpressionAt, Expect, Parser.Rest, Parser.Valid;
      var column := Require(IDENTIFIER);
      if column.None? {
        return None;
      }
      var eq := Require(EQ);
      if eq.None? {
        return None;
      }
      var value := ParseExpression();
      if value.None? {
        return None;
      }
      return Some(Assignment(column.value, value.value));
    }

    method ParseAssignmentList() returns (r: Option<seq<Assignment>>)
      requires Valid()
      modifies this`pos
      ensures Valid() && Got(r, ListAt(AssignmentAt, old(Rest())))
    {
      hide ListAt, AssignmentAt;
      var assignments: seq<Assignment> := [];
      PrependNone(ListAt(AssignmentAt, Rest()));
      var more := true;
      while more
        invariant Valid()
        invariant more ==> Prepend(assignments, ListAt(AssignmentAt, Rest())) == ListAt(AssignmentAt, old(Rest()))
        invariant !more ==> Ok(assignments, Rest()) == ListAt(AssignmentAt, old(Rest()))
        decreases more, |tokens| - pos
      {
        ListStep(AssignmentAt, assignments, Rest());
        var a := ParseAssignment();
        if a.None? {
          return None;
        }
        assignments := assignments + [a.value];
        more := Match(COMMA);
      }
      return Some(assignments);
    }

    method ParseWhereClause() returns (r: Option<Option<Expr>>)
      requires Valid()
      modifies this`pos
      ensures Valid() && Got(r, WhereAt(old(Rest())))
    {
      hide ExpressionAt, Parser.Rest, Parser.Valid;
      var present := Match(WHERE);
      if !present {
        return Some(None);
      }
      var e := ParseExpression();
      if e.None? {
        return None;
      }
      return Some(Some(e.value));
    }

    method ParseOrderItem() returns (r: Option<OrderByClause>)
      requires Valid()
      modifies this`pos
      ensures Valid() && Got(r, OrderItemAt(old(Rest())))
    {
      hide Parser.Rest, Parser.Valid;
      var column := Require(IDENTIFIER);
      if column.None? {
        return None;
      }
      var descending := Match(DESC);
      var _ := Match(ASC);
      return Some(OrderByClause(column.value, !descending));
    }

    method ParseOrderByClause() returns (r: Option<seq<OrderByClause>>)
      requires Valid()
      modifies this`pos
      ensures Valid() && Got(r, OrderByAt(old(Rest())))
    {
      hide ListAt, OrderItemAt, Parser.Rest, Parser.Valid;
      var present := Match(ORDER);
      if !present {
        return Some([]);
      }
      var word := Require(BY);
      if word.None? {
        return None;
      }
      r := ParseOrderList();
    }

    method ParseOrderList() returns (r: Option<seq<OrderByClause>>)
      requires Valid()
      modifies this`pos
      ensures Valid() && Got(r, ListAt(OrderItemAt, old(Rest())))
    {
      hide ListAt, OrderItemAt;
      var clauses: seq<OrderByClause> := [];
      PrependNone(ListAt(OrderItemAt, Rest()));
      var more := true;
      while more
        invariant Valid()
        invariant more ==> Prepend(clauses, ListAt(OrderItemAt, Rest())) == ListAt(OrderItemAt, old(Rest()))
        invariant !more ==> Ok(clauses, Rest()) == ListAt(OrderItemAt, old(Rest()))
        decreases more, |tokens| - pos
      {
        ListStep(OrderItemAt, clauses, Rest());
        var c := ParseOrderItem();
        if c.None? {
          return None;
        }
        clauses := clauses + [c.value];
        more := Match(COMMA);
      }
      return Some(clauses);
    }

    method ParseLimitClause() returns (r: Option<Option<int>>)
      requires Valid()
      modifies this`pos
      ensures Valid() && Got(r, LimitAt(old(Rest())))
    {
      hide Stoi, Parser.Rest, Parser.Valid;
      var present := Match(LIMIT);
      if !present {
        return Some(None);
      }
      var num := Require(NUMBER);
      if num.None? {
        return None;
      }
      var n := Stoi(num.value);
      if n.None? {
        return None;
      }
      return Some(Some(n.value));
    }

    // ----- statements -----

    /** Several tokens in a row; the text of the last. */
    method RequireAll(kinds: seq<TokenType>) returns (r: Option<string>)
      requires Valid() && kinds != [] && END_OF_FILE !in kinds
      modifies this`pos
      ensures Valid() && Got(r, ExpectAll(old(Rest()), kinds))
      decreases |kinds|
    {
      hide Expect, Parser.Rest, Parser.Valid;
      r := Require(kinds[0]);
      if r.None? || |kinds| == 1 {
        return;
      }
      r := RequireAll(kinds[1..]);
    }

    method ParseSelectColumns() returns (r: Option<seq<string>>)
      requires Valid()
      modifies this`pos
      ensures Valid() && Got(r, SelectColumnsAt(old(Rest())))
    {
      hide ListAt;
      if Check(STAR) {
        var _ := Advance();
        return Some(["*"]);
      }
      r := ParseColumnList();
    }

    method ParseSelect() returns (r: Option<Statement>)
      requires Valid()
      modifies this`pos
      ensures Valid() && Got(r, SelectAt(old(Rest())))
    {
      hide Expect, SelectColumnsAt, SelectTail, Parser.Rest, Parser.Valid;
      var select := Require(TokenType.SELECT);
      if select.None? {
        return None;
      }
      var columns := ParseSelectColumns();
      if columns.None? {
        return None;
      }
      var from := Require(FROM);
      if from.None? {
        return None;
      }
      var table := Require(IDENTIFIER);
      if table.None? {
        return None;
      }
      r := ParseSelectTail(columns.value, table.value);
    }

    /** The optional clauses. */
    method ParseSelectTail(columns: seq<string>, table: string) returns (r: Option<Statement>)
      requires Valid()
      modifies this`pos
      ensures Valid() && Got(r, SelectTail(columns, table, old(Rest())))
    {
      hide WhereAt, OrderByAt, LimitAt, Parser.Rest, Parser.Valid;
      var where_ := ParseWhereClause();
      if where_.None? {
        return None;
      }
      var orderBy := ParseOrderByClause();
      if orderBy.None? {
        return None;
      }
      var limit := ParseLimitClause();
      if limit.None? {
        return None;
      }
      return Some(SelectStmt(SelectStatement(columns, table, where_.value, orderBy.value, limit.value)));
    }

    method ParseInsert() returns (r: Option<Statement>)
      requires Valid()
      modifies this`pos
      ensures Valid() && Got(r, InsertAt(old(Rest())))
    {
      hide Expect, ExpectAll, ListAt, InsertTail, Parser.Rest, Parser.Valid;
      var table := RequireAll([TokenType.INSERT, INTO, IDENTIFIER]);
      if table.None? {
        return None;
      }
      var open := Require(LPAREN);
      if open.None? {
        return None;
      }
      var columns := ParseColumnList();
      if columns.None? {
        return None;
      }
      var between := RequireAll([RPAREN, VALUES, LPAREN]);
      if between.None? {
        return None;
      }
      r := ParseInsertTail(table.value, columns.value);
    }

    method ParseInsertTail(table: string, columns: seq<string>) returns (r: Option<Statement>)
      requires Valid()
      modifies this`pos
      ensures Valid() && Got(r, InsertTail(table, columns, old(Rest())))
    {
      hide Expect, ListAt, Parser.Rest, Parser.Valid;
      var values := ParseValueList();
      if values.None? {
        return None;
      }
      var close := Require(RPAREN);
      if close.None? {
        return None;
      }
      return Some(InsertStmt(InsertStatement(table, columns, values.value)));
    }

    method ParseUpdate() returns (r: Option<Statement>)
      requires Valid()
      modifies this`pos
      ensures Valid() && Got(r, UpdateAt(old(Rest())))
    {
      hide Expect, ExpectAll, ListAt, WhereAt, Parser.Rest, Parser.Valid;
      var table := RequireAll([TokenType.UPDATE, IDENTIFIER]);
      if table.None? {
        return None;
      }
      var set_ := Require(SET);
      if set_.None? {
        return None;
      }
      var assignments := ParseAssignmentList();
      if assignments.None? {
        return None;
      }
      var where_ := ParseWhereClause();
      if where_.None? {
        return None;
      }
      return Some(UpdateStmt(UpdateStatement(table.value, assignments.value, where_.value)));
    }

    method ParseDelete() returns (r: Option<Statement>)
      requires Valid()
      modifies this`pos
      ensures Valid() && Got(r, DeleteAt(old(Rest())))
    {
      hide ExpectAll, WhereAt, Parser.Rest, Parser.Valid;
      var table := RequireAll([TokenType.DELETE, FROM, IDENTIFIER]);
      if table.None? {
        return None;
      }
      var where_ := ParseWhereClause();
      if where_.None? {
        return None;
      }
      return Some(DeleteStmt(DeleteStatement(table.value, where_.value)));
    }

    /** The loop over PRIMARY KEY and NOT NULL. */
    method ParseConstraints(def: ColumnDef) returns (r: Option<ColumnDef>)
      requires Valid() && pos > 0
      modifies this`pos
      ensures Valid() && Got(r, ConstraintsAt(def, old(Rest())))
    {
      hide ConstraintsAt;
      var cur := def;
      while tokens[pos].value == "PRIMARY" || Check(NOT)
        invariant Valid() && pos > 0
        invariant ConstraintsAt(cur, Rest()) == ConstraintsAt(def, old(Rest()))
        decreases |tokens| - pos
      {
        ConstraintsUnfold(cur, Rest());
        var primary := tokens[pos].value == "PRIMARY";
        var _ := Advance();
        var word := Require(IDENTIFIER);
        if word.None? {
          return None;
        }
        cur := if primary then cur.(primaryKey := true) else cur.(notNull := true);
      }
      ConstraintsUnfold(cur, Rest());
      return Some(cur);
    }

    method ParseColumnDef() returns (r: Option<ColumnDef>)
      requires Valid()
      modifies this`pos
      ensures Valid() && Got(r, ColumnDefAt(old(Rest())))
    {
      hide ConstraintsAt, Parser.Rest, Parser.Valid;
      var name := Require(IDENTIFIER);
      if name.None? {
        return None;
      }
      var typeName := Require(IDENTIFIER);
      if typeName.None? {
        return None;
      }
      r := ParseConstraints(ColumnDef(name.value, typeName.value, false, false));
    }

    method ParseColumnDefList() returns (r: Option<seq<ColumnDef>>)
      requires Valid()
      modifies this`pos
      ensures Valid() && Got(r, ListAt(ColumnDefAt, old(Rest())))
    {
      hide ListAt, ColumnDefAt;
      var defs: seq<ColumnDef> := [];
      PrependNone(ListAt(ColumnDefAt, Rest()));
      var more := true;
      while more
        invariant Valid()
        invariant more ==> Prepend(defs, ListAt(ColumnDefAt, Rest())) == ListAt(ColumnDefAt, old(Rest()))
        invariant !more ==> Ok(defs, Rest()) == ListAt(ColumnDefAt, old(Rest()))
        decreases more, |tokens| - pos
      {
        ListStep(ColumnDefAt, defs, Rest());
        var def := ParseColumnDef();
        if def.None? {
          return None;
        }
        defs := defs + [def.value];
        more := Match(COMMA);
      }
      return Some(defs);
    }

    method ParseCreateTable() returns (r: Option<Statement>)
      requires Valid()
      modifies this`pos
      ensures Valid() && Got(r, CreateTableAt(old(Rest())))
    {
      hide Expect, ExpectAll, ListAt, Parser.Rest, Parser.Valid;
      var table := RequireAll([CREATE, TABLE, IDENTIFIER]);
      if table.None? {
        return None;
      }
      var open := Require(LPAREN);
      if open.None? {
        return None;
      }
      var defs := ParseColumnDefList();
      if defs.None? {
        return None;
      }
      var close := Require(RPAREN);
      if close.None? {
        return None;
      }
      return Some(CreateTable(table.value, defs.value));
    }

    method ParseDropTable() returns (r: Option<Statement>)
      requires Valid()
      modifies this`pos
      ensures Valid() && Got(r, DropTableAt(old(Rest())))
    {
      hide ExpectAll, Parser.Rest, Parser.Valid;
      var table := RequireAll([DROP, TABLE, IDENTIFIER]);
      if table.None? {
        return None;
      }
      return Some(DropTable(table.value));
    }

    method ParseStatement() returns (r: Option<Statement>)
      requires Valid()
      modifies this`pos
      ensures Valid() && Got(r, StatementAt(old(Rest())))
    {
      hide SelectAt, InsertAt, UpdateAt, DeleteAt, CreateTableAt, DropTableAt;
      match tokens[pos].kind
      case SELECT => r := ParseSelect();
      case INSERT => r := ParseInsert();
      case UPDATE => r := ParseUpdate();
      case DELETE => r := ParseDelete();
      case CREATE => r := ParseCreateTable();
      case DROP => r := ParseDropTable();
      case _ => r := None;
    }

    /** One statement; a semicolon after it is passed over. */
    method Parse() returns (r: Option<Statement>)
      requires Valid()
      modifies this`pos
      ensures Valid() && Got(r, ParseAt(old(Rest())))
    {
      hide StatementAt, Parser.Rest, Parser.Valid;
      r := ParseStatement();
      if r.None? {
        return;
      }
      var _ := Match(SEMICOLON);
    }
  }

  // ----- the grammar, one step at a time -----

  lemma ExpressionUnfolds(ts: seq<Lexeme>)
    ensures ComparisonAt(ts).Err? ==> ExpressionAt(ts) == Err
    ensures ComparisonAt(ts).Ok? ==> ExpressionAt(ts) == ExpressionTail(ComparisonAt(ts).value, ComparisonAt(ts).rest)
    ensures ComparisonAt(ts).Ok? ==> |ComparisonAt(ts).rest| < |ts|
  {
    hide ComparisonAt, ExpressionTail;
  }

  lemma ExpressionTailUnfolds(left: Expr, ts: seq<Lexeme>)
    ensures !IsLogical(Kind(ts)) ==> ExpressionTail(left, ts) == Ok(left, ts)
    ensures IsLogical(Kind(ts)) && ComparisonAt(ts[1..]).Err? ==> ExpressionTail(left, ts) == Err
    ensures IsLogical(Kind(ts)) && ComparisonAt(ts[1..]).Ok? ==>
      var right := ComparisonAt(ts[1..]);
      ExpressionTail(left, ts) == ExpressionTail(Binary(ts[0].value, left, right.value), right.rest) && |right.rest| < |ts|
  {
    hide ComparisonAt;
  }

  lemma ComparisonUnfolds(ts: seq<Lexeme>)
    ensures UnaryAt(ts).Err? ==> ComparisonAt(ts) == Err
    ensures UnaryAt(ts).Ok? ==> ComparisonAt(ts) == ComparisonTail(UnaryAt(ts).value, UnaryAt(ts).rest)
    ensures UnaryAt(ts).Ok? ==> |UnaryAt(ts).rest| < |ts|
  {
    hide UnaryAt, ComparisonTail;
  }

  lemma ComparisonTailUnfolds(left: Expr, ts: seq<Lexeme>)
    ensures !IsComparison(Kind(ts)) ==> ComparisonTail(left, ts) == Ok(left, ts)
    ensures IsComparison(Kind(ts)) && UnaryAt(ts[1..]).Err? ==> ComparisonTail(left, ts) == Err
    ensures IsComparison(Kind(ts)) && UnaryAt(ts[1..]).Ok? ==>
      var right := UnaryAt(ts[1..]);
      ComparisonTail(left, ts) == ComparisonTail(Binary(ts[0].value, left, right.value), right.rest) && |right.rest| < |ts|
  {
    hide UnaryAt;
  }

  lemma UnaryUnfolds(ts: seq<Lexeme>)
    ensures Kind(ts) != NOT && Kind(ts) != MINUS ==> UnaryAt(ts) == PrimaryAt(ts)
    ensures Kind(ts) == NOT || Kind(ts) == MINUS ==>
      var operand := UnaryAt(ts[1..]);
      UnaryAt(ts) == if operand.Err? then Err else Ok(Unary(ts[0].value, operand.value), operand.rest)
  {
    hide PrimaryAt;
    if ts == [] {
      assert PrimaryAt(ts) == UnaryAt(ts);
    }
  }

  lemma LiteralUnfolds(ts: seq<Lexeme>)
    requires ts != []
    ensures ts[0].kind == NUMBER ==> PrimaryAt(ts) == Ok(Literal(NumberKind(ts[0].value), ts[0].value), ts[1..])
    ensures ts[0].kind == STRING ==> PrimaryAt(ts) == Ok(Literal(String, ts[0].value), ts[1..])
    ensures ts[0].kind == BOOL_TRUE || ts[0].kind == BOOL_FALSE ==>
      PrimaryAt(ts) == Ok(Literal(Bool, ts[0].value), ts[1..])
    ensures ts[0].kind !in {NUMBER, STRING, BOOL_TRUE, BOOL_FALSE, IDENTIFIER, LPAREN} ==> PrimaryAt(ts) == Err
  {
    hide ExpressionAt, Expect;
  }

  lemma ColumnUnfolds(ts: seq<Lexeme>)
    requires ts != [] && ts[0].kind == IDENTIFIER
    ensures Kind(ts[1..]) != DOT ==> PrimaryAt(ts) == Ok(ColumnRef("", ts[0].value), ts[1..])
    ensures Kind(ts[1..]) == DOT ==>
      var column := Expect(ts[1..][1..], IDENTIFIER);
      PrimaryAt(ts) == if column.Err? then Err else Ok(ColumnRef(ts[0].value, column.value), column.rest)
  {
    hide ExpressionAt, Expect;
  }

  lemma ParenthesesUnfold(ts: seq<Lexeme>)
    requires ts != [] && ts[0].kind == LPAREN
    ensures var inner := ExpressionAt(ts[1..]);
            if inner.Err? then PrimaryAt(ts) == Err
            else
              var close := Expect(inner.rest, RPAREN);
              PrimaryAt(ts) == if close.Err? then Err else Ok(inner.value, close.rest)
  {
    hide ExpressionAt, Expect;
  }

  lemma ConstraintsUnfold(def: ColumnDef, ts: seq<Lexeme>)
    ensures ts != [] ==>
      var word := Expect(ts[1..], IDENTIFIER);
      var next := if ts[0].value == "PRIMARY" then def.(primaryKey := true) else def.(notNull := true);
      ConstraintsAt(def, ts) ==
        if ts[0].value != "PRIMARY" && ts[0].kind != NOT then Ok(def, ts)
        else if word.Err? then Err
        else ConstraintsAt(next, word.rest)
  {
  }
}
