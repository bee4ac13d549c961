/** Whole statements as tokens, and what the parser makes of them. */
module PrintStatements {
  import opened Ast
  import Decimal
  import opened Grammar
  import opened Options
  import opened Parsing
  import opened Printing
  import opened StatementGrammar
  import opened Tokens

  // ----- the tokens of each part -----

  function Word(k: TokenType, value: string): seq<Lexeme> {
    [Lexeme(k, value)]
  }

  function Name(name: string): seq<Lexeme> {
    Word(IDENTIFIER, name)
  }

  function Comma(): seq<Lexeme> {
    Word(COMMA, ",")
  }

  function PrintList<T>(print_: T -> seq<Lexeme>, xs: seq<T>): seq<Lexeme> {
    if xs == [] then []
    else if |xs| == 1 then print_(xs[0])
    else print_(xs[0]) + (Comma() + PrintList(print_, xs[1..]))
  }

  function PrintValue(e: Expr): seq<Lexeme> {
    Print(e, 0)
  }

  function PrintAssignment(a: Assignment): seq<Lexeme> {
    Name(a.column) + Word(EQ, "=") + Print(a.value, 0)
  }

  function PrintOrderItem(c: OrderByClause): seq<Lexeme> {
    if c.ascending then Name(c.column) else Name(c.column) + Word(DESC, "DESC")
  }

  function PrintPrimary(primary: bool): seq<Lexeme> {
    if primary then Name("PRIMARY") + Name("KEY") else []
  }

  function PrintNotNull(notNull: bool): seq<Lexeme> {
    if notNull then Word(NOT, "NOT") + Name("NULL") else []
  }

  function PrintColumnDef(def: ColumnDef): seq<Lexeme> {
    Name(def.name) + Name(def.typeName) + PrintPrimary(def.primaryKey) + PrintNotNull(def.notNull)
  }

  function PrintWhere(where_: Option<Expr>): seq<Lexeme> {
    if where_.None? then [] else Word(WHERE, "WHERE") + Print(where_.value, 0)
  }

  function PrintOrderBy(cs: seq<OrderByClause>): seq<Lexeme> {
    if cs == [] then [] else Word(ORDER, "ORDER") + Word(BY, "BY") + PrintList(PrintOrderItem, cs)
  }

  function PrintLimit(limit: Option<int>): seq<Lexeme> {
    if limit.None? || limit.value < 0 then [] else Word(LIMIT, "LIMIT") + Word(NUMBER, Decimal.Format(limit.value))
  }

  function PrintSelectColumns(columns: seq<string>): seq<Lexeme> {
    if columns == ["*"] then Word(STAR, "*") else PrintList(Name, columns)
  }

  function PrintStatement(s: Statement): seq<Lexeme> {
    match s
    case SelectStmt(q) =>
      Word(TokenType.SELECT, "SELECT") + (PrintSelectColumns(q.columns) + (Word(FROM, "FROM") + (Name(q.table) +
      (PrintWhere(q.where_) + (PrintOrderBy(q.orderBy) + PrintLimit(q.limit))))))
    case InsertStmt(i) =>
      Word(TokenType.INSERT, "INSERT") + (Word(INTO, "INTO") + (Name(i.table) + (Word(LPAREN, "(") +
      (PrintList(Name, i.columns) + (Word(RPAREN, ")") + (Word(VALUES, "VALUES") + (Word(LPAREN, "(") +
      (PrintList(PrintValue, i.values) + Word(RPAREN, ")")))))))))
    case UpdateStmt(u) =>
      Word(TokenType.UPDATE, "UPDATE") + (Name(u.table) + (Word(SET, "SET") +
      (PrintList(PrintAssignment, u.assignments) + PrintWhere(u.where_))))
    case DeleteStmt(d) =>
      Word(TokenType.DELETE, "DELETE") + (Word(FROM, "FROM") + (Name(d.table) + PrintWhere(d.where_)))
    case CreateTable(table, defs) =>
      Word(CREATE, "CREATE") + (Word(TABLE, "TABLE") + (Name(table) + (Word(LPAREN, "(") +
      (PrintList(PrintColumnDef, defs) + Word(RPAREN, ")")))))
    case DropTable(table) => Word(DROP, "DROP") + (Word(TABLE, "TABLE") + Name(table))
  }

  /** The statement could have come from a text: no list is empty, and a limit is an int. */
  ghost predicate Writable(s: Statement) {
    match s
    case SelectStmt(q) =>
      q.columns != [] && (q.where_.Some? ==> Printable(q.where_.value)) && (q.limit.Some? ==> 0 <= q.limit.value <= INT_MAX)
    case InsertStmt(i) => i.columns != [] && i.values != [] && forall e :: e in i.values ==> Printable(e)
    case UpdateStmt(u) =>
      && u.assignments != [] && (forall a :: a in u.assignments ==> Printable(a.value))
      && (u.where_.Some? ==> Printable(u.where_.value))
    case DeleteStmt(d) => d.where_.Some? ==> Printable(d.where_.value)
    case CreateTable(_, defs) => defs != []
    case DropTable(_) => true
  }

  // ----- what is printed is derived -----

  lemma PlainBoth(a: seq<Lexeme>, b: seq<Lexeme>)
    requires Plain(a) && Plain(b)
    ensures Plain(a + b)
  {
  }

  lemma PlainWord(k: TokenType, value: string)
    requires value != "PRIMARY" || (k != COMMA && k != RPAREN)
    ensures Plain(Word(k, value))
  {
  }

  lemma PlainLeaf(e: Expr)
    requires Printable(e) && Rung(e) == 3
    ensures Plain(PrintLeaf(e))
  {
    hide Upper;
  }

  lemma PlainOperator(k: TokenType, value: string)
    requires k != COMMA && k != RPAREN
    ensures Plain([Lexeme(k, value)])
  {
  }

  lemma OperatorIsNone(e: Expr)
    ensures e.Binary? && BinaryKind(e.op).Some? ==> BinaryKind(e.op).value !in {COMMA, RPAREN}
    ensures e.Unary? && UnaryKind(e.op).Some? ==> UnaryKind(e.op).value !in {COMMA, RPAREN}
  {
    hide Upper;
  }

  lemma {:induction false} PlainPrint(e: Expr, rung: nat)
    requires Printable(e) && rung <= 3
    ensures Plain(Print(e, rung))
    decreases e, if Rung(e) < rung then 1 else 0
  {
    hide Plain, Printable, PrintLeaf, Upper, BinaryKind, UnaryKind, Rung;
    OperatorKinds(e);
    OperatorIsNone(e);
    if Rung(e) < rung {
      PlainPrint(e, 0);
      PlainWord(LPAREN, "(");
      PlainWord(RPAREN, ")");
      PlainBoth([Lexeme(LPAREN, "(")], Print(e, 0));
      PlainBoth([Lexeme(LPAREN, "(")] + Print(e, 0), [Lexeme(RPAREN, ")")]);
    } else {
      match e
      case Binary(op, left, right) =>
        PlainPrint(left, Rung(e));
        PlainPrint(right, Rung(e) + 1);
        PlainOperator(BinaryKind(op).value, op);
        PlainBoth(Print(left, Rung(e)), [Lexeme(BinaryKind(op).value, op)]);
        PlainBoth(Print(left, Rung(e)) + [Lexeme(BinaryKind(op).value, op)], Print(right, Rung(e) + 1));
      case Unary(op, operand) =>
        PlainPrint(operand, 2);
        PlainOperator(UnaryKind(op).value, op);
        PlainBoth([Lexeme(UnaryKind(op).value, op)], Print(operand, 2));
      case _ =>
        OnPrimaryRung(e);
        PlainLeaf(e);
    }
  }

  lemma OnPrimaryRung(e: Expr)
    requires !e.Binary? && !e.Unary?
    ensures Rung(e) == 3
  {
  }

  /** The printed item is a way to write it, and has no odd commas. */
  ghost predicate Writes<T(!new)>(form: (seq<Lexeme>, T) -> bool, print_: T -> seq<Lexeme>, x: T) {
    form(print_(x), x) && Plain(print_(x))
  }

  lemma {:induction false} PrintListForm<T(!new)>(form: (seq<Lexeme>, T) -> bool, print_: T -> seq<Lexeme>, xs: seq<T>)
    requires xs != [] && forall x :: x in xs ==> Writes(form, print_, x)
    ensures ListForm(form, PrintList(print_, xs), xs) && Plain(PrintList(print_, xs))
    decreases |xs|
  {
    hide ListForm, Plain;
    assert Writes(form, print_, xs[0]);
    if |xs| == 1 {
      OneItem(form, print_(xs[0]), xs[0]);
      assert xs == [xs[0]];
    } else {
      var back := PrintList(print_, xs[1..]);
      PrintListForm(form, print_, xs[1..]);
      MoreItems(form, print_(xs[0]), Lexeme(COMMA, ","), back, xs[0], xs[1..]);
      PlainWord(COMMA, ",");
      PlainBoth(Comma(), back);
      PlainBoth(print_(xs[0]), Comma() + back);
      assert print_(xs[0]) + [Lexeme(COMMA, ",")] + back == PrintList(print_, xs);
      assert [xs[0]] + xs[1..] == xs;
    }
  }

  lemma NamesForm(names: seq<string>)
    requires names != []
    ensures ListForm(NameForm, PrintList(Name, names), names) && Plain(PrintList(Name, names))
  {
    hide ListForm;
    forall x | x in names ensures Writes(NameForm, Name, x) {
      PlainWord(IDENTIFIER, x);
    }
    PrintListForm(NameForm, Name, names);
  }

  lemma PrintedForm(e: Expr)
    requires Printable(e)
    ensures ValueForm(Print(e, 0), e) && Plain(Print(e, 0))
  {
    hide Printable, Print, ExprForm, Plain;
    PrintForm(e, 0);
    PlainPrint(e, 0);
  }

  lemma ValuesForm(es: seq<Expr>)
    requires es != [] && forall e :: e in es ==> Printable(e)
    ensures ListForm(ValueForm, PrintList(PrintValue, es), es) && Plain(PrintList(PrintValue, es))
  {
    hide ListForm, Printable, Print, ValueForm, Plain;
    forall x | x in es ensures Writes(ValueForm, PrintValue, x) {
      PrintedForm(x);
    }
    PrintListForm(ValueForm, PrintValue, es);
  }

  lemma AssignmentPrints(a: Assignment)
    requires Printable(a.value)
    ensures Writes(AssignmentForm, PrintAssignment, a)
  {
    hide Printable, Print, ValueForm;
    PrintedForm(a.value);
    var ts := PrintAssignment(a);
    assert ts[2..] == Print(a.value, 0);
    PlainBoth(Name(a.column) + Word(EQ, "="), Print(a.value, 0));
  }

  lemma AssignmentsForm(assignments: seq<Assignment>)
    requires assignments != [] && forall a :: a in assignments ==> Printable(a.value)
    ensures ListForm(AssignmentForm, PrintList(PrintAssignment, assignments), assignments)
    ensures Plain(PrintList(PrintAssignment, assignments))
  {
    hide ListForm, Printable, AssignmentForm, PrintAssignment, Plain, Writes;
    forall x | x in assignments ensures Writes(AssignmentForm, PrintAssignment, x) {
      AssignmentPrints(x);
    }
    PrintListForm(AssignmentForm, PrintAssignment, assignments);
  }

  lemma WherePrints(where_: Option<Expr>)
    requires where_.Some? ==> Printable(where_.value)
    ensures WhereForm(PrintWhere(where_), where_) && Plain(PrintWhere(where_))
  {
    hide Printable, Print, ValueForm;
    if where_.Some? {
      PrintedForm(where_.value);
      assert PrintWhere(where_)[1..] == Print(where_.value, 0);
      PlainBoth(Word(WHERE, "WHERE"), Print(where_.value, 0));
    }
  }

  lemma OrderByPrints(cs: seq<OrderByClause>)
    ensures OrderByForm(PrintOrderBy(cs), cs) && Plain(PrintOrderBy(cs))
  {
    hide ListForm;
    if cs != [] {
      forall x | x in cs ensures Writes(OrderItemForm, PrintOrderItem, x) {
      }
      PrintListForm(OrderItemForm, PrintOrderItem, cs);
      var items := PrintList(PrintOrderItem, cs);
      assert PrintOrderBy(cs)[2..] == items;
      PlainBoth(Word(ORDER, "ORDER") + Word(BY, "BY"), items);
    }
  }

  /** A limit's digits read back as the limit, or not at all when it is too large for an int. */
  lemma StoiFormat(n: nat)
    ensures Stoi(Decimal.Format(n)) == if n <= INT_MAX then Some(n) else None
  {
    hide Stoi;
    var s := Decimal.Format(n);
    StoiPrefix(s, "");
    assert s + "" == s;
    Decimal.RoundTrip(n);
  }

  /** Only the leading digits count, so a limit of 1.5 is one of 1. */
  lemma StoiPrefix(s: string, rest: string)
    requires (forall c :: c in s ==> Decimal.IsDigit(c)) && (rest == "" || !Decimal.IsDigit(rest[0]))
    ensures Stoi(s + rest) == if s != "" && Decimal.Parse(s) <= INT_MAX then Some(Decimal.Parse(s)) else None
  {
    RunOver(Decimal.IsDigit, s, rest);
    assert (s + rest)[..|s|] == s;
  }

  lemma LimitPrints(limit: Option<int>)
    requires limit.Some? ==> 0 <= limit.value <= INT_MAX
    ensures LimitForm(PrintLimit(limit), limit) && Plain(PrintLimit(limit))
  {
    hide Stoi;
    if limit.Some? {
      StoiFormat(limit.value);
    }
  }

  lemma ColumnDefPrints(def: ColumnDef)
    ensures Writes(ColumnDefForm, PrintColumnDef, def)
  {
    hide PrintPrimary, PrintNotNull;
    var more := PrintPrimary(def.primaryKey) + PrintNotNull(def.notNull);
    ConstraintsPrint(def.primaryKey, def.notNull);
    assert PrintColumnDef(def) == Name(def.name) + Name(def.typeName) + more;
    assert PrintColumnDef(def)[2..] == more;
    PlainBoth(Name(def.name) + Name(def.typeName), more);
  }

  lemma ConstraintsPrint(primary: bool, notNull: bool)
    ensures var ts := PrintPrimary(primary) + PrintNotNull(notNull);
      ConstraintsForm(ts) && Plain(ts) && (SaysPrimary(ts) <==> primary) && (SaysNot(ts) <==> notNull)
  {
    hide Plain;
    var first, last := PrintPrimary(primary), PrintNotNull(notNull);
    NotNullPrints(notNull);
    PrimaryPlain(primary);
    PlainBoth(first, last);
    if primary {
      assert (first + last)[2..] == last;
    } else {
      assert first + last == last;
    }
  }

  lemma NotNullPrints(notNull: bool)
    ensures var ts := PrintNotNull(notNull);
      ConstraintsForm(ts) && Plain(ts) && !SaysPrimary(ts) && (SaysNot(ts) <==> notNull)
  {
    var ts := PrintNotNull(notNull);
    assert notNull ==> ts[2..] == [];
  }

  lemma PrimaryPlain(primary: bool)
    ensures Plain(PrintPrimary(primary))
  {
  }

  lemma ColumnDefsForm(defs: seq<ColumnDef>)
    requires defs != []
    ensures ListForm(ColumnDefForm, PrintList(PrintColumnDef, defs), defs) && Plain(PrintList(PrintColumnDef, defs))
  {
    hide ListForm, ColumnDefForm, PrintColumnDef, Plain, Writes;
    forall x | x in defs ensures Writes(ColumnDefForm, PrintColumnDef, x) {
      ColumnDefPrints(x);
    }
    PrintListForm(ColumnDefForm, PrintColumnDef, defs);
  }

  lemma ColumnsPrint(columns: seq<string>)
    requires columns != []
    ensures ColumnsForm(PrintSelectColumns(columns), columns) && Plain(PrintSelectColumns(columns))
  {
    hide ListForm;
    if columns != ["*"] {
      NamesForm(columns);
    }
  }

  /** Five parts side by side. */
  lemma Parts(a: seq<Lexeme>, b: seq<Lexeme>, c: seq<Lexeme>, d: seq<Lexeme>, e: seq<Lexeme>)
    ensures var ts := a + (b + (c + (d + e)));
      var i := |a| + |b|;
      var j := i + |c|;
      ts[|a|..i] == b && ts[j..j + |d|] == d && ts[j + |d|..] == e && |ts| == j + |d| + |e|
      && (forall n :: 0 <= n < |a| ==> ts[n] == a[n]) && (forall n :: 0 <= n < |c| ==> ts[i + n] == c[n])
  {
  }

  lemma PlainParts(a: seq<Lexeme>, b: seq<Lexeme>, c: seq<Lexeme>, d: seq<Lexeme>, e: seq<Lexeme>)
    requires Plain(a) && Plain(b) && Plain(c) && Plain(d) && Plain(e)
    ensures Plain(a + (b + (c + (d + e))))
  {
    hide Plain;
    PlainBoth(d, e);
    PlainBoth(c, d + e);
    PlainBoth(b, c + (d + e));
    PlainBoth(a, b + (c + (d + e)));
  }

  lemma SelectPrints(q: SelectStatement)
    requires Writable(SelectStmt(q))
    ensures SelectForm(PrintStatement(SelectStmt(q)), q) && Plain(PrintStatement(SelectStmt(q)))
  {
    hide ColumnsForm, WhereForm, OrderByForm, LimitForm, Printable, PrintSelectColumns, PrintWhere, PrintOrderBy,
      PrintLimit, Plain, SelectForm, PrintStatement;
    ColumnsPrint(q.columns);
    WherePrints(q.where_);
    OrderByPrints(q.orderBy);
    LimitPrints(q.limit);
    SelectParted(q, PrintSelectColumns(q.columns), PrintWhere(q.where_), PrintOrderBy(q.orderBy), PrintLimit(q.limit));
    SelectPlain(q.table, PrintSelectColumns(q.columns), PrintWhere(q.where_), PrintOrderBy(q.orderBy), PrintLimit(q.limit));
    SelectText(q);
  }

  function SelectTokens(table: string, columns: seq<Lexeme>, where_: seq<Lexeme>, order: seq<Lexeme>,
                        limit: seq<Lexeme>): seq<Lexeme> {
    Word(TokenType.SELECT, "SELECT") + (columns + (Word(FROM, "FROM") + Name(table) + (where_ + (order + limit))))
  }

  lemma SelectText(q: SelectStatement)
    ensures PrintStatement(SelectStmt(q)) == SelectTokens(q.table, PrintSelectColumns(q.columns), PrintWhere(q.where_),
                                                          PrintOrderBy(q.orderBy), PrintLimit(q.limit))
  {
    hide PrintSelectColumns, PrintWhere, PrintOrderBy, PrintLimit, Word, Name;
    var tail := PrintWhere(q.where_) + (PrintOrderBy(q.orderBy) + PrintLimit(q.limit));
    assert Word(FROM, "FROM") + (Name(q.table) + tail) == Word(FROM, "FROM") + Name(q.table) + tail;
  }

  lemma SelectParted(q: SelectStatement, columns: seq<Lexeme>, where_: seq<Lexeme>, order: seq<Lexeme>, limit: seq<Lexeme>)
    requires ColumnsForm(columns, q.columns) && WhereForm(where_, q.where_) && OrderByForm(order, q.orderBy)
    requires LimitForm(limit, q.limit)
    ensures SelectForm(SelectTokens(q.table, columns, where_, order, limit), q)
  {
    hide ColumnsForm, WhereForm, OrderByForm, LimitForm;
    var ts := SelectTokens(q.table, columns, where_, order, limit);
    var i := 1 + |columns|;
    var j := i + 2 + |where_|;
    var k := j + |order|;
    var from := Word(FROM, "FROM") + Name(q.table);
    Parts(Word(TokenType.SELECT, "SELECT"), columns, from, where_, order + limit);
    assert ts[i] == from[0] && ts[i + 1] == from[1];
    assert ts[j..k] == ts[j..][..|order|] && ts[k..] == ts[j..][|order|..];
    assert SelectParts(ts, q, i, j, k);
  }

  lemma SelectPlain(table: string, columns: seq<Lexeme>, where_: seq<Lexeme>, order: seq<Lexeme>, limit: seq<Lexeme>)
    requires Plain(columns) && Plain(where_) && Plain(order) && Plain(limit)
    ensures Plain(SelectTokens(table, columns, where_, order, limit))
  {
    hide Plain;
    PlainWord(TokenType.SELECT, "SELECT");
    PlainWord(FROM, "FROM");
    PlainWord(IDENTIFIER, table);
    PlainBoth(Word(FROM, "FROM"), Name(table));
    PlainBoth(order, limit);
    PlainParts(Word(TokenType.SELECT, "SELECT"), columns, Word(FROM, "FROM") + Name(table), where_, order + limit);
  }

  function InsertHead(table: string): seq<Lexeme> {
    Word(TokenType.INSERT, "INSERT") + Word(INTO, "INTO") + Name(table) + Word(LPAREN, "(")
  }

  function InsertMiddle(): seq<Lexeme> {
    Word(RPAREN, ")") + Word(VALUES, "VALUES") + Word(LPAREN, "(")
  }

  function InsertTokens(table: string, columns: seq<Lexeme>, values: seq<Lexeme>): seq<Lexeme> {
    InsertHead(table) + (columns + (InsertMiddle() + (values + Word(RPAREN, ")"))))
  }

  lemma InsertPrints(i: InsertStatement)
    requires Writable(InsertStmt(i))
    ensures InsertForm(PrintStatement(InsertStmt(i)), i) && Plain(PrintStatement(InsertStmt(i)))
  {
    hide ListForm, Printable, PrintList, Plain, InsertForm, PrintStatement, InsertTokens;
    NamesForm(i.columns);
    ValuesForm(i.values);
    InsertText(i);
    InsertParted(i, PrintList(Name, i.columns), PrintList(PrintValue, i.values));
    InsertPlain(i.table, PrintList(Name, i.columns), PrintList(PrintValue, i.values));
  }

  lemma InsertText(i: InsertStatement)
    ensures PrintStatement(InsertStmt(i)) == InsertTokens(i.table, PrintList(Name, i.columns), PrintList(PrintValue, i.values))
  {
    hide PrintList, Word, Name;
    var tail := PrintList(PrintValue, i.values) + Word(RPAREN, ")");
    FourThen(Word(TokenType.INSERT, "INSERT"), Word(INTO, "INTO"), Name(i.table), Word(LPAREN, "("),
             PrintList(Name, i.columns) + (InsertMiddle() + tail));
    FourThen([], Word(RPAREN, ")"), Word(VALUES, "VALUES"), Word(LPAREN, "("), tail);
    Without(Word(RPAREN, ")"));
    Without(Word(RPAREN, ")") + (Word(VALUES, "VALUES") + (Word(LPAREN, "(") + tail)));
  }

  lemma FourThen(a: seq<Lexeme>, b: seq<Lexeme>, c: seq<Lexeme>, d: seq<Lexeme>, more: seq<Lexeme>)
    ensures a + (b + (c + (d + more))) == a + b + c + d + more
  {
  }

  lemma InsertParted(i: InsertStatement, columns: seq<Lexeme>, values: seq<Lexeme>)
    requires ListForm(NameForm, columns, i.columns) && ListForm(ValueForm, values, i.values)
    ensures InsertForm(InsertTokens(i.table, columns, values), i)
  {
    hide ListForm;
    var ts := InsertTokens(i.table, columns, values);
    var k := 4 + |columns|;
    Parts(InsertHead(i.table), columns, InsertMiddle(), values, Word(RPAREN, ")"));
    var head, middle := InsertHead(i.table), InsertMiddle();
    assert ts[0] == head[0] && ts[1] == head[1] && ts[2] == head[2] && ts[3] == head[3];
    assert ts[k] == middle[0] && ts[k + 1] == middle[1] && ts[k + 2] == middle[2];
    assert ts[|ts| - 1] == ts[|ts| - 1..][0];
    assert InsertParts(ts, i, k);
  }

  lemma InsertPlain(table: string, columns: seq<Lexeme>, values: seq<Lexeme>)
    requires Plain(columns) && Plain(values)
    ensures Plain(InsertTokens(table, columns, values))
  {
    hide Plain;
    InsertHeadPlain(table);
    InsertMiddlePlain();
    PlainWord(RPAREN, ")");
    PlainParts(InsertHead(table), columns, InsertMiddle(), values, Word(RPAREN, ")"));
  }

  lemma InsertHeadPlain(table: string)
    ensures Plain(InsertHead(table))
  {
  }

  lemma InsertMiddlePlain()
    ensures Plain(InsertMiddle())
  {
  }

  lemma UpdatePrints(u: UpdateStatement)
    requires Writable(UpdateStmt(u))
    ensures UpdateForm(PrintStatement(UpdateStmt(u)), u) && Plain(PrintStatement(UpdateStmt(u)))
  {
    hide ListForm, WhereForm, Printable, PrintList, PrintWhere, Plain, UpdateForm;
    AssignmentsForm(u.assignments);
    WherePrints(u.where_);
    var assignments, where_ := PrintList(PrintAssignment, u.assignments), PrintWhere(u.where_);
    UpdateParted(u, assignments, where_);
    PlainThree(TokenType.UPDATE, "UPDATE", IDENTIFIER, u.table, SET, "SET");
    PlainBoth(assignments, where_);
    PlainBoth(UpdateHead(u.table), assignments + where_);
    UpdateText(u.table, assignments + where_);
  }

  function UpdateHead(table: string): seq<Lexeme> {
    Word(TokenType.UPDATE, "UPDATE") + Name(table) + Word(SET, "SET")
  }

  lemma UpdateText(table: string, more: seq<Lexeme>)
    ensures Word(TokenType.UPDATE, "UPDATE") + (Name(table) + (Word(SET, "SET") + more)) == UpdateHead(table) + more
  {
  }

  lemma UpdateParted(u: UpdateStatement, assignments: seq<Lexeme>, where_: seq<Lexeme>)
    requires ListForm(AssignmentForm, assignments, u.assignments) && WhereForm(where_, u.where_)
    ensures UpdateForm(UpdateHead(u.table) + (assignments + where_), u)
  {
    hide ListForm, WhereForm;
    var ts := UpdateHead(u.table) + (assignments + where_);
    var k := 3 + |assignments|;
    assert ts[3..k] == assignments && ts[k..] == where_;
    assert UpdateParts(ts, u, k);
  }

  lemma DeletePrints(d: DeleteStatement)
    requires Writable(DeleteStmt(d))
    ensures DeleteForm(PrintStatement(DeleteStmt(d)), d) && Plain(PrintStatement(DeleteStmt(d)))
  {
    hide WhereForm, Printable, PrintWhere, Plain;
    WherePrints(d.where_);
    var head := Word(TokenType.DELETE, "DELETE") + Word(FROM, "FROM") + Name(d.table);
    assert PrintStatement(DeleteStmt(d)) == head + PrintWhere(d.where_);
    assert PrintStatement(DeleteStmt(d))[3..] == PrintWhere(d.where_);
    assert Plain(head) by {
      PlainThree(TokenType.DELETE, "DELETE", FROM, "FROM", IDENTIFIER, d.table);
    }
    PlainBoth(head, PrintWhere(d.where_));
  }

  lemma PlainThree(k: TokenType, a: string, l: TokenType, b: string, m: TokenType, c: string)
    requires k !in {COMMA, RPAREN} && l !in {COMMA, RPAREN} && m !in {COMMA, RPAREN}
    ensures Plain(Word(k, a) + Word(l, b) + Word(m, c))
  {
  }

  lemma CreatePrints(table: string, defs: seq<ColumnDef>)
    requires defs != []
    ensures CreateForm(PrintStatement(CreateTable(table, defs)), table, defs)
    ensures Plain(PrintStatement(CreateTable(table, defs)))
  {
    hide ListForm, PrintList, Plain;
    ColumnDefsForm(defs);
    var ts := PrintStatement(CreateTable(table, defs));
    var list := PrintList(PrintColumnDef, defs);
    var head := Word(CREATE, "CREATE") + Word(TABLE, "TABLE") + Name(table);
    FourThen(Word(CREATE, "CREATE"), Word(TABLE, "TABLE"), Name(table), Word(LPAREN, "("), list + Word(RPAREN, ")"));
    assert ts == head + Word(LPAREN, "(") + (list + Word(RPAREN, ")"));
    assert ts[4..|ts| - 1] == list;
    PlainThree(CREATE, "CREATE", TABLE, "TABLE", IDENTIFIER, table);
    PlainWord(LPAREN, "(");
    PlainWord(RPAREN, ")");
    PlainBoth(head, Word(LPAREN, "("));
    PlainBoth(list, Word(RPAREN, ")"));
    PlainBoth(head + Word(LPAREN, "("), list + Word(RPAREN, ")"));
  }

  /** A statement printed with nothing optional is one of the ways to write it. */
  lemma StatementPrints(s: Statement)
    requires Writable(s)
    ensures StatementForm(PrintStatement(s), s) && Plain(PrintStatement(s))
  {
    hide PrintStatement, SelectForm, InsertForm, UpdateForm, DeleteForm, CreateForm, Printable, Plain;
    match s
    case SelectStmt(q) => SelectPrints(q);
    case InsertStmt(i) => InsertPrints(i);
    case UpdateStmt(u) => UpdatePrints(u);
    case DeleteStmt(d) => DeletePrints(d);
    case CreateTable(table, defs) => CreatePrints(table, defs);
    case DropTable(table) => DropPrints(table);
  }

  lemma DropPrints(table: string)
    ensures DropForm(PrintStatement(DropTable(table)), table) && Plain(PrintStatement(DropTable(table)))
  {
  }

  /** Every statement that has a text reads back as itself from its tokens, and the parser takes
      exactly those. */
  lemma StatementReadsBack(s: Statement, rest: seq<Lexeme>)
    requires Writable(s) && Ends(rest)
    ensures StatementAt(PrintStatement(s) + rest) == Ok(s, rest)
  {
    hide PrintStatement, StatementForm, StatementAt, Writable, Plain;
    StatementPrints(s);
    StatementReads(PrintStatement(s), s, rest);
  }
}
