/** The grammar of statements, with everything the parser lets a writer choose: ASC or not, any order of
    constraints, a closing semicolon, more parentheses than are needed. The parser accepts exactly what
    it derives. */
module StatementGrammar {
  import opened Ast
  import opened Grammar
  import opened Options
  import opened Parsing
  import opened Tokens

  // ----- forms -----

  ghost predicate NameForm(ts: seq<Lexeme>, name: string) {
    |ts| == 1 && ts[0].kind == IDENTIFIER && ts[0].value == name
  }

  /** Items with commas between. */
  ghost predicate ListForm<T(!new)>(form: (seq<Lexeme>, T) -> bool, ts: seq<Lexeme>, xs: seq<T>)
    decreases |xs|
  {
    xs != [] && (if |xs| == 1 then form(ts, xs[0]) else exists i :: CommaAt(form, ts, xs, i))
  }

  ghost predicate CommaAt<T(!new)>(form: (seq<Lexeme>, T) -> bool, ts: seq<Lexeme>, xs: seq<T>, i: int)
    requires |xs| > 1
    decreases |xs|, 0
  {
    0 <= i < |ts| && ts[i].kind == COMMA && form(ts[..i], xs[0]) && ListForm(form, ts[i + 1..], xs[1..])
  }

  ghost predicate AssignmentForm(ts: seq<Lexeme>, a: Assignment) {
    |ts| >= 2 && ts[0].kind == IDENTIFIER && ts[0].value == a.column && ts[1].kind == EQ && ValueForm(ts[2..], a.value)
  }

  ghost predicate WhereForm(ts: seq<Lexeme>, where_: Option<Expr>) {
    match where_
    case None => ts == []
    case Some(e) => ts != [] && ts[0].kind == WHERE && ValueForm(ts[1..], e)
  }

  /** A name, then nothing, ASC, DESC or DESC ASC; DESC alone decides. */
  ghost predicate OrderItemForm(ts: seq<Lexeme>, c: OrderByClause) {
    && 1 <= |ts| <= 3 && ts[0].kind == IDENTIFIER && ts[0].value == c.column
    && (|ts| == 2 ==> ts[1].kind == ASC || ts[1].kind == DESC)
    && (|ts| == 3 ==> ts[1].kind == DESC && ts[2].kind == ASC)
    && (c.ascending <==> |ts| == 1 || ts[1].kind == ASC)
  }

  ghost predicate OrderByForm(ts: seq<Lexeme>, cs: seq<OrderByClause>) {
    if cs == [] then ts == []
    else |ts| >= 2 && ts[0].kind == ORDER && ts[1].kind == BY && ListForm(OrderItemForm, ts[2..], cs)
  }

  ghost predicate LimitForm(ts: seq<Lexeme>, limit: Option<int>) {
    match limit
    case None => ts == []
    case Some(n) => |ts| == 2 && ts[0].kind == LIMIT && ts[1].kind == NUMBER && Stoi(ts[1].value) == Some(n)
  }

  ghost predicate ColumnsForm(ts: seq<Lexeme>, columns: seq<string>) {
    (|ts| == 1 && ts[0].kind == STAR && columns == ["*"]) || ListForm(NameForm, ts, columns)
  }

  ghost predicate SelectForm(ts: seq<Lexeme>, q: SelectStatement) {
    exists i, j, k :: SelectParts(ts, q, i, j, k)
  }

  /** FROM is token i, ORDER BY starts at j and LIMIT at k. */
  ghost predicate SelectParts(ts: seq<Lexeme>, q: SelectStatement, i: int, j: int, k: int) {
    && 1 <= i && i + 2 <= j <= k <= |ts|
    && ts[0].kind == TokenType.SELECT && ColumnsForm(ts[1..i], q.columns)
    && ts[i].kind == FROM && ts[i + 1].kind == IDENTIFIER && ts[i + 1].value == q.table
    && WhereForm(ts[i + 2..j], q.where_) && OrderByForm(ts[j..k], q.orderBy) && LimitForm(ts[k..], q.limit)
  }

  ghost predicate InsertForm(ts: seq<Lexeme>, i: InsertStatement) {
    exists k :: InsertParts(ts, i, k)
  }

  /** The columns end before token k. */
  ghost predicate InsertParts(ts: seq<Lexeme>, i: InsertStatement, k: int) {
    InsertWords(ts, i.table, k) && InsertLists(ts, i, k)
  }

  predicate InsertWords(ts: seq<Lexeme>, table: string, k: int) {
    && 4 <= k && k + 4 <= |ts|
    && ts[0].kind == TokenType.INSERT && ts[1].kind == INTO && ts[2].kind == IDENTIFIER && ts[2].value == table
    && ts[3].kind == LPAREN && ts[k].kind == RPAREN && ts[k + 1].kind == VALUES && ts[k + 2].kind == LPAREN
    && ts[|ts| - 1].kind == RPAREN
  }

  ghost predicate InsertLists(ts: seq<Lexeme>, i: InsertStatement, k: int)
    requires InsertWords(ts, i.table, k)
  {
    ListForm(NameForm, ts[4..k], i.columns) && ListForm(ValueForm, ts[k + 3..|ts| - 1], i.values)
  }

  ghost predicate UpdateForm(ts: seq<Lexeme>, u: UpdateStatement) {
    exists k :: UpdateParts(ts, u, k)
  }

  /** WHERE starts at token k. */
  ghost predicate UpdateParts(ts: seq<Lexeme>, u: UpdateStatement, k: int) {
    && 3 <= k <= |ts|
    && ts[0].kind == TokenType.UPDATE && ts[1].kind == IDENTIFIER && ts[1].value == u.table && ts[2].kind == SET
    && ListForm(AssignmentForm, ts[3..k], u.assignments) && WhereForm(ts[k..], u.where_)
  }

  ghost predicate DeleteForm(ts: seq<Lexeme>, d: DeleteStatement) {
    && |ts| >= 3 && ts[0].kind == TokenType.DELETE && ts[1].kind == FROM
    && ts[2].kind == IDENTIFIER && ts[2].value == d.table && WhereForm(ts[3..], d.where_)
  }

  /** Pairs of a word and a name: PRIMARY in whatever token, or NOT. */
  ghost predicate ConstraintsForm(ts: seq<Lexeme>) {
    ts == [] ||
    (|ts| >= 2 && (IsPrimary(ts[0]) || ts[0].kind == NOT) && ts[1].kind == IDENTIFIER && ConstraintsForm(ts[2..]))
  }

  predicate IsPrimary(t: Lexeme) {
    t.value == "PRIMARY"
  }

  /** Some pair starts with PRIMARY. */
  ghost predicate SaysPrimary(ts: seq<Lexeme>) {
    |ts| >= 2 && (IsPrimary(ts[0]) || SaysPrimary(ts[2..]))
  }

  /** Some pair starts with NOT. */
  ghost predicate SaysNot(ts: seq<Lexeme>) {
    |ts| >= 2 && (!IsPrimary(ts[0]) || SaysNot(ts[2..]))
  }

  ghost predicate ColumnDefForm(ts: seq<Lexeme>, def: ColumnDef) {
    && |ts| >= 2 && ts[0].kind == IDENTIFIER && ts[0].value == def.name
    && ts[1].kind == IDENTIFIER && ts[1].value == def.typeName && ConstraintsForm(ts[2..])
    && (def.primaryKey <==> SaysPrimary(ts[2..])) && (def.notNull <==> SaysNot(ts[2..]))
  }

  ghost predicate CreateForm(ts: seq<Lexeme>, table: string, defs: seq<ColumnDef>) {
    && |ts| >= 5 && ts[0].kind == CREATE && ts[1].kind == TABLE && ts[2].kind == IDENTIFIER && ts[2].value == table
    && ts[3].kind == LPAREN && ListForm(ColumnDefForm, ts[4..|ts| - 1], defs) && ts[|ts| - 1].kind == RPAREN
  }

  ghost predicate DropForm(ts: seq<Lexeme>, table: string) {
    |ts| == 3 && ts[0].kind == DROP && ts[1].kind == TABLE && ts[2].kind == IDENTIFIER && ts[2].value == table
  }

  /** The tokens are a way to write the statement. */
  ghost predicate StatementForm(ts: seq<Lexeme>, s: Statement) {
    match s
    case SelectStmt(q) => SelectForm(ts, q)
    case InsertStmt(i) => InsertForm(ts, i)
    case UpdateStmt(u) => UpdateForm(ts, u)
    case DeleteStmt(d) => DeleteForm(ts, d)
    case CreateTable(table, defs) => CreateForm(ts, table, defs)
    case DropTable(table) => DropForm(ts, table)
  }

  /** What may come after a statement: a semicolon or the end. */
  predicate Ends(rest: seq<Lexeme>) {
    Kind(rest) == SEMICOLON || Kind(rest) == END_OF_FILE
  }

  /** No comma or parenthesis is spelled PRIMARY, as none is that the lexer makes. */
  predicate Plain(ts: seq<Lexeme>) {
    forall l :: l in ts && (l.kind == COMMA || l.kind == RPAREN) ==> !IsPrimary(l)
  }

  predicate AtComma(more: seq<Lexeme>) {
    Kind(more) == COMMA && !IsPrimary(more[0])
  }

  // ----- what is derived is read -----

  lemma Leads(ts: seq<Lexeme>, rest: seq<Lexeme>)
    requires ts != []
    ensures ts + rest != [] && (ts + rest)[0] == ts[0] && (ts + rest)[1..] == ts[1..] + rest
    ensures Kind(ts + rest) == ts[0].kind && Expect(ts + rest, ts[0].kind) == Ok(ts[0].value, ts[1..] + rest)
  {
  }

  lemma Without(rest: seq<Lexeme>)
    ensures [] + rest == rest
  {
  }

  /** Read as an item with `more` behind it. */
  ghost predicate ReadsItem<T(!new)>(item: seq<Lexeme> -> Parsed<T>, ts: seq<Lexeme>, x: T, more: seq<Lexeme>) {
    ts != [] && item(ts + more) == Ok(x, more)
  }

  ghost predicate ReadsItems<T(!new)>(item: seq<Lexeme> -> Parsed<T>, form: (seq<Lexeme>, T) -> bool, rest: seq<Lexeme>) {
    forall ts, x, more | form(ts, x) && (more == rest || AtComma(more)) :: ReadsItem(item, ts, x, more)
  }

  lemma {:induction false} ListReads<T(!new)>(item: seq<Lexeme> -> Parsed<T>, form: (seq<Lexeme>, T) -> bool,
                                              ts: seq<Lexeme>, xs: seq<T>, rest: seq<Lexeme>)
    requires ListForm(form, ts, xs) && Plain(ts) && Kind(rest) != COMMA && ReadsItems(item, form, rest)
    ensures ts != [] && ListAt(item, ts + rest) == Ok(xs, rest)
    decreases |xs|
  {
    hide ListAt, ReadsItem, Kind;
    if |xs| == 1 {
      assert ReadsItem(item, ts, xs[0], rest);
      ItemTakes(item, ts, xs[0], rest);
      ListOne(item, ts, xs[0], rest);
      assert xs == [xs[0]];
    } else {
      var i :| CommaAt(form, ts, xs, i);
      var front, comma, back := ts[..i], ts[i], ts[i + 1..];
      assert ts == front + ([comma] + back);
      ListReads(item, form, back, xs[1..], rest);
      CommaLeads(ts, i, back + rest);
      assert ReadsItem(item, front, xs[0], [comma] + (back + rest));
      ItemTakes(item, front, xs[0], [comma] + (back + rest));
      ListCons(item, front, comma, back, xs, rest);
    }
  }

  lemma ItemTakes<T(!new)>(item: seq<Lexeme> -> Parsed<T>, ts: seq<Lexeme>, x: T, more: seq<Lexeme>)
    requires ReadsItem(item, ts, x, more)
    ensures ts != []
  {
  }

  lemma CommaLeads(ts: seq<Lexeme>, i: nat, more: seq<Lexeme>)
    requires i < |ts| && ts[i].kind == COMMA && Plain(ts)
    ensures Plain(ts[i + 1..]) && AtComma([ts[i]] + more)
  {
    assert ts[i] in ts && forall l :: l in ts[i + 1..] ==> l in ts;
  }

  lemma ListOne<T(!new)>(item: seq<Lexeme> -> Parsed<T>, ts: seq<Lexeme>, x: T, rest: seq<Lexeme>)
    requires ReadsItem(item, ts, x, rest) && Kind(rest) != COMMA
    ensures ListAt(item, ts + rest) == Ok([x], rest)
  {
  }

  lemma ListCons<T(!new)>(item: seq<Lexeme> -> Parsed<T>, front: seq<Lexeme>, comma: Lexeme, back: seq<Lexeme>,
                          xs: seq<T>, rest: seq<Lexeme>)
    requires xs != [] && comma.kind == COMMA && ReadsItem(item, front, xs[0], [comma] + (back + rest))
    requires ListAt(item, back + rest) == Ok(xs[1..], rest)
    ensures ListAt(item, front + ([comma] + back) + rest) == Ok(xs, rest)
  {
    var more := [comma] + (back + rest);
    HeadOf(comma, back + rest);
    assert front + ([comma] + back) + rest == front + more;
    assert [xs[0]] + xs[1..] == xs;
  }

  lemma NamesRead(ts: seq<Lexeme>, names: seq<string>, rest: seq<Lexeme>)
    requires ListForm(NameForm, ts, names) && Plain(ts) && Kind(rest) != COMMA
    ensures ts != [] && ListAt(NameAt, ts + rest) == Ok(names, rest)
  {
    hide ListForm, ListAt;
    forall us, x, more | NameForm(us, x)
      ensures ReadsItem(NameAt, us, x, more)
    {
      Leads(us, more);
      Without(more);
    }
    ListReads(NameAt, NameForm, ts, names, rest);
  }

  lemma {:induction false} NamesLead(ts: seq<Lexeme>, names: seq<string>)
    requires ListForm(NameForm, ts, names)
    ensures ts != [] && ts[0].kind == IDENTIFIER
  {
    if |names| > 1 {
      var i :| CommaAt(NameForm, ts, names, i);
      assert ts[..i][0] == ts[0];
    }
  }

  lemma ValuesRead(ts: seq<Lexeme>, es: seq<Expr>, rest: seq<Lexeme>)
    requires ListForm(ValueForm, ts, es) && Plain(ts) && Kind(rest) != COMMA && Stops(rest)
    ensures ts != [] && ListAt(ExpressionAt, ts + rest) == Ok(es, rest)
  {
    hide ListForm, ListAt, ExpressionAt, ValueForm;
    forall us, x, more | ValueForm(us, x) && (more == rest || AtComma(more))
      ensures ReadsItem(ExpressionAt, us, x, more)
    {
      ReadExpression(us, x, more);
    }
    ListReads(ExpressionAt, ValueForm, ts, es, rest);
  }

  lemma AssignmentReads(ts: seq<Lexeme>, a: Assignment, rest: seq<Lexeme>)
    requires AssignmentForm(ts, a) && Stops(rest)
    ensures ts != [] && AssignmentAt(ts + rest) == Ok(a, rest)
  {
    hide ExpressionAt, ValueForm;
    ReadExpression(ts[2..], a.value, rest);
    Leads(ts, rest);
    Leads(ts[1..], rest);
    assert ts[1..][1..] == ts[2..];
  }

  lemma AssignmentsRead(ts: seq<Lexeme>, assignments: seq<Assignment>, rest: seq<Lexeme>)
    requires ListForm(AssignmentForm, ts, assignments) && Plain(ts) && Kind(rest) != COMMA && Stops(rest)
    ensures ts != [] && ListAt(AssignmentAt, ts + rest) == Ok(assignments, rest)
  {
    hide ListForm, ListAt, AssignmentAt, AssignmentForm;
    forall us, x, more | AssignmentForm(us, x) && (more == rest || AtComma(more))
      ensures ReadsItem(AssignmentAt, us, x, more)
    {
      AssignmentReads(us, x, more);
    }
    ListReads(AssignmentAt, AssignmentForm, ts, assignments, rest);
  }

  lemma WhereReads(ts: seq<Lexeme>, where_: Option<Expr>, rest: seq<Lexeme>)
    requires WhereForm(ts, where_) && Stops(rest) && Kind(rest) != WHERE
    ensures WhereAt(ts + rest) == Ok(where_, rest)
  {
    hide ExpressionAt, ValueForm;
    if where_.Some? {
      ReadExpression(ts[1..], where_.value, rest);
      Leads(ts, rest);
    } else {
      Without(rest);
    }
  }

  /** A name by itself or with ASC reads as ascending, with DESC or DESC ASC as descending, and exactly
      those tokens are taken. */
  lemma OrderItemReads(ts: seq<Lexeme>, c: OrderByClause, rest: seq<Lexeme>)
    requires OrderItemForm(ts, c) && Kind(rest) != DESC && Kind(rest) != ASC
    ensures OrderItemAt(ts + rest) == Ok(c, rest)
  {
    Leads(ts, rest);
    if |ts| == 1 {
      Without(rest);
    } else {
      Leads(ts[1..], rest);
      if |ts| == 2 {
        assert ts[1..][1..] == [];
        Without(rest);
      } else {
        Leads(ts[1..][1..], rest);
        assert ts[1..][1..][1..] == [];
        Without(rest);
      }
    }
  }

  lemma OrderByReads(ts: seq<Lexeme>, cs: seq<OrderByClause>, rest: seq<Lexeme>)
    requires OrderByForm(ts, cs) && Plain(ts) && Kind(rest) !in {DESC, ASC, COMMA, ORDER}
    ensures OrderByAt(ts + rest) == Ok(cs, rest)
  {
    hide ListForm, ListAt, OrderItemAt, OrderItemForm;
    if cs == [] {
      Without(rest);
    } else {
      forall us, x, more | OrderItemForm(us, x) && (more == rest || AtComma(more))
        ensures ReadsItem(OrderItemAt, us, x, more)
      {
        OrderItemReads(us, x, more);
        ItemLeads(us, x);
      }
      ListReads(OrderItemAt, OrderItemForm, ts[2..], cs, rest);
      Leads(ts, rest);
      Leads(ts[1..], rest);
      assert ts[1..][1..] == ts[2..];
    }
  }

  lemma ItemLeads(ts: seq<Lexeme>, c: OrderByClause)
    requires OrderItemForm(ts, c)
    ensures ts != []
  {
  }

  lemma LimitReads(ts: seq<Lexeme>, limit: Option<int>, rest: seq<Lexeme>)
    requires LimitForm(ts, limit) && Kind(rest) != LIMIT
    ensures LimitAt(ts + rest) == Ok(limit, rest)
  {
    hide Stoi;
    if limit.Some? {
      Leads(ts, rest);
      Leads(ts[1..], rest);
      assert ts[1..][1..] == [];
    }
    Without(rest);
  }

  lemma ColumnsRead(ts: seq<Lexeme>, columns: seq<string>, rest: seq<Lexeme>)
    requires ColumnsForm(ts, columns) && Plain(ts) && Kind(rest) != COMMA
    ensures SelectColumnsAt(ts + rest) == Ok(columns, rest)
  {
    hide ListForm, ListAt;
    if |ts| == 1 && ts[0].kind == STAR && columns == ["*"] {
      Leads(ts, rest);
      Without(rest);
    } else {
      NamesRead(ts, columns, rest);
      NamesLead(ts, columns);
      Leads(ts, rest);
    }
  }

  /** The parser goes on past a constraint only at PRIMARY or NOT. */
  predicate NoConstraint(rest: seq<Lexeme>) {
    Kind(rest) != NOT && (rest != [] ==> !IsPrimary(rest[0]))
  }

  lemma {:induction false} ConstraintsRead(def: ColumnDef, ts: seq<Lexeme>, rest: seq<Lexeme>)
    requires ConstraintsForm(ts) && NoConstraint(rest)
    ensures ConstraintsAt(def, ts + rest) ==
            Ok(def.(primaryKey := def.primaryKey || SaysPrimary(ts), notNull := def.notNull || SaysNot(ts)), rest)
    decreases |ts|
  {
    if ts == [] {
      Without(rest);
    } else {
      Leads(ts, rest);
      Leads(ts[1..], rest);
      assert ts[1..][1..] == ts[2..];
      var next := if IsPrimary(ts[0]) then def.(primaryKey := true) else def.(notNull := true);
      ConstraintsRead(next, ts[2..], rest);
    }
  }

  lemma ColumnDefReads(ts: seq<Lexeme>, def: ColumnDef, rest: seq<Lexeme>)
    requires ColumnDefForm(ts, def) && NoConstraint(rest)
    ensures ts != [] && ColumnDefAt(ts + rest) == Ok(def, rest)
  {
    hide ConstraintsForm, SaysPrimary, SaysNot, ConstraintsAt;
    Leads(ts, rest);
    Leads(ts[1..], rest);
    assert ts[1..][1..] == ts[2..];
    ConstraintsRead(ColumnDef(def.name, def.typeName, false, false), ts[2..], rest);
  }

  lemma ColumnDefsRead(ts: seq<Lexeme>, defs: seq<ColumnDef>, rest: seq<Lexeme>)
    requires ListForm(ColumnDefForm, ts, defs) && Plain(ts) && Kind(rest) != COMMA && NoConstraint(rest)
    ensures ts != [] && ListAt(ColumnDefAt, ts + rest) == Ok(defs, rest)
  {
    hide ListForm, ListAt, ColumnDefAt, ColumnDefForm;
    forall us, x, more | ColumnDefForm(us, x) && (more == rest || AtComma(more))
      ensures ReadsItem(ColumnDefAt, us, x, more)
    {
      ColumnDefReads(us, x, more);
    }
    ListReads(ColumnDefAt, ColumnDefForm, ts, defs, rest);
  }

  // ----- whole statements are read -----

  /** The tokens from place a on, and what follows. */
  function From(ts: seq<Lexeme>, a: nat, rest: seq<Lexeme>): seq<Lexeme>
    requires a <= |ts|
  {
    ts[a..] + rest
  }

  lemma ExpectFrom(ts: seq<Lexeme>, a: nat, rest: seq<Lexeme>)
    requires a < |ts|
    ensures Expect(From(ts, a, rest), ts[a].kind) == Ok(ts[a].value, From(ts, a + 1, rest))
    ensures Kind(From(ts, a, rest)) == ts[a].kind && From(ts, a, rest) != [] && From(ts, a, rest)[1..] == From(ts, a + 1, rest)
  {
    Leads(ts[a..], rest);
    assert ts[a..][1..] == ts[a + 1..];
  }

  lemma CutFrom(ts: seq<Lexeme>, a: nat, b: nat, rest: seq<Lexeme>)
    requires a <= b <= |ts|
    ensures From(ts, a, rest) == ts[a..b] + From(ts, b, rest)
  {
  }

  lemma EndFrom(ts: seq<Lexeme>, rest: seq<Lexeme>)
    ensures From(ts, 0, rest) == ts + rest && From(ts, |ts|, rest) == rest
  {
  }

  lemma PlainPart(ts: seq<Lexeme>, a: nat, b: nat)
    requires Plain(ts) && a <= b <= |ts|
    ensures Plain(ts[a..b])
  {
    assert forall l :: l in ts[a..b] ==> l in ts;
  }

  lemma ThreeFrom(ts: seq<Lexeme>, a: nat, k1: TokenType, k2: TokenType, k3: TokenType, rest: seq<Lexeme>)
    requires a + 3 <= |ts| && ts[a].kind == k1 && ts[a + 1].kind == k2 && ts[a + 2].kind == k3
    ensures ExpectAll(From(ts, a, rest), [k1, k2, k3]) == Ok(ts[a + 2].value, From(ts, a + 3, rest))
  {
    hide From, Expect;
    ExpectFrom(ts, a, rest);
    ExpectFrom(ts, a + 1, rest);
    ExpectFrom(ts, a + 2, rest);
    assert [k1, k2, k3][1..] == [k2, k3] && [k2, k3][1..] == [k3];
    assert ExpectAll(From(ts, a + 2, rest), [k3]) == Ok(ts[a + 2].value, From(ts, a + 3, rest));
    assert ExpectAll(From(ts, a + 1, rest), [k2, k3]) == Ok(ts[a + 2].value, From(ts, a + 3, rest));
  }

  lemma TwoFrom(ts: seq<Lexeme>, a: nat, k1: TokenType, k2: TokenType, rest: seq<Lexeme>)
    requires a + 2 <= |ts| && ts[a].kind == k1 && ts[a + 1].kind == k2
    ensures ExpectAll(From(ts, a, rest), [k1, k2]) == Ok(ts[a + 1].value, From(ts, a + 2, rest))
  {
    hide From, Expect;
    ExpectFrom(ts, a, rest);
    ExpectFrom(ts, a + 1, rest);
    assert [k1, k2][1..] == [k2];
    assert ExpectAll(From(ts, a + 1, rest), [k2]) == Ok(ts[a + 1].value, From(ts, a + 2, rest));
  }

  lemma WhereLeads(ts: seq<Lexeme>, where_: Option<Expr>, rest: seq<Lexeme>)
    requires WhereForm(ts, where_)
    ensures Kind(ts + rest) == if where_.Some? then WHERE else Kind(rest)
  {
    hide ValueForm;
    Without(rest);
  }

  lemma OrderByLeads(ts: seq<Lexeme>, cs: seq<OrderByClause>, rest: seq<Lexeme>)
    requires OrderByForm(ts, cs)
    ensures Kind(ts + rest) == if cs != [] then ORDER else Kind(rest)
  {
    hide ListForm;
    Without(rest);
  }

  lemma LimitLeads(ts: seq<Lexeme>, limit: Option<int>, rest: seq<Lexeme>)
    requires LimitForm(ts, limit)
    ensures Kind(ts + rest) == if limit.Some? then LIMIT else Kind(rest)
  {
    hide Stoi;
    Without(rest);
  }

  lemma SelectTailReads(ts: seq<Lexeme>, q: SelectStatement, a: nat, j: nat, k: nat, rest: seq<Lexeme>)
    requires a <= j <= k <= |ts| && Plain(ts) && Ends(rest)
    requires WhereForm(ts[a..j], q.where_) && OrderByForm(ts[j..k], q.orderBy) && LimitForm(ts[k..], q.limit)
    ensures SelectTail(q.columns, q.table, From(ts, a, rest)) == Ok(SelectStmt(q), rest)
  {
    hide WhereAt, OrderByAt, LimitAt, WhereForm, OrderByForm, LimitForm, Kind;
    CutFrom(ts, a, j, rest);
    CutFrom(ts, j, k, rest);
    LimitLeads(ts[k..], q.limit, rest);
    OrderByLeads(ts[j..k], q.orderBy, From(ts, k, rest));
    WhereReads(ts[a..j], q.where_, From(ts, j, rest));
    PlainPart(ts, j, k);
    OrderByReads(ts[j..k], q.orderBy, From(ts, k, rest));
    LimitReads(ts[k..], q.limit, rest);
  }

  lemma SelectHeadReads(ts: seq<Lexeme>, q: SelectStatement, i: nat, j: nat, k: nat, rest: seq<Lexeme>)
    requires SelectParts(ts, q, i, j, k) && Plain(ts)
    ensures Expect(From(ts, 0, rest), TokenType.SELECT) == Ok(ts[0].value, From(ts, 1, rest))
    ensures SelectColumnsAt(From(ts, 1, rest)) == Ok(q.columns, From(ts, i, rest))
    ensures Expect(From(ts, i, rest), FROM) == Ok(ts[i].value, From(ts, i + 1, rest))
    ensures Expect(From(ts, i + 1, rest), IDENTIFIER) == Ok(q.table, From(ts, i + 2, rest))
  {
    hide Expect, SelectColumnsAt, ColumnsForm, WhereForm, OrderByForm, LimitForm, From, Plain;
    ExpectFrom(ts, 0, rest);
    CutFrom(ts, 1, i, rest);
    ExpectFrom(ts, i, rest);
    PlainPart(ts, 1, i);
    ColumnsRead(ts[1..i], q.columns, From(ts, i, rest));
    ExpectFrom(ts, i + 1, rest);
  }

  lemma SelectReads(ts: seq<Lexeme>, q: SelectStatement, rest: seq<Lexeme>)
    requires SelectForm(ts, q) && Plain(ts) && Ends(rest)
    ensures ts != [] && ts[0].kind == TokenType.SELECT && SelectAt(ts + rest) == Ok(SelectStmt(q), rest)
  {
    hide SelectAt, ColumnsForm, WhereForm, OrderByForm, LimitForm, From, Plain, Ends;
    var i, j, k :| SelectParts(ts, q, i, j, k);
    EndFrom(ts, rest);
    SelectPartsRead(ts, q, i, j, k, rest);
  }

  lemma SelectPartsRead(ts: seq<Lexeme>, q: SelectStatement, i: nat, j: nat, k: nat, rest: seq<Lexeme>)
    requires SelectParts(ts, q, i, j, k) && Plain(ts) && Ends(rest)
    ensures SelectAt(From(ts, 0, rest)) == Ok(SelectStmt(q), rest)
  {
    hide Expect, SelectColumnsAt, SelectTail, ColumnsForm, WhereForm, OrderByForm, LimitForm, From, Plain, Kind;
    SelectHeadReads(ts, q, i, j, k, rest);
    SelectTailReads(ts, q, i + 2, j, k, rest);
  }

  lemma InsertReads(ts: seq<Lexeme>, i: InsertStatement, rest: seq<Lexeme>)
    requires InsertForm(ts, i) && Plain(ts) && Ends(rest)
    ensures ts != [] && ts[0].kind == TokenType.INSERT && InsertAt(ts + rest) == Ok(InsertStmt(i), rest)
  {
    hide InsertLists, From, InsertAt, Plain, Ends;
    var k :| InsertParts(ts, i, k);
    EndFrom(ts, rest);
    InsertPartsRead(ts, i, k, rest);
  }

  lemma InsertPartsRead(ts: seq<Lexeme>, i: InsertStatement, k: nat, rest: seq<Lexeme>)
    requires InsertParts(ts, i, k) && Plain(ts)
    ensures InsertAt(From(ts, 0, rest)) == Ok(InsertStmt(i), rest)
  {
    hide Expect, ExpectAll, ListAt, InsertLists, From, Plain, Kind;
    InsertWordsRead(ts, i.table, k, rest);
    InsertColumnsRead(ts, i, k, rest);
    InsertValuesRead(ts, i, k, rest);
  }

  lemma InsertWordsRead(ts: seq<Lexeme>, table: string, k: nat, rest: seq<Lexeme>)
    requires InsertWords(ts, table, k)
    ensures ExpectAll(From(ts, 0, rest), [TokenType.INSERT, INTO, IDENTIFIER]) == Ok(table, From(ts, 3, rest))
    ensures Expect(From(ts, 3, rest), LPAREN) == Ok(ts[3].value, From(ts, 4, rest))
    ensures ExpectAll(From(ts, k, rest), [RPAREN, VALUES, LPAREN]) == Ok(ts[k + 2].value, From(ts, k + 3, rest))
    ensures Expect(From(ts, |ts| - 1, rest), RPAREN) == Ok(ts[|ts| - 1].value, rest)
  {
    hide Expect, ExpectAll, From;
    EndFrom(ts, rest);
    ThreeFrom(ts, 0, TokenType.INSERT, INTO, IDENTIFIER, rest);
    ExpectFrom(ts, 3, rest);
    ThreeFrom(ts, k, RPAREN, VALUES, LPAREN, rest);
    ExpectFrom(ts, |ts| - 1, rest);
  }

  lemma InsertColumnsRead(ts: seq<Lexeme>, i: InsertStatement, k: nat, rest: seq<Lexeme>)
    requires InsertParts(ts, i, k) && Plain(ts)
    ensures ListAt(NameAt, From(ts, 4, rest)) == Ok(i.columns, From(ts, k, rest))
  {
    hide Expect, ListAt, ListForm, From, Plain;
    CutFrom(ts, 4, k, rest);
    ExpectFrom(ts, k, rest);
    PlainPart(ts, 4, k);
    NamesRead(ts[4..k], i.columns, From(ts, k, rest));
  }

  lemma InsertValuesRead(ts: seq<Lexeme>, i: InsertStatement, k: nat, rest: seq<Lexeme>)
    requires InsertParts(ts, i, k) && Plain(ts)
    ensures ListAt(ExpressionAt, From(ts, k + 3, rest)) == Ok(i.values, From(ts, |ts| - 1, rest))
  {
    hide Expect, ListAt, ListForm, From, Plain;
    var n := |ts| - 1;
    CutFrom(ts, k + 3, n, rest);
    ExpectFrom(ts, n, rest);
    PlainPart(ts, k + 3, n);
    ValuesRead(ts[k + 3..n], i.values, From(ts, n, rest));
  }

  lemma UpdateReads(ts: seq<Lexeme>, u: UpdateStatement, rest: seq<Lexeme>)
    requires UpdateForm(ts, u) && Plain(ts) && Ends(rest)
    ensures ts != [] && ts[0].kind == TokenType.UPDATE && UpdateAt(ts + rest) == Ok(UpdateStmt(u), rest)
  {
    hide ListForm, WhereForm, From, UpdateAt, Plain, Ends;
    var k :| UpdateParts(ts, u, k);
    EndFrom(ts, rest);
    UpdateWholeRead(ts, u, k, rest);
  }

  lemma UpdateWholeRead(ts: seq<Lexeme>, u: UpdateStatement, k: nat, rest: seq<Lexeme>)
    requires UpdateParts(ts, u, k) && Plain(ts) && Ends(rest)
    ensures UpdateAt(From(ts, 0, rest)) == Ok(UpdateStmt(u), rest)
  {
    hide Expect, ExpectAll, ListAt, ListForm, WhereAt, WhereForm, From, Kind, Plain;
    TwoFrom(ts, 0, TokenType.UPDATE, IDENTIFIER, rest);
    ExpectFrom(ts, 2, rest);
    UpdatePartsRead(ts, u, k, rest);
  }

  lemma UpdatePartsRead(ts: seq<Lexeme>, u: UpdateStatement, k: nat, rest: seq<Lexeme>)
    requires UpdateParts(ts, u, k) && Plain(ts) && Ends(rest)
    ensures ListAt(AssignmentAt, From(ts, 3, rest)) == Ok(u.assignments, From(ts, k, rest))
    ensures WhereAt(From(ts, k, rest)) == Ok(u.where_, rest)
  {
    hide ListAt, ListForm, WhereAt, WhereForm, Plain, From;
    CutFrom(ts, 3, k, rest);
    WhereFollows(ts, k, u.where_, rest);
    PlainPart(ts, 3, k);
    AssignmentsRead(ts[3..k], u.assignments, From(ts, k, rest));
  }

  /** WHERE or the end: neither goes on with what is before. */
  lemma WhereFollows(ts: seq<Lexeme>, k: nat, where_: Option<Expr>, rest: seq<Lexeme>)
    requires k <= |ts| && WhereForm(ts[k..], where_) && Ends(rest)
    ensures Kind(From(ts, k, rest)) != COMMA && Stops(From(ts, k, rest)) && WhereAt(From(ts, k, rest)) == Ok(where_, rest)
  {
    hide WhereAt, WhereForm, Kind;
    WhereLeads(ts[k..], where_, rest);
    WhereReads(ts[k..], where_, rest);
  }

  lemma DeleteReads(ts: seq<Lexeme>, d: DeleteStatement, rest: seq<Lexeme>)
    requires DeleteForm(ts, d) && Ends(rest)
    ensures ts != [] && ts[0].kind == TokenType.DELETE && DeleteAt(ts + rest) == Ok(DeleteStmt(d), rest)
  {
    hide ExpectAll, WhereAt, WhereForm, From, Stops, Kind;
    EndFrom(ts, rest);
    ThreeFrom(ts, 0, TokenType.DELETE, FROM, IDENTIFIER, rest);
    WhereFollows(ts, 3, d.where_, rest);
  }

  lemma CreateReads(ts: seq<Lexeme>, table: string, defs: seq<ColumnDef>, rest: seq<Lexeme>)
    requires CreateForm(ts, table, defs) && Plain(ts)
    ensures ts != [] && ts[0].kind == CREATE && CreateTableAt(ts + rest) == Ok(CreateTable(table, defs), rest)
  {
    hide Expect, ExpectAll, ListAt, ListForm, From, Plain;
    EndFrom(ts, rest);
    ThreeFrom(ts, 0, CREATE, TABLE, IDENTIFIER, rest);
    ExpectFrom(ts, 3, rest);
    ExpectFrom(ts, |ts| - 1, rest);
    CreateDefsRead(ts, table, defs, rest);
  }

  lemma CreateDefsRead(ts: seq<Lexeme>, table: string, defs: seq<ColumnDef>, rest: seq<Lexeme>)
    requires CreateForm(ts, table, defs) && Plain(ts)
    ensures ListAt(ColumnDefAt, From(ts, 4, rest)) == Ok(defs, From(ts, |ts| - 1, rest))
  {
    hide Expect, ListAt, ListForm, From, Plain;
    var n := |ts| - 1;
    CutFrom(ts, 4, n, rest);
    ExpectFrom(ts, n, rest);
    PlainPart(ts, 4, n);
    ClosesPlainly(ts, rest);
    ColumnDefsRead(ts[4..n], defs, From(ts, n, rest));
  }

  lemma ClosesPlainly(ts: seq<Lexeme>, rest: seq<Lexeme>)
    requires Plain(ts) && ts != [] && ts[|ts| - 1].kind == RPAREN
    ensures NoConstraint(From(ts, |ts| - 1, rest))
  {
    assert ts[|ts| - 1] in ts;
    Leads(ts[|ts| - 1..], rest);
  }

  lemma DropReads(ts: seq<Lexeme>, table: string, rest: seq<Lexeme>)
    requires DropForm(ts, table)
    ensures ts != [] && ts[0].kind == DROP && DropTableAt(ts + rest) == Ok(DropTable(table), rest)
  {
    hide Expect, ExpectAll;
    EndFrom(ts, rest);
    ThreeFrom(ts, 0, DROP, TABLE, IDENTIFIER, rest);
  }

  /** Whatever way a statement is written, with each ASC, each parenthesis and each order of constraints
      that the grammar allows, it is read as that statement, and exactly its tokens are taken. */
  lemma StatementReads(ts: seq<Lexeme>, s: Statement, rest: seq<Lexeme>)
    requires StatementForm(ts, s) && Plain(ts) && Ends(rest)
    ensures ts != [] && StatementAt(ts + rest) == Ok(s, rest)
  {
    hide SelectForm, InsertForm, UpdateForm, DeleteForm, CreateForm, DropForm, SelectAt, InsertAt, UpdateAt, DeleteAt,
      CreateTableAt, DropTableAt, Plain;
    match s
    case SelectStmt(q) => SelectReads(ts, q, rest); Leads(ts, rest);
    case InsertStmt(i) => InsertReads(ts, i, rest); Leads(ts, rest);
    case UpdateStmt(u) => UpdateReads(ts, u, rest); Leads(ts, rest);
    case DeleteStmt(d) => DeleteReads(ts, d, rest); Leads(ts, rest);
    case CreateTable(table, defs) => CreateReads(ts, table, defs, rest); Leads(ts, rest);
    case DropTable(table) => DropReads(ts, table, rest); Leads(ts, rest);
  }

  // ----- what is read is derived -----

  lemma ExpectDerived(ts: seq<Lexeme>, a: nat, k: TokenType)
    requires a <= |ts| && Expect(ts[a..], k).Ok?
    ensures a < |ts| && ts[a].kind == k && Expect(ts[a..], k) == Ok(ts[a].value, ts[a + 1..])
  {
  }

  lemma KindFrom(ts: seq<Lexeme>, a: nat)
    requires a <= |ts|
    ensures Kind(ts[a..]) == if a < |ts| then ts[a].kind else END_OF_FILE
    ensures a < |ts| ==> ts[a..][1..] == ts[a + 1..]
  {
  }

  lemma {:induction false} ExpectAllDerived(ts: seq<Lexeme>, a: nat, ks: seq<TokenType>)
    requires a <= |ts| && ks != [] && ExpectAll(ts[a..], ks).Ok?
    ensures a + |ks| <= |ts| && (forall i :: a <= i < a + |ks| ==> ts[i].kind == ks[i - a])
    ensures ExpectAll(ts[a..], ks) == Ok(ts[a + |ks| - 1].value, ts[a + |ks|..])
    decreases |ks|
  {
    hide Expect;
    ExpectDerived(ts, a, ks[0]);
    if |ks| > 1 {
      ExpectAllDerived(ts, a + 1, ks[1..]);
      forall i | a < i < a + |ks|
        ensures ts[i].kind == ks[i - a]
      {
        assert ks[1..][i - (a + 1)] == ks[i - a];
      }
    }
  }

  lemma ThreeDerived(ts: seq<Lexeme>, a: nat, k1: TokenType, k2: TokenType, k3: TokenType)
    requires a <= |ts| && ExpectAll(ts[a..], [k1, k2, k3]).Ok?
    ensures a + 3 <= |ts| && ts[a].kind == k1 && ts[a + 1].kind == k2 && ts[a + 2].kind == k3
    ensures ExpectAll(ts[a..], [k1, k2, k3]) == Ok(ts[a + 2].value, ts[a + 3..])
  {
    hide ExpectAll;
    ExpectAllDerived(ts, a, [k1, k2, k3]);
  }

  lemma TwoDerived(ts: seq<Lexeme>, a: nat, k1: TokenType, k2: TokenType)
    requires a <= |ts| && ExpectAll(ts[a..], [k1, k2]).Ok?
    ensures a + 2 <= |ts| && ts[a].kind == k1 && ts[a + 1].kind == k2
    ensures ExpectAll(ts[a..], [k1, k2]) == Ok(ts[a + 1].value, ts[a + 2..])
  {
    hide ExpectAll;
    ExpectAllDerived(ts, a, [k1, k2]);
  }

  /** A part read from place a on ends at some place b. */
  lemma PartDerived<T(!new)>(ts: seq<Lexeme>, a: nat, r: Parsed<T>, form: (seq<Lexeme>, T) -> bool)
    requires a <= |ts| && r.Ok? && Derived(ts[a..], r, form)
    ensures var b := |ts| - |r.rest|;
      a <= b <= |ts| && r.rest == ts[b..] && form(ts[a..b], r.value)
  {
    var b := |ts| - |r.rest|;
    assert ts[a..][..|ts[a..]| - |r.rest|] == ts[a..b];
  }

  lemma {:induction false} ListDerived<T(!new)>(item: seq<Lexeme> -> Parsed<T>, form: (seq<Lexeme>, T) -> bool,
                                                ts: seq<Lexeme>)
    requires forall us :: Derived(us, item(us), form)
    ensures Derived(ts, ListAt(item, ts), (us, xs) => ListForm(form, us, xs))
    decreases |ts|
  {
    hide ListForm;
    var r := item(ts);
    assert Derived(ts, r, form);
    if r.Ok? && |r.rest| < |ts| {
      var b := |ts| - |r.rest|;
      if Kind(r.rest) != COMMA {
        OneItem(form, ts[..b], r.value);
      } else {
        ListDerived(item, form, r.rest[1..]);
        MoreDerived(form, ts, b, r.value, ListAt(item, r.rest[1..]));
      }
    }
  }

  lemma MoreDerived<T(!new)>(form: (seq<Lexeme>, T) -> bool, ts: seq<Lexeme>, b: nat, x: T, r: Parsed<seq<T>>)
    requires b < |ts| && ts[b].kind == COMMA && form(ts[..b], x)
    requires Derived(ts[b..][1..], r, (us, xs) => ListForm(form, us, xs))
    ensures r.Ok? ==> Derived(ts, Ok([x] + r.value, r.rest), (us, xs) => ListForm(form, us, xs))
  {
    hide ListForm;
    if r.Ok? {
      var d := |ts| - |r.rest|;
      assert ts[b..][1..] == ts[b + 1..];
      assert ts[b + 1..][..|ts[b + 1..]| - |r.rest|] == ts[b + 1..d];
      MoreItems(form, ts[..b], ts[b], ts[b + 1..d], x, r.value);
      assert ts[..d] == ts[..b] + [ts[b]] + ts[b + 1..d];
    }
  }

  lemma OneItem<T(!new)>(form: (seq<Lexeme>, T) -> bool, ts: seq<Lexeme>, x: T)
    requires form(ts, x)
    ensures ListForm(form, ts, [x])
  {
  }

  lemma MoreItems<T(!new)>(form: (seq<Lexeme>, T) -> bool, front: seq<Lexeme>, comma: Lexeme, back: seq<Lexeme>,
                           x: T, xs: seq<T>)
    requires form(front, x) && comma.kind == COMMA && ListForm(form, back, xs)
    ensures ListForm(form, front + [comma] + back, [x] + xs)
  {
    var ts := front + [comma] + back;
    assert ts[..|front|] == front && ts[|front| + 1..] == back && ([x] + xs)[1..] == xs;
    assert CommaAt(form, ts, [x] + xs, |front|);
  }

  ghost predicate NamesAre(ts: seq<Lexeme>, xs: seq<string>) {
    ListForm(NameForm, ts, xs)
  }

  ghost predicate ValuesAre(ts: seq<Lexeme>, xs: seq<Expr>) {
    ListForm(ValueForm, ts, xs)
  }

  ghost predicate AssignmentsAre(ts: seq<Lexeme>, xs: seq<Assignment>) {
    ListForm(AssignmentForm, ts, xs)
  }

  ghost predicate ColumnDefsAre(ts: seq<Lexeme>, xs: seq<ColumnDef>) {
    ListForm(ColumnDefForm, ts, xs)
  }

  lemma NameDerived(ts: seq<Lexeme>)
    ensures Derived(ts, NameAt(ts), NameForm)
  {
    if NameAt(ts).Ok? {
      assert ts[..|ts| - |ts[1..]|] == ts[..1];
    }
  }

  lemma ValueDerived(ts: seq<Lexeme>)
    ensures Derived(ts, ExpressionAt(ts), ValueForm)
  {
    hide ExpressionAt, ExprForm;
    ExpressionDerived(ts);
  }

  lemma AssignmentDerived(ts: seq<Lexeme>)
    ensures Derived(ts, AssignmentAt(ts), AssignmentForm)
  {
    hide ExpressionAt, ValueForm, Expect;
    var r := AssignmentAt(ts);
    if r.Ok? {
      assert ts[0..] == ts;
      ExpectDerived(ts, 0, IDENTIFIER);
      ExpectDerived(ts, 1, EQ);
      ValueDerived(ts[2..]);
      PartDerived(ts, 2, ExpressionAt(ts[2..]), ValueForm);
      var b := |ts| - |r.rest|;
      assert ts[..b][2..] == ts[2..b];
    }
  }

  lemma WhereDerived(ts: seq<Lexeme>)
    ensures Derived(ts, WhereAt(ts), WhereForm)
  {
    hide ExpressionAt, ValueForm;
    var r := WhereAt(ts);
    if Kind(ts) != WHERE {
      assert ts[..0] == [];
    } else if r.Ok? {
      ValueDerived(ts[1..]);
      PartDerived(ts, 1, ExpressionAt(ts[1..]), ValueForm);
      var b := |ts| - |r.rest|;
      assert ts[..b][1..] == ts[1..b];
    }
  }

  lemma OrderItemDerived(ts: seq<Lexeme>)
    ensures Derived(ts, OrderItemAt(ts), OrderItemForm)
  {
    var r := OrderItemAt(ts);
    if r.Ok? {
      var b := |ts| - |r.rest|;
      KindFrom(ts, 1);
      if Kind(ts[1..]) == DESC {
        KindFrom(ts, 2);
        assert r.rest == if Kind(ts[2..]) == ASC then ts[3..] else ts[2..];
      } else {
        assert r.rest == if Kind(ts[1..]) == ASC then ts[2..] else ts[1..];
      }
      assert r.rest == ts[b..] && 1 <= b <= 3;
      assert OrderItemForm(ts[..b], r.value);
    }
  }

  lemma OrderByDerived(ts: seq<Lexeme>)
    ensures Derived(ts, OrderByAt(ts), OrderByForm)
  {
    hide ListAt, ListForm, OrderItemAt, OrderItemForm, Expect;
    var r := OrderByAt(ts);
    if Kind(ts) != ORDER {
      assert ts[..0] == [];
    } else if r.Ok? {
      ExpectDerived(ts, 1, BY);
      forall us ensures Derived(us, OrderItemAt(us), OrderItemForm) {
        OrderItemDerived(us);
      }
      ListDerived(OrderItemAt, OrderItemForm, ts[2..]);
      PartDerived(ts, 2, ListAt(OrderItemAt, ts[2..]), (us, xs) => ListForm(OrderItemForm, us, xs));
      SomeItem(OrderItemForm, ts[2..|ts| - |r.rest|], r.value);
      var b := |ts| - |r.rest|;
      assert ts[..b][2..] == ts[2..b];
    }
  }

  lemma SomeItem<T(!new)>(form: (seq<Lexeme>, T) -> bool, ts: seq<Lexeme>, xs: seq<T>)
    requires ListForm(form, ts, xs)
    ensures xs != []
  {
  }

  lemma LimitDerived(ts: seq<Lexeme>)
    ensures Derived(ts, LimitAt(ts), LimitForm)
  {
    hide Stoi, Expect;
    var r := LimitAt(ts);
    if Kind(ts) != LIMIT {
      assert ts[..0] == [];
    } else if r.Ok? {
      ExpectDerived(ts, 1, NUMBER);
      assert r.rest == ts[2..] && |ts| - |r.rest| == 2;
    }
  }

  lemma NamesDerived(ts: seq<Lexeme>)
    ensures Derived(ts, ListAt(NameAt, ts), NamesAre)
  {
    hide ListAt, ListForm, NameForm;
    forall us ensures Derived(us, NameAt(us), NameForm) {
      NameDerived(us);
    }
    ListDerived(NameAt, NameForm, ts);
  }

  lemma ValuesDerived(ts: seq<Lexeme>)
    ensures Derived(ts, ListAt(ExpressionAt, ts), ValuesAre)
  {
    hide ListAt, ListForm, ValueForm, ExpressionAt;
    forall us ensures Derived(us, ExpressionAt(us), ValueForm) {
      ValueDerived(us);
    }
    ListDerived(ExpressionAt, ValueForm, ts);
  }

  lemma AssignmentsDerived(ts: seq<Lexeme>)
    ensures Derived(ts, ListAt(AssignmentAt, ts), AssignmentsAre)
  {
    hide ListAt, ListForm, AssignmentForm, AssignmentAt;
    forall us ensures Derived(us, AssignmentAt(us), AssignmentForm) {
      AssignmentDerived(us);
    }
    ListDerived(AssignmentAt, AssignmentForm, ts);
  }

  lemma ColumnsDerived(ts: seq<Lexeme>)
    ensures Derived(ts, SelectColumnsAt(ts), ColumnsForm)
  {
    hide ListAt, ListForm;
    if Kind(ts) == STAR {
      assert ts[..|ts| - |ts[1..]|] == ts[..1];
    } else {
      NamesDerived(ts);
    }
  }

  /** The constraints are taken up to place b, and say what they say. */
  ghost predicate Constrains(ts: seq<Lexeme>, b: int, def: ColumnDef, r: ColumnDef) {
    && 0 <= b <= |ts| && ConstraintsForm(ts[..b])
    && r == def.(primaryKey := def.primaryKey || SaysPrimary(ts[..b]), notNull := def.notNull || SaysNot(ts[..b]))
  }

  lemma {:induction false} ConstraintsDerived(def: ColumnDef, ts: seq<Lexeme>)
    ensures var r := ConstraintsAt(def, ts);
      r.Ok? ==> |r.rest| <= |ts| && ts[|ts| - |r.rest|..] == r.rest && Constrains(ts, |ts| - |r.rest|, def, r.value)
    decreases |ts|
  {
    hide Expect, Constrains;
    if ts != [] && (IsPrimary(ts[0]) || ts[0].kind == NOT) {
      if Expect(ts[1..], IDENTIFIER).Ok? {
        ExpectDerived(ts, 1, IDENTIFIER);
        var next := if IsPrimary(ts[0]) then def.(primaryKey := true) else def.(notNull := true);
        ConstraintsDerived(next, ts[2..]);
        var r := ConstraintsAt(next, ts[2..]);
        if r.Ok? {
          OneConstraint(ts, |ts| - |r.rest|, def, r.value);
        }
      }
    } else {
      NoConstraints(ts, def);
    }
  }

  lemma NoConstraints(ts: seq<Lexeme>, def: ColumnDef)
    ensures Constrains(ts, 0, def, def)
  {
    assert ts[..0] == [];
  }

  lemma OneConstraint(ts: seq<Lexeme>, b: nat, def: ColumnDef, r: ColumnDef)
    requires |ts| >= 2 && (IsPrimary(ts[0]) || ts[0].kind == NOT) && ts[1].kind == IDENTIFIER && 2 <= b <= |ts|
    requires Constrains(ts[2..], b - 2, if IsPrimary(ts[0]) then def.(primaryKey := true) else def.(notNull := true), r)
    ensures Constrains(ts, b, def, r)
  {
    assert ts[..b][2..] == ts[2..][..b - 2];
  }

  lemma ColumnDefDerived(ts: seq<Lexeme>)
    ensures Derived(ts, ColumnDefAt(ts), ColumnDefForm)
  {
    hide Expect, ConstraintsAt, ConstraintsForm, SaysPrimary, SaysNot;
    var r := ColumnDefAt(ts);
    if r.Ok? {
      assert ts[0..] == ts;
      ExpectDerived(ts, 0, IDENTIFIER);
      ExpectDerived(ts, 1, IDENTIFIER);
      ConstraintsDerived(ColumnDef(ts[0].value, ts[1].value, false, false), ts[2..]);
      var b := |ts| - |r.rest|;
      assert ts[..b][2..] == ts[2..][..b - 2];
    }
  }

  lemma ColumnDefsDerived(ts: seq<Lexeme>)
    ensures Derived(ts, ListAt(ColumnDefAt, ts), ColumnDefsAre)
  {
    hide ListAt, ListForm, ColumnDefForm, ColumnDefAt;
    forall us ensures Derived(us, ColumnDefAt(us), ColumnDefForm) {
      ColumnDefDerived(us);
    }
    ListDerived(ColumnDefAt, ColumnDefForm, ts);
  }

  // ----- whole statements are derived -----

  /** The statement is read from the tokens before place n. */
  ghost predicate Ended(ts: seq<Lexeme>, r: Parsed<Statement>) {
    r.Ok? ==> |r.rest| <= |ts| && ts[|ts| - |r.rest|..] == r.rest && StatementForm(ts[..|ts| - |r.rest|], r.value)
  }

  lemma NothingEnded(ts: seq<Lexeme>)
    ensures Ended(ts, Err)
  {
  }

  lemma SelectDerived(ts: seq<Lexeme>)
    ensures Ended(ts, SelectAt(ts))
  {
    hide Expect, SelectColumnsAt, SelectTail, ColumnsForm, SelectForm, Derived, Ended;
    NothingEnded(ts);
    var r := SelectAt(ts);
    if r.Ok? {
      assert ts[0..] == ts;
      ExpectDerived(ts, 0, TokenType.SELECT);
      ColumnsDerived(ts[1..]);
      PartDerived(ts, 1, SelectColumnsAt(ts[1..]), ColumnsForm);
      var columns := SelectColumnsAt(ts[1..]).value;
      var i := |ts| - |SelectColumnsAt(ts[1..]).rest|;
      ExpectDerived(ts, i, FROM);
      ExpectDerived(ts, i + 1, IDENTIFIER);
      SelectTailDerived(ts, i, columns);
    }
  }

  /** Everything after the table name. */
  lemma SelectTailDerived(ts: seq<Lexeme>, i: nat, columns: seq<string>)
    requires 1 <= i && i + 2 <= |ts| && ts[0].kind == TokenType.SELECT && ColumnsForm(ts[1..i], columns)
    requires ts[i].kind == FROM && ts[i + 1].kind == IDENTIFIER
    ensures Ended(ts, SelectTail(columns, ts[i + 1].value, ts[i + 2..]))
  {
    hide WhereAt, OrderByAt, LimitAt, ColumnsForm, WhereForm, OrderByForm, LimitForm, SelectForm, Derived, Ended;
    NothingEnded(ts);
    var r := SelectTail(columns, ts[i + 1].value, ts[i + 2..]);
    if r.Ok? {
      var a := i + 2;
      WhereDerived(ts[a..]);
      PartDerived(ts, a, WhereAt(ts[a..]), WhereForm);
      var j := |ts| - |WhereAt(ts[a..]).rest|;
      OrderByDerived(ts[j..]);
      PartDerived(ts, j, OrderByAt(ts[j..]), OrderByForm);
      var k := |ts| - |OrderByAt(ts[j..]).rest|;
      LimitDerived(ts[k..]);
      PartDerived(ts, k, LimitAt(ts[k..]), LimitForm);
      SelectPartsForm(ts, r.value.select, i, j, k, |ts| - |r.rest|);
    }
  }

  lemma SelectPartsForm(ts: seq<Lexeme>, q: SelectStatement, i: nat, j: nat, k: nat, n: nat)
    requires 1 <= i && i + 2 <= j <= k <= n <= |ts|
    requires ts[0].kind == TokenType.SELECT && ColumnsForm(ts[1..i], q.columns)
    requires ts[i].kind == FROM && ts[i + 1].kind == IDENTIFIER && ts[i + 1].value == q.table
    requires WhereForm(ts[i + 2..j], q.where_) && OrderByForm(ts[j..k], q.orderBy) && LimitForm(ts[k..n], q.limit)
    ensures Ended(ts, Ok(SelectStmt(q), ts[n..]))
  {
    hide ColumnsForm, WhereForm, OrderByForm, LimitForm;
    var us := ts[..n];
    assert us[1..i] == ts[1..i] && us[i + 2..j] == ts[i + 2..j] && us[j..k] == ts[j..k] && us[k..] == ts[k..n];
    assert SelectParts(us, q, i, j, k);
  }

  lemma InsertDerived(ts: seq<Lexeme>)
    ensures Ended(ts, InsertAt(ts))
  {
    hide InsertAt, Expect, ExpectAll, ListAt, NamesAre, InsertTail, Derived, Ended;
    NothingEnded(ts);
    if InsertAt(ts).Ok? {
      InsertHeadDerived(ts);
      InsertColumnsDerived(ts, ts[2].value);
    }
  }

  lemma InsertHeadDerived(ts: seq<Lexeme>)
    requires InsertAt(ts).Ok?
    ensures |ts| >= 4 && ts[0].kind == TokenType.INSERT && ts[1].kind == INTO && ts[2].kind == IDENTIFIER && ts[3].kind == LPAREN
    ensures InsertAt(ts) == InsertColumns(ts[2].value, ts[4..])
  {
    hide Expect, ExpectAll, InsertColumns;
    assert ts[0..] == ts;
    ThreeDerived(ts, 0, TokenType.INSERT, INTO, IDENTIFIER);
    ExpectDerived(ts, 3, LPAREN);
  }

  lemma InsertColumnsDerived(ts: seq<Lexeme>, table: string)
    requires |ts| >= 4 && ts[0].kind == TokenType.INSERT && ts[1].kind == INTO && ts[2].kind == IDENTIFIER
    requires ts[2].value == table && ts[3].kind == LPAREN && InsertColumns(table, ts[4..]).Ok?
    ensures Ended(ts, InsertColumns(table, ts[4..]))
  {
    hide Expect, ExpectAll, ListAt, NamesAre, InsertTail, Derived, Ended;
    NamesDerived(ts[4..]);
    PartDerived(ts, 4, ListAt(NameAt, ts[4..]), NamesAre);
    var k := |ts| - |ListAt(NameAt, ts[4..]).rest|;
    ThreeDerived(ts, k, RPAREN, VALUES, LPAREN);
    InsertTailDerived(ts, k, table, ListAt(NameAt, ts[4..]).value);
  }

  lemma InsertTailDerived(ts: seq<Lexeme>, k: nat, table: string, columns: seq<string>)
    requires 4 <= k && k + 3 <= |ts|
    requires ts[0].kind == TokenType.INSERT && ts[1].kind == INTO && ts[2].kind == IDENTIFIER && ts[2].value == table
    requires ts[3].kind == LPAREN && NamesAre(ts[4..k], columns)
    requires ts[k].kind == RPAREN && ts[k + 1].kind == VALUES && ts[k + 2].kind == LPAREN
    ensures Ended(ts, InsertTail(table, columns, ts[k + 3..]))
  {
    hide Expect, ListAt, ListForm, InsertForm, Derived, Ended;
    NothingEnded(ts);
    var r := InsertTail(table, columns, ts[k + 3..]);
    if r.Ok? {
      ValuesDerived(ts[k + 3..]);
      PartDerived(ts, k + 3, ListAt(ExpressionAt, ts[k + 3..]), ValuesAre);
      var b := |ts| - |ListAt(ExpressionAt, ts[k + 3..]).rest|;
      ExpectDerived(ts, b, RPAREN);
      InsertPartsForm(ts, r.value.insert, k, b);
    }
  }

  lemma InsertPartsForm(ts: seq<Lexeme>, i: InsertStatement, k: nat, b: nat)
    requires 4 <= k && k + 3 <= b < |ts| && InsertWords(ts[..b + 1], i.table, k)
    requires ListForm(NameForm, ts[4..k], i.columns) && ListForm(ValueForm, ts[k + 3..b], i.values)
    ensures Ended(ts, Ok(InsertStmt(i), ts[b + 1..]))
  {
    hide ListForm;
    var us := ts[..b + 1];
    assert us[4..k] == ts[4..k] && us[k + 3..|us| - 1] == ts[k + 3..b];
    assert InsertParts(us, i, k);
  }

  lemma UpdateDerived(ts: seq<Lexeme>)
    ensures Ended(ts, UpdateAt(ts))
  {
    hide Expect, ExpectAll, ListAt, ListForm, WhereAt, WhereForm, UpdateForm, Derived, Ended;
    NothingEnded(ts);
    var r := UpdateAt(ts);
    if r.Ok? {
      assert ts[0..] == ts;
      TwoDerived(ts, 0, TokenType.UPDATE, IDENTIFIER);
      ExpectDerived(ts, 2, SET);
      AssignmentsDerived(ts[3..]);
      PartDerived(ts, 3, ListAt(AssignmentAt, ts[3..]), AssignmentsAre);
      var k := |ts| - |ListAt(AssignmentAt, ts[3..]).rest|;
      WhereDerived(ts[k..]);
      PartDerived(ts, k, WhereAt(ts[k..]), WhereForm);
      UpdatePartsForm(ts, r.value.update, k, |ts| - |r.rest|);
    }
  }

  lemma UpdatePartsForm(ts: seq<Lexeme>, u: UpdateStatement, k: nat, n: nat)
    requires 3 <= k <= n <= |ts| && ts[0].kind == TokenType.UPDATE && ts[1].kind == IDENTIFIER && ts[1].value == u.table
    requires ts[2].kind == SET && ListForm(AssignmentForm, ts[3..k], u.assignments) && WhereForm(ts[k..n], u.where_)
    ensures Ended(ts, Ok(UpdateStmt(u), ts[n..]))
  {
    hide ListForm, WhereForm;
    var us := ts[..n];
    assert us[3..k] == ts[3..k] && us[k..] == ts[k..n];
    assert UpdateParts(us, u, k);
  }

  lemma DeleteDerived(ts: seq<Lexeme>)
    ensures Ended(ts, DeleteAt(ts))
  {
    hide ExpectAll, WhereAt, WhereForm, Derived, Ended;
    NothingEnded(ts);
    var r := DeleteAt(ts);
    if r.Ok? {
      assert ts[0..] == ts;
      ThreeDerived(ts, 0, TokenType.DELETE, FROM, IDENTIFIER);
      WhereDerived(ts[3..]);
      PartDerived(ts, 3, WhereAt(ts[3..]), WhereForm);
      DeletePartsForm(ts, r.value.delete, |ts| - |r.rest|);
    }
  }

  lemma DeletePartsForm(ts: seq<Lexeme>, d: DeleteStatement, n: nat)
    requires 3 <= n <= |ts| && ts[0].kind == TokenType.DELETE && ts[1].kind == FROM
    requires ts[2].kind == IDENTIFIER && ts[2].value == d.table && WhereForm(ts[3..n], d.where_)
    ensures Ended(ts, Ok(DeleteStmt(d), ts[n..]))
  {
    hide WhereForm;
    assert ts[..n][3..] == ts[3..n];
  }

  lemma CreateDerived(ts: seq<Lexeme>)
    ensures Ended(ts, CreateTableAt(ts))
  {
    hide CreateTableAt, CreateColumns, Ended;
    NothingEnded(ts);
    if CreateTableAt(ts).Ok? {
      CreateHeadDerived(ts);
      CreateColumnsDerived(ts, ts[2].value);
    }
  }

  lemma CreateHeadDerived(ts: seq<Lexeme>)
    requires CreateTableAt(ts).Ok?
    ensures |ts| >= 4 && ts[0].kind == CREATE && ts[1].kind == TABLE && ts[2].kind == IDENTIFIER && ts[3].kind == LPAREN
    ensures CreateTableAt(ts) == CreateColumns(ts[2].value, ts[4..])
  {
    hide Expect, ExpectAll, CreateColumns;
    assert ts[0..] == ts;
    ThreeDerived(ts, 0, CREATE, TABLE, IDENTIFIER);
    ExpectDerived(ts, 3, LPAREN);
  }

  lemma CreateColumnsDerived(ts: seq<Lexeme>, table: string)
    requires |ts| >= 4 && ts[0].kind == CREATE && ts[1].kind == TABLE && ts[2].kind == IDENTIFIER
    requires ts[2].value == table && ts[3].kind == LPAREN && CreateColumns(table, ts[4..]).Ok?
    ensures Ended(ts, CreateColumns(table, ts[4..]))
  {
    hide Expect, ListAt, ColumnDefsAre, Derived, Ended;
    ColumnDefsDerived(ts[4..]);
    PartDerived(ts, 4, ListAt(ColumnDefAt, ts[4..]), ColumnDefsAre);
    var b := |ts| - |ListAt(ColumnDefAt, ts[4..]).rest|;
    ExpectDerived(ts, b, RPAREN);
    CreatePartsForm(ts, table, ListAt(ColumnDefAt, ts[4..]).value, b);
  }

  lemma CreatePartsForm(ts: seq<Lexeme>, table: string, defs: seq<ColumnDef>, b: nat)
    requires 4 <= b < |ts| && ts[0].kind == CREATE && ts[1].kind == TABLE && ts[2].kind == IDENTIFIER && ts[2].value == table
    requires ts[3].kind == LPAREN && ColumnDefsAre(ts[4..b], defs) && ts[b].kind == RPAREN
    ensures Ended(ts, Ok(CreateTable(table, defs), ts[b + 1..]))
  {
    hide ListForm;
    assert ts[..b + 1][4..b] == ts[4..b];
  }

  lemma DropDerived(ts: seq<Lexeme>)
    ensures Ended(ts, DropTableAt(ts))
  {
    hide ExpectAll, Ended;
    NothingEnded(ts);
    if DropTableAt(ts).Ok? {
      assert ts[0..] == ts;
      ThreeDerived(ts, 0, DROP, TABLE, IDENTIFIER);
      DropPartsForm(ts);
    }
  }

  lemma DropPartsForm(ts: seq<Lexeme>)
    requires |ts| >= 3 && ts[0].kind == DROP && ts[1].kind == TABLE && ts[2].kind == IDENTIFIER
    ensures Ended(ts, Ok(DropTable(ts[2].value), ts[3..]))
  {
  }

  /** Whatever is read as a statement is a front part of the tokens that the grammar derives it from. */
  lemma StatementDerived(ts: seq<Lexeme>)
    ensures Ended(ts, StatementAt(ts))
  {
    hide SelectAt, InsertAt, UpdateAt, DeleteAt, CreateTableAt, DropTableAt, Ended;
    SelectDerived(ts);
    InsertDerived(ts);
    UpdateDerived(ts);
    DeleteDerived(ts);
    CreateDerived(ts);
    DropDerived(ts);
    NothingEnded(ts);
  }

  // ----- both together -----

  /** The parser reads the first n tokens, up to a semicolon or the end, as s iff they are a way to
      write s. */
  lemma StatementIff(ts: seq<Lexeme>, n: nat, s: Statement)
    requires Plain(ts) && n <= |ts| && Ends(ts[n..])
    ensures StatementAt(ts) == Ok(s, ts[n..]) <==> StatementForm(ts[..n], s)
  {
    hide StatementAt, StatementForm, Ends, Plain;
    assert ts[..n] + ts[n..] == ts && |ts| - |ts[n..]| == n;
    StatementDerived(ts);
    if StatementForm(ts[..n], s) {
      PlainPart(ts, 0, n);
      assert ts[0..n] == ts[..n];
      StatementReads(ts[..n], s, ts[n..]);
    }
  }

  /** So the grammar is unambiguous. */
  lemma OneMeaning(ts: seq<Lexeme>, s: Statement, t: Statement)
    requires StatementForm(ts, s) && StatementForm(ts, t) && Plain(ts)
    ensures s == t
  {
    hide StatementForm, StatementAt, Plain;
    StatementReads(ts, s, []);
    StatementReads(ts, t, []);
  }

  /** parse takes one closing semicolon, if there is one, and nothing after it. */
  lemma SemicolonTaken(ts: seq<Lexeme>, s: Statement, rest: seq<Lexeme>)
    requires StatementForm(ts, s) && Plain(ts) && Ends(rest)
    ensures ParseAt(ts + rest) == Ok(s, if Kind(rest) == SEMICOLON then rest[1..] else rest)
  {
    hide StatementForm, StatementAt, Plain;
    StatementReads(ts, s, rest);
  }
}
