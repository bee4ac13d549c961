/** Which statements have a text that the lexer reads: names that are no keywords, numerals, and
    operator words in any case. */
module Spoken {
  import opened Ast
  import Decimal
  import opened Lexing
  import opened Options
  import opened Parsing
  import opened Printing
  import opened PrintStatements
  import opened Spelling
  import opened Texts
  import opened Tokens

  /** An identifier that is not a keyword in any case. */
  predicate IsName(s: string) {
    IsWord(s) && ClassifyWord(Upper(s)) == IDENTIFIER
  }

  ghost predicate SpokenExpr(e: Expr) {
    match e
    case Literal(Integer, value) => IsNumeral(value)
    case Literal(Float, value) => IsNumeral(value)
    case Literal(_, _) => true
    case ColumnRef(table, column) => (table == "" || IsName(table)) && IsName(column)
    case Binary(_, left, right) => SpokenExpr(left) && SpokenExpr(right)
    case Unary(_, operand) => SpokenExpr(operand)
  }

  ghost predicate SpokenStatement(s: Statement) {
    match s
    case SelectStmt(q) =>
      && (q.columns == ["*"] || forall c :: c in q.columns ==> IsName(c)) && IsName(q.table)
      && (q.where_.Some? ==> SpokenExpr(q.where_.value)) && forall c :: c in q.orderBy ==> IsName(c.column)
    case InsertStmt(i) =>
      IsName(i.table) && (forall c :: c in i.columns ==> IsName(c)) && forall e :: e in i.values ==> SpokenExpr(e)
    case UpdateStmt(u) =>
      && IsName(u.table) && (forall a :: a in u.assignments ==> IsName(a.column) && SpokenExpr(a.value))
      && (u.where_.Some? ==> SpokenExpr(u.where_.value))
    case DeleteStmt(d) => IsName(d.table) && (d.where_.Some? ==> SpokenExpr(d.where_.value))
    case CreateTable(table, defs) => IsName(table) && forall d :: d in defs ==> IsName(d.name) && IsName(d.typeName)
    case DropTable(table) => IsName(table)
  }

  ghost predicate AllLexable(ls: seq<Lexeme>) {
    forall l :: l in ls ==> Lexable(l)
  }

  lemma Both(a: seq<Lexeme>, b: seq<Lexeme>)
    requires AllLexable(a) && AllLexable(b)
    ensures AllLexable(a + b)
  {
    hide Lexable;
  }

  lemma One(k: TokenType, value: string)
    requires Lexable(Lexeme(k, value))
    ensures AllLexable(Word(k, value))
  {
    hide Lexable;
  }

  // ----- words -----

  /** A text whose upper case is a word of capitals is a word. */
  lemma CapitalsMakeWord(s: string, capitals: string)
    requires Upper(s) == capitals && capitals != "" && forall c :: c in capitals ==> 'A' <= c <= 'Z'
    ensures IsWord(s)
  {
    hide Upper;
    forall c | c in s ensures IsAlpha(c) {
      var i :| 0 <= i < |s| && s[i] == c;
      UpperAt(s, i);
      assert capitals[i] in capitals;
    }
    assert s[0] in s;
  }

  lemma WordLexable(k: TokenType, value: string)
    requires IsWord(value) && ClassifyWord(Upper(value)) == k
    ensures Lexable(Lexeme(k, value))
  {
    hide Upper, ClassifyWord;
    KeywordKinds(Upper(value));
  }

  predicate Capitals(s: string) {
    s != "" && forall c :: c in s ==> 'A' <= c <= 'Z'
  }

  lemma {:induction false} CapitalsStay(s: string)
    requires forall c :: c in s ==> 'A' <= c <= 'Z'
    ensures Upper(s) == s
  {
    if s != "" {
      assert s == [s[0]] + s[1..];
      assert s[0] in s && forall c :: c in s[1..] ==> c in s;
      CapitalsStay(s[1..]);
    }
  }

  lemma Keyword(k: TokenType, word: string)
    requires Capitals(word) && ClassifyWord(word) == k
    ensures AllLexable(Word(k, word))
  {
    hide Upper, ClassifyWord, Lexable;
    CapitalsStay(word);
    CapitalsMakeWord(word, word);
    WordLexable(k, word);
    One(k, word);
  }

  lemma NameLexable(name: string)
    requires IsName(name)
    ensures AllLexable(Name(name))
  {
    hide Upper, ClassifyWord;
    WordLexable(IDENTIFIER, name);
    One(IDENTIFIER, name);
  }

  lemma SelectWords()
    ensures AllLexable(Word(TokenType.SELECT, "SELECT"))
    ensures AllLexable(Word(FROM, "FROM"))
    ensures AllLexable(Word(WHERE, "WHERE"))
  {
    hide AllLexable, Word;
    Keyword(TokenType.SELECT, "SELECT");
    Keyword(FROM, "FROM");
    Keyword(WHERE, "WHERE");
  }

  lemma OrderWords()
    ensures AllLexable(Word(ORDER, "ORDER"))
    ensures AllLexable(Word(BY, "BY"))
    ensures AllLexable(Word(DESC, "DESC"))
    ensures AllLexable(Word(LIMIT, "LIMIT"))
  {
    hide AllLexable, Word;
    Keyword(ORDER, "ORDER");
    Keyword(BY, "BY");
    Keyword(DESC, "DESC");
    Keyword(LIMIT, "LIMIT");
  }

  lemma InsertWords()
    ensures AllLexable(Word(TokenType.INSERT, "INSERT"))
    ensures AllLexable(Word(INTO, "INTO"))
    ensures AllLexable(Word(VALUES, "VALUES"))
  {
    hide AllLexable, Word;
    Keyword(TokenType.INSERT, "INSERT");
    Keyword(INTO, "INTO");
    Keyword(VALUES, "VALUES");
  }

  lemma UpdateWords()
    ensures AllLexable(Word(TokenType.UPDATE, "UPDATE"))
    ensures AllLexable(Word(SET, "SET"))
    ensures AllLexable(Word(TokenType.DELETE, "DELETE"))
  {
    hide AllLexable, Word;
    Keyword(TokenType.UPDATE, "UPDATE");
    Keyword(SET, "SET");
    Keyword(TokenType.DELETE, "DELETE");
  }

  lemma TableWords()
    ensures AllLexable(Word(CREATE, "CREATE"))
    ensures AllLexable(Word(TABLE, "TABLE"))
  {
    hide AllLexable, Word;
    Keyword(CREATE, "CREATE");
    Keyword(TABLE, "TABLE");
  }

  lemma DropWords()
    ensures AllLexable(Word(DROP, "DROP"))
  {
    hide AllLexable, Word;
    Keyword(DROP, "DROP");
  }

  lemma NotWord()
    ensures AllLexable(Word(NOT, "NOT"))
  {
    hide AllLexable, Word;
    Keyword(NOT, "NOT");
  }

  lemma ConstraintWords()
    ensures AllLexable(Word(IDENTIFIER, "PRIMARY"))
    ensures AllLexable(Word(IDENTIFIER, "KEY"))
    ensures AllLexable(Word(IDENTIFIER, "NULL"))
  {
    hide AllLexable, Word;
    Keyword(IDENTIFIER, "PRIMARY");
    Keyword(IDENTIFIER, "KEY");
    Keyword(IDENTIFIER, "NULL");
  }

  lemma Marks()
    ensures AllLexable(Comma()) && AllLexable(Word(LPAREN, "(")) && AllLexable(Word(RPAREN, ")"))
    ensures AllLexable(Word(DOT, ".")) && AllLexable(Word(STAR, "*")) && AllLexable(Word(EQ, "="))
  {
    hide Upper, ClassifyWord;
  }

  // ----- expressions -----

  lemma OperatorLexable(k: TokenType, op: string)
    requires BinaryKind(op) == Some(k) || UnaryKind(op) == Some(k) || BoolKind(op) == Some(k)
    ensures AllLexable(Word(k, op))
  {
    hide Lexable, Upper, ClassifyWord;
    OperatorWords();
    if k in {AND, OR, NOT, BOOL_TRUE, BOOL_FALSE} {
      CapitalsMakeWord(op, Upper(op));
      WordLexable(k, op);
    } else {
      SymbolLexable(k, op);
    }
    One(k, op);
  }

  lemma OperatorWords()
    ensures ClassifyWord("AND") == AND && ClassifyWord("OR") == OR && ClassifyWord("NOT") == NOT
    ensures ClassifyWord("TRUE") == BOOL_TRUE && ClassifyWord("FALSE") == BOOL_FALSE
  {
  }

  lemma SymbolLexable(k: TokenType, op: string)
    requires (k == EQ && op == "=") || (k == NEQ && op == "!=") || (k == LT && op == "<") || (k == GT && op == ">")
          || (k == LTE && op == "<=") || (k == GTE && op == ">=") || (k == MINUS && op == "-")
    ensures Lexable(Lexeme(k, op))
  {
    hide Upper, ClassifyWord;
  }

  lemma LeafLexable(e: Expr)
    requires Printable(e) && SpokenExpr(e) && Rung(e) == 3
    ensures AllLexable(PrintLeaf(e))
  {
    hide Lexable, Upper, ClassifyWord, IsNumeral, IsName, BoolKind;
    match e {
      case Literal(Bool, value) => OperatorLexable(BoolKind(value).value, value);
      case Literal(Integer, value) => NumeralLexable(value);
      case Literal(Float, value) => NumeralLexable(value);
      case Literal(String, value) => StringLexable(value);
      case ColumnRef(table, column) =>
        NameLexable(column);
        if table != "" {
          NameLexable(table);
          Marks();
          Both(Name(table), Word(DOT, "."));
          Both(Name(table) + Word(DOT, "."), Name(column));
          assert PrintLeaf(e) == Name(table) + Word(DOT, ".") + Name(column);
        }
    }
  }

  lemma NumeralLexable(value: string)
    requires IsNumeral(value)
    ensures Lexable(Lexeme(NUMBER, value))
  {
    hide IsNumeral, Upper, ClassifyWord;
  }

  lemma StringLexable(value: string)
    ensures Lexable(Lexeme(STRING, value))
  {
    hide Upper, ClassifyWord;
  }

  lemma {:induction false} ExprLexable(e: Expr, rung: nat)
    requires Printable(e) && SpokenExpr(e) && rung <= 3
    ensures AllLexable(Print(e, rung))
    decreases e, if Rung(e) < rung then 1 else 0
  {
    hide Lexable, AllLexable, PrintLeaf, Upper, BinaryKind, UnaryKind;
    if Rung(e) < rung {
      ExprLexable(e, 0);
      Marks();
      Both(Word(LPAREN, "("), Print(e, 0));
      Both(Word(LPAREN, "(") + Print(e, 0), Word(RPAREN, ")"));
    } else {
      match e
      case Binary(op, left, right) =>
        ExprLexable(left, Rung(e));
        ExprLexable(right, Rung(e) + 1);
        OperatorLexable(BinaryKind(op).value, op);
        Both(Print(left, Rung(e)), Word(BinaryKind(op).value, op));
        Both(Print(left, Rung(e)) + Word(BinaryKind(op).value, op), Print(right, Rung(e) + 1));
      case Unary(op, operand) =>
        ExprLexable(operand, 2);
        OperatorLexable(UnaryKind(op).value, op);
        Both(Word(UnaryKind(op).value, op), Print(operand, 2));
      case _ => LeafLexable(e);
    }
  }

  // ----- lists and clauses -----

  lemma {:induction false} ListLexable<T>(print_: T -> seq<Lexeme>, xs: seq<T>)
    requires forall x :: x in xs ==> AllLexable(print_(x))
    ensures AllLexable(PrintList(print_, xs))
    decreases |xs|
  {
    hide AllLexable;
    if xs == [] {
      NoneLexable();
    } else if |xs| > 1 {
      ListLexable(print_, xs[1..]);
      Marks();
      Both(Comma(), PrintList(print_, xs[1..]));
      Both(print_(xs[0]), Comma() + PrintList(print_, xs[1..]));
    }
  }

  lemma NoneLexable()
    ensures AllLexable([])
  {
  }

  lemma WhereLexable(where_: Option<Expr>)
    requires where_.Some? ==> Printable(where_.value) && SpokenExpr(where_.value)
    ensures AllLexable(PrintWhere(where_))
  {
    hide AllLexable, Print, Word, Printable;
    if where_.Some? {
      SelectWords();
      ExprLexable(where_.value, 0);
      Both(Word(WHERE, "WHERE"), Print(where_.value, 0));
    } else {
      NoneLexable();
    }
  }

  lemma OrderByLexable(cs: seq<OrderByClause>)
    requires forall c :: c in cs ==> IsName(c.column)
    ensures AllLexable(PrintOrderBy(cs))
  {
    hide AllLexable, Word, PrintList, IsName;
    OrderWords();
    forall c | c in cs ensures AllLexable(PrintOrderItem(c)) {
      NameLexable(c.column);
      Both(Name(c.column), Word(DESC, "DESC"));
    }
    ListLexable(PrintOrderItem, cs);
    if cs == [] {
      NoneLexable();
    } else {
      Both(Word(ORDER, "ORDER"), Word(BY, "BY"));
      Both(Word(ORDER, "ORDER") + Word(BY, "BY"), PrintList(PrintOrderItem, cs));
    }
  }

  lemma LimitLexable(limit: Option<int>)
    ensures AllLexable(PrintLimit(limit))
  {
    hide AllLexable, Word, IsNumeral;
    if limit.None? || limit.value < 0 {
      NoneLexable();
    } else {
      OrderWords();
      DigitsAreNumeral(limit.value);
      NumeralLexable(Decimal.Format(limit.value));
      One(NUMBER, Decimal.Format(limit.value));
      Both(Word(LIMIT, "LIMIT"), Word(NUMBER, Decimal.Format(limit.value)));
    }
  }

  lemma DigitsAreNumeral(n: nat)
    ensures IsNumeral(Decimal.Format(n))
  {
  }

  lemma NamesLexable(names: seq<string>)
    requires forall n :: n in names ==> IsName(n)
    ensures AllLexable(PrintList(Name, names))
  {
    hide AllLexable, PrintList, IsName;
    forall n | n in names ensures AllLexable(Name(n)) {
      NameLexable(n);
    }
    ListLexable(Name, names);
  }

  // ----- statements -----

  lemma SelectLexable(q: SelectStatement)
    requires Writable(SelectStmt(q)) && SpokenStatement(SelectStmt(q))
    ensures AllLexable(PrintStatement(SelectStmt(q)))
  {
    hide AllLexable, Word, PrintList, PrintWhere, PrintOrderBy, PrintLimit, IsName, SpokenExpr, Printable;
    SelectWords();
    Marks();
    if q.columns != ["*"] {
      NamesLexable(q.columns);
    }
    NameLexable(q.table);
    WhereLexable(q.where_);
    OrderByLexable(q.orderBy);
    LimitLexable(q.limit);
    var t1 := PrintOrderBy(q.orderBy) + PrintLimit(q.limit);
    var t2 := PrintWhere(q.where_) + t1;
    var t3 := Name(q.table) + t2;
    var t4 := Word(FROM, "FROM") + t3;
    var t5 := PrintSelectColumns(q.columns) + t4;
    Both(PrintOrderBy(q.orderBy), PrintLimit(q.limit));
    Both(PrintWhere(q.where_), t1);
    Both(Name(q.table), t2);
    Both(Word(FROM, "FROM"), t3);
    Both(PrintSelectColumns(q.columns), t4);
    Both(Word(TokenType.SELECT, "SELECT"), t5);
  }

  lemma InsertLexable(i: InsertStatement)
    requires Writable(InsertStmt(i)) && SpokenStatement(InsertStmt(i))
    ensures AllLexable(PrintStatement(InsertStmt(i)))
  {
    hide AllLexable, Word, PrintList, IsName, SpokenExpr, Printable;
    InsertWords();
    Marks();
    NameLexable(i.table);
    NamesLexable(i.columns);
    forall e | e in i.values ensures AllLexable(PrintValue(e)) {
      ExprLexable(e, 0);
    }
    ListLexable(PrintValue, i.values);
    var t1 := PrintList(PrintValue, i.values) + Word(RPAREN, ")");
    var t2 := Word(LPAREN, "(") + t1;
    var t3 := Word(VALUES, "VALUES") + t2;
    var t4 := Word(RPAREN, ")") + t3;
    var t5 := PrintList(Name, i.columns) + t4;
    var t6 := Word(LPAREN, "(") + t5;
    var t7 := Name(i.table) + t6;
    var t8 := Word(INTO, "INTO") + t7;
    Both(PrintList(PrintValue, i.values), Word(RPAREN, ")"));
    Both(Word(LPAREN, "("), t1);
    Both(Word(VALUES, "VALUES"), t2);
    Both(Word(RPAREN, ")"), t3);
    Both(PrintList(Name, i.columns), t4);
    Both(Word(LPAREN, "("), t5);
    Both(Name(i.table), t6);
    Both(Word(INTO, "INTO"), t7);
    Both(Word(TokenType.INSERT, "INSERT"), t8);
  }

  lemma UpdateLexable(u: UpdateStatement)
    requires Writable(UpdateStmt(u)) && SpokenStatement(UpdateStmt(u))
    ensures AllLexable(PrintStatement(UpdateStmt(u)))
  {
    hide AllLexable, Word, PrintList, PrintWhere, IsName, SpokenExpr, Printable, Print;
    UpdateWords();
    Marks();
    NameLexable(u.table);
    WhereLexable(u.where_);
    forall a | a in u.assignments ensures AllLexable(PrintAssignment(a)) {
      NameLexable(a.column);
      ExprLexable(a.value, 0);
      Both(Name(a.column), Word(EQ, "="));
      Both(Name(a.column) + Word(EQ, "="), Print(a.value, 0));
    }
    ListLexable(PrintAssignment, u.assignments);
    var t1 := PrintList(PrintAssignment, u.assignments) + PrintWhere(u.where_);
    var t2 := Word(SET, "SET") + t1;
    var t3 := Name(u.table) + t2;
    Both(PrintList(PrintAssignment, u.assignments), PrintWhere(u.where_));
    Both(Word(SET, "SET"), t1);
    Both(Name(u.table), t2);
    Both(Word(TokenType.UPDATE, "UPDATE"), t3);
  }

  lemma DeleteLexable(d: DeleteStatement)
    requires Writable(DeleteStmt(d)) && SpokenStatement(DeleteStmt(d))
    ensures AllLexable(PrintStatement(DeleteStmt(d)))
  {
    hide AllLexable, Word, PrintWhere, IsName, SpokenExpr, Printable;
    UpdateWords();
    SelectWords();
    NameLexable(d.table);
    WhereLexable(d.where_);
    var t1 := Name(d.table) + PrintWhere(d.where_);
    Both(Name(d.table), PrintWhere(d.where_));
    Both(Word(FROM, "FROM"), t1);
    Both(Word(TokenType.DELETE, "DELETE"), Word(FROM, "FROM") + t1);
  }

  lemma ColumnDefLexable(d: ColumnDef)
    requires IsName(d.name) && IsName(d.typeName)
    ensures AllLexable(PrintColumnDef(d))
  {
    hide AllLexable, Word, IsName;
    ConstraintWords();
    NotWord();
    NoneLexable();
    NameLexable(d.name);
    NameLexable(d.typeName);
    Both(Name("PRIMARY"), Name("KEY"));
    Both(Word(NOT, "NOT"), Name("NULL"));
    Both(Name(d.name), Name(d.typeName));
    Both(Name(d.name) + Name(d.typeName), PrintPrimary(d.primaryKey));
    Both(Name(d.name) + Name(d.typeName) + PrintPrimary(d.primaryKey), PrintNotNull(d.notNull));
  }

  lemma CreateLexable(table: string, defs: seq<ColumnDef>)
    requires SpokenStatement(CreateTable(table, defs))
    ensures AllLexable(PrintStatement(CreateTable(table, defs)))
  {
    hide AllLexable, Word, PrintList, PrintColumnDef, IsName;
    TableWords();
    Marks();
    NameLexable(table);
    forall d | d in defs ensures AllLexable(PrintColumnDef(d)) {
      ColumnDefLexable(d);
    }
    ListLexable(PrintColumnDef, defs);
    var t1 := PrintList(PrintColumnDef, defs) + Word(RPAREN, ")");
    var t2 := Word(LPAREN, "(") + t1;
    var t3 := Name(table) + t2;
    var t4 := Word(TABLE, "TABLE") + t3;
    Both(PrintList(PrintColumnDef, defs), Word(RPAREN, ")"));
    Both(Word(LPAREN, "("), t1);
    Both(Name(table), t2);
    Both(Word(TABLE, "TABLE"), t3);
    Both(Word(CREATE, "CREATE"), t4);
  }

  lemma DropLexable(table: string)
    requires IsName(table)
    ensures AllLexable(PrintStatement(DropTable(table)))
  {
    hide AllLexable, Word, IsName;
    TableWords();
    DropWords();
    NameLexable(table);
    Both(Word(TABLE, "TABLE"), Name(table));
    Both(Word(DROP, "DROP"), Word(TABLE, "TABLE") + Name(table));
  }

  /** Every statement built of names, numerals, texts and the six comparisons, AND, OR, NOT and
      minus has a text, and lexing and parsing that text gives the statement back. */
  lemma SpokenReadsBack(s: Statement)
    requires Writable(s) && SpokenStatement(s)
    ensures Speakable(s)
    ensures var tokens := TokensFrom(Render(PrintStatement(s)), 0);
            tokens.Some? && ParseAt(LexemesOf(tokens.value)) == Ok(s, [Lexeme(END_OF_FILE, "")])
  {
    hide PrintStatement, Render, TokensFrom, ParseAt, Lexable, IsName, SpokenExpr;
    assert AllLexable(PrintStatement(s)) by {
      match s {
        case SelectStmt(q) => SelectLexable(q);
        case InsertStmt(i) => InsertLexable(i);
        case UpdateStmt(u) => UpdateLexable(u);
        case DeleteStmt(d) => DeleteLexable(d);
        case CreateTable(table, defs) => CreateLexable(table, defs);
        case DropTable(table) => DropLexable(table);
      }
    }
    TextReadsBack(s);
  }
}
