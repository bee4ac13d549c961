/** What the parser makes of a source text can be written again: printed with the fewest parentheses,
    rendered, lexed and parsed, it is the same statement. And these are exactly the statements that
    have a text. */
module NormalForms {
  import opened Ast
  import opened Characters
  import Decimal
  import opened Grammar
  import opened Lexers
  import opened Lexing
  import opened Options
  import opened Parsing
  import opened Printing
  import opened PrintStatements
  import opened Spoken
  import opened StatementGrammar
  import opened Texts
  import opened Tokens

  // ----- the lexer's tokens -----

  /** The token ends the stream, or its text is one that its kind can have. */
  ghost predicate Heard(l: Lexeme) {
    l.kind == END_OF_FILE || Lexable(l)
  }

  ghost predicate AllHeard(ts: seq<Lexeme>) {
    forall l :: l in ts ==> Heard(l)
  }

  lemma NumberScanned(s: string)
    requires s != "" && Decimal.IsDigit(s[0])
    ensures IsNumeral(s[..NumberRun(s)])
  {
    hide Run;
    var n := Run(Decimal.IsDigit, s);
    assert n > 0;
    assert AllDigits(s[..n]);
    if n + 1 < |s| && s[n] == '.' && Decimal.IsDigit(s[n + 1]) {
      var m := Run(Decimal.IsDigit, s[n + 1..]);
      assert m > 0;
      var v, tail := s[..n + 1 + m], s[n + 1..];
      var fraction := v[n + 1..];
      assert v[..n] == s[..n] && v[n] == '.';
      assert forall i :: 0 <= i < m ==> fraction[i] == tail[i];
      assert AllDigits(fraction);
    }
  }

  lemma WordScanned(s: string)
    requires s != "" && (IsAlpha(s[0]) || s[0] == '_')
    ensures var word := s[..Run(IsWordChar, s)]; IsWord(word) && Lexable(Lexeme(ClassifyWord(Upper(word)), word))
  {
    hide Upper, ClassifyWord, Lexable, IsWord;
    WordIs(s, Run(IsWordChar, s));
    var word := s[..Run(IsWordChar, s)];
    WordLexable(ClassifyWord(Upper(word)), word);
  }

  lemma WordIs(s: string, n: nat)
    requires s != "" && (IsAlpha(s[0]) || s[0] == '_') && n == Run(IsWordChar, s)
    ensures IsWord(s[..n])
  {
    assert s[..n][0] == s[0];
  }

  /** Whatever the lexer reads as one token is a text of that kind. */
  lemma ScanHeard(s: string)
    requires s != ""
    ensures Scan(s).Some? ==> Lexable(Lexeme(Scan(s).value.kind, Scan(s).value.value))
  {
    hide StringBody, NumberRun, Run, Upper, ClassifyWord, IsNumeral, IsWord;
    if Decimal.IsDigit(s[0]) {
      NumberScanned(s);
    } else if IsAlpha(s[0]) || s[0] == '_' {
      WordScanned(s);
    } else {
      PunctuationKinds(s[0]);
      assert |s| > 1 && s[0] == '<' && s[1] == '=' ==> s[..2] == "<=";
      assert |s| > 1 && s[0] == '>' && s[1] == '=' ==> s[..2] == ">=";
      assert s[..1] == [s[0]];
    }
  }

  lemma {:induction false} TokensHeard(src: string, pos: nat)
    requires pos <= |src|
    ensures TokensFrom(src, pos).Some? ==> AllHeard(LexemesOf(TokensFrom(src, pos).value))
    decreases |src| - pos
  {
    hide Scan, Run, IsComment, LineOf, ColOf, TokensFrom, Lexable;
    TokensUnfold(src, pos);
    var p := pos + Run(IsSpace, src[pos..]);
    if p < |src| {
      if IsComment(src[p..]) {
        CommentLength(src[p..]);
        TokensHeard(src, p + Run(IsNotBreak, src[p..]));
      } else if Scan(src[p..]).Some? {
        var t := Scan(src[p..]).value;
        TokensHeard(src, p + t.length);
        ScanHeard(src[p..]);
      }
    }
  }

  // ----- expressions -----

  lemma HeardTail(ts: seq<Lexeme>)
    requires AllHeard(ts) && ts != []
    ensures AllHeard(ts[1..]) && Heard(ts[0])
  {
    hide Heard;
  }

  /** The expression has a text. */
  ghost predicate Sayable(e: Expr) {
    Printable(e) && SpokenExpr(e)
  }

  /** If there is a result, it has a text, and what is left comes from the lexer still. */
  ghost predicate Sound(r: Parsed<Expr>) {
    r.Ok? ==> Sayable(r.value) && AllHeard(r.rest)
  }

  lemma OperatorHeard(l: Lexeme)
    requires Heard(l)
    ensures IsLogical(l.kind) || IsComparison(l.kind) ==> BinaryKind(l.value) == Some(l.kind)
    ensures l.kind == NOT || l.kind == MINUS ==> UnaryKind(l.value) == Some(l.kind)
    ensures l.kind == BOOL_TRUE || l.kind == BOOL_FALSE ==> BoolKind(l.value) == Some(l.kind)
  {
    hide Upper, Heard;
    KeywordHeard(l);
    SymbolHeard(l);
    SymbolsAreUpper();
  }

  lemma KeywordHeard(l: Lexeme)
    requires Heard(l)
    ensures l.kind == AND ==> Upper(l.value) == "AND"
    ensures l.kind == OR ==> Upper(l.value) == "OR"
    ensures l.kind == NOT ==> Upper(l.value) == "NOT"
    ensures l.kind == BOOL_TRUE ==> Upper(l.value) == "TRUE"
    ensures l.kind == BOOL_FALSE ==> Upper(l.value) == "FALSE"
  {
    hide Upper, ClassifyWord, IsNumeral, IsWord;
    KeywordWords(Upper(l.value));
  }

  lemma SymbolHeard(l: Lexeme)
    requires Heard(l)
    ensures l.kind == EQ ==> l.value == "="
    ensures l.kind == NEQ ==> l.value == "!="
    ensures l.kind == LT ==> l.value == "<"
    ensures l.kind == GT ==> l.value == ">"
    ensures l.kind == LTE ==> l.value == "<="
    ensures l.kind == GTE ==> l.value == ">="
    ensures l.kind == MINUS ==> l.value == "-"
  {
    hide Upper, ClassifyWord, IsNumeral, IsWord;
    KeywordWords(Upper(l.value));
  }

  lemma KeywordWords(upper: string)
    ensures ClassifyWord(upper) == AND ==> upper == "AND"
    ensures ClassifyWord(upper) == OR ==> upper == "OR"
    ensures ClassifyWord(upper) == NOT ==> upper == "NOT"
    ensures ClassifyWord(upper) == BOOL_TRUE ==> upper == "TRUE"
    ensures ClassifyWord(upper) == BOOL_FALSE ==> upper == "FALSE"
    ensures ClassifyWord(upper) !in {EQ, NEQ, LT, GT, LTE, GTE, MINUS}
  {
  }

  lemma SymbolsAreUpper()
    ensures Upper("<=") == "<=" && Upper(">=") == ">=" && Upper("!=") == "!="
  {
    assert "<="[1..] == "=" && ">="[1..] == "=" && "!="[1..] == "=";
    assert Upper("=") == "=";
  }

  lemma BinarySayable(l: Lexeme, left: Expr, right: Expr)
    requires Heard(l) && (IsLogical(l.kind) || IsComparison(l.kind)) && Sayable(left) && Sayable(right)
    ensures Sayable(Binary(l.value, left, right))
  {
    hide Upper, Heard;
    OperatorHeard(l);
  }

  lemma UnarySayable(l: Lexeme, e: Expr)
    requires Heard(l) && (l.kind == NOT || l.kind == MINUS) && Sayable(e)
    ensures Sayable(Unary(l.value, e))
  {
    hide Upper, Heard;
    OperatorHeard(l);
  }

  lemma {:induction false} ExpressionSound(ts: seq<Lexeme>)
    requires AllHeard(ts)
    ensures Sound(ExpressionAt(ts))
    decreases |ts|, 4
  {
    hide Heard, ComparisonAt, ExpressionTail, Sayable;
    ComparisonSound(ts);
    if ComparisonAt(ts).Ok? {
      ExpressionTailSound(ComparisonAt(ts).value, ComparisonAt(ts).rest);
    }
  }

  lemma {:induction false} ExpressionTailSound(left: Expr, ts: seq<Lexeme>)
    requires AllHeard(ts) && Sayable(left)
    ensures Sound(ExpressionTail(left, ts))
    decreases |ts|, 4
  {
    hide Heard, ComparisonAt, Sayable;
    if ts != [] && IsLogical(ts[0].kind) {
      HeardTail(ts);
      ComparisonSound(ts[1..]);
      var right := ComparisonAt(ts[1..]);
      if right.Ok? {
        BinarySayable(ts[0], left, right.value);
        ExpressionTailSound(Binary(ts[0].value, left, right.value), right.rest);
      }
    }
  }

  lemma {:induction false} ComparisonSound(ts: seq<Lexeme>)
    requires AllHeard(ts)
    ensures Sound(ComparisonAt(ts))
    decreases |ts|, 3
  {
    hide Heard, UnaryAt, ComparisonTail, Sayable;
    UnarySound(ts);
    if UnaryAt(ts).Ok? {
      ComparisonTailSound(UnaryAt(ts).value, UnaryAt(ts).rest);
    }
  }

  lemma {:induction false} ComparisonTailSound(left: Expr, ts: seq<Lexeme>)
    requires AllHeard(ts) && Sayable(left)
    ensures Sound(ComparisonTail(left, ts))
    decreases |ts|, 3
  {
    hide Heard, UnaryAt, Sayable;
    if ts != [] && IsComparison(ts[0].kind) {
      HeardTail(ts);
      UnarySound(ts[1..]);
      var right := UnaryAt(ts[1..]);
      if right.Ok? {
        BinarySayable(ts[0], left, right.value);
        ComparisonTailSound(Binary(ts[0].value, left, right.value), right.rest);
      }
    }
  }

  lemma {:induction false} UnarySound(ts: seq<Lexeme>)
    requires AllHeard(ts)
    ensures Sound(UnaryAt(ts))
    decreases |ts|, 2
  {
    hide Heard, PrimaryAt, Sayable;
    if ts != [] && (ts[0].kind == NOT || ts[0].kind == MINUS) {
      HeardTail(ts);
      UnarySound(ts[1..]);
      if UnaryAt(ts[1..]).Ok? {
        UnarySayable(ts[0], UnaryAt(ts[1..]).value);
      }
    } else {
      PrimarySound(ts);
    }
  }

  /** A name or number token that was heard is a name or a numeral. */
  lemma WordHeard(l: Lexeme)
    requires Heard(l)
    ensures l.kind == IDENTIFIER ==> IsName(l.value)
    ensures l.kind == NUMBER ==> IsNumeral(l.value)
  {
    hide Upper, ClassifyWord, IsNumeral, IsWord;
  }

  lemma {:induction false} PrimarySound(ts: seq<Lexeme>)
    requires AllHeard(ts)
    ensures Sound(PrimaryAt(ts))
    decreases |ts|, 1
  {
    hide ExpressionAt, Heard, Upper, ClassifyWord, IsNumeral, IsWord;
    if ts != [] {
      HeardTail(ts);
      WordHeard(ts[0]);
      OperatorHeard(ts[0]);
      if ts[0].kind == LPAREN {
        ExpressionSound(ts[1..]);
      } else if ts[0].kind == IDENTIFIER && Kind(ts[1..]) == DOT {
        HeardTail(ts[1..]);
        if ts[1..][1..] != [] {
          WordHeard(ts[1..][1..][0]);
        }
      }
    }
  }

  /** An expression that the parser read from a source text, printed with the fewest parentheses and
      read again, with anything behind it that cannot go on with it, is the same expression. */
  lemma ParsedPrintsBack(src: string, pos: nat, rest: seq<Lexeme>)
    requires pos <= |src| && TokensFrom(src, pos).Some? && ExpressionAt(LexemesOf(TokensFrom(src, pos).value)).Ok?
    requires Stops(rest)
    ensures var e := ExpressionAt(LexemesOf(TokensFrom(src, pos).value)).value;
            Printable(e) && ExpressionAt(Print(e, 0) + rest) == Ok(e, rest)
  {
    hide AllHeard, ExpressionAt, Printable, Print, TokensFrom, SpokenExpr, ValueForm, Plain;
    TokensHeard(src, pos);
    ExpressionSound(LexemesOf(TokensFrom(src, pos).value));
    var e := ExpressionAt(LexemesOf(TokensFrom(src, pos).value)).value;
    PrintedForm(e);
    ReadExpression(Print(e, 0), e, rest);
  }

  // ----- parts of statements -----

  lemma ExpectSound(ts: seq<Lexeme>, k: TokenType)
    requires AllHeard(ts)
    ensures Expect(ts, k).Ok? ==>
      && AllHeard(Expect(ts, k).rest)
      && (k == IDENTIFIER ==> IsName(Expect(ts, k).value))
      && (k == NUMBER ==> IsNumeral(Expect(ts, k).value))
  {
    hide Heard, IsName, IsNumeral;
    if ts != [] {
      HeardTail(ts);
      WordHeard(ts[0]);
    }
  }

  lemma {:induction false} ExpectAllSound(ts: seq<Lexeme>, ks: seq<TokenType>)
    requires AllHeard(ts) && ks != []
    ensures ExpectAll(ts, ks).Ok? ==>
      && AllHeard(ExpectAll(ts, ks).rest)
      && (ks[|ks| - 1] == IDENTIFIER ==> IsName(ExpectAll(ts, ks).value))
    decreases |ks|
  {
    hide Expect, AllHeard, IsName;
    ExpectSound(ts, ks[0]);
    if Expect(ts, ks[0]).Ok? && |ks| > 1 {
      ExpectAllSound(Expect(ts, ks[0]).rest, ks[1..]);
    }
  }

  lemma SkipSound(ts: seq<Lexeme>, k: TokenType)
    requires AllHeard(ts)
    ensures AllHeard(Skip(ts, k))
  {
    hide Heard;
  }

  ghost predicate SoundItem<T>(r: Parsed<T>, good: T -> bool) {
    r.Ok? ==> good(r.value) && AllHeard(r.rest)
  }

  ghost predicate AllGood<T>(xs: seq<T>, good: T -> bool) {
    xs != [] && forall x :: x in xs ==> good(x)
  }

  lemma {:induction false} ListSound<T>(item: seq<Lexeme> -> Parsed<T>, good: T -> bool, ts: seq<Lexeme>)
    requires AllHeard(ts) && forall us :: AllHeard(us) ==> SoundItem(item(us), good)
    ensures var r := ListAt(item, ts); r.Ok? ==> AllGood(r.value, good) && AllHeard(r.rest)
    decreases |ts|
  {
    hide AllHeard;
    var r := item(ts);
    assert SoundItem(r, good);
    if r.Ok? && |r.rest| < |ts| && Kind(r.rest) == COMMA {
      HeardTail(r.rest);
      ListSound(item, good, r.rest[1..]);
    }
  }

  lemma NamesSound(ts: seq<Lexeme>)
    requires AllHeard(ts)
    ensures var r := ListAt(NameAt, ts); r.Ok? ==> r.value != [] && (forall n :: n in r.value ==> IsName(n)) && AllHeard(r.rest)
  {
    hide AllHeard, IsName, ListAt, Expect;
    forall us | AllHeard(us)
      ensures SoundItem(NameAt(us), n => IsName(n))
    {
      ExpectSound(us, IDENTIFIER);
    }
    ListSound(NameAt, n => IsName(n), ts);
  }

  lemma ValuesSound(ts: seq<Lexeme>)
    requires AllHeard(ts)
    ensures var r := ListAt(ExpressionAt, ts); r.Ok? ==> r.value != [] && (forall e :: e in r.value ==> Sayable(e)) && AllHeard(r.rest)
  {
    hide AllHeard, Sayable, ListAt, ExpressionAt;
    forall us | AllHeard(us)
      ensures SoundItem(ExpressionAt(us), e => Sayable(e))
    {
      ExpressionSound(us);
    }
    ListSound(ExpressionAt, e => Sayable(e), ts);
  }

  ghost predicate GoodAssignment(a: Assignment) {
    IsName(a.column) && Sayable(a.value)
  }

  lemma AssignmentSound(ts: seq<Lexeme>)
    requires AllHeard(ts)
    ensures SoundItem(AssignmentAt(ts), a => GoodAssignment(a))
  {
    hide AllHeard, Sayable, IsName, Expect, ExpressionAt;
    ExpectSound(ts, IDENTIFIER);
    if Expect(ts, IDENTIFIER).Ok? {
      var rest := Expect(ts, IDENTIFIER).rest;
      ExpectSound(rest, EQ);
      if Expect(rest, EQ).Ok? {
        ExpressionSound(Expect(rest, EQ).rest);
      }
    }
  }

  lemma AssignmentsSound(ts: seq<Lexeme>)
    requires AllHeard(ts)
    ensures var r := ListAt(AssignmentAt, ts);
      r.Ok? ==> r.value != [] && (forall a :: a in r.value ==> GoodAssignment(a)) && AllHeard(r.rest)
  {
    hide AllHeard, GoodAssignment, ListAt, AssignmentAt;
    forall us | AllHeard(us)
      ensures SoundItem(AssignmentAt(us), a => GoodAssignment(a))
    {
      AssignmentSound(us);
    }
    ListSound(AssignmentAt, a => GoodAssignment(a), ts);
  }

  lemma WhereSound(ts: seq<Lexeme>)
    requires AllHeard(ts)
    ensures var r := WhereAt(ts); r.Ok? ==> (r.value.Some? ==> Sayable(r.value.value)) && AllHeard(r.rest)
  {
    hide AllHeard, Sayable, ExpressionAt;
    if Kind(ts) == WHERE {
      HeardTail(ts);
      ExpressionSound(ts[1..]);
    }
  }

  ghost predicate GoodOrder(c: OrderByClause) {
    IsName(c.column)
  }

  lemma OrderItemSound(ts: seq<Lexeme>)
    requires AllHeard(ts)
    ensures SoundItem(OrderItemAt(ts), c => GoodOrder(c))
  {
    hide AllHeard, IsName, Expect, Skip;
    ExpectSound(ts, IDENTIFIER);
    if Expect(ts, IDENTIFIER).Ok? {
      var rest := Expect(ts, IDENTIFIER).rest;
      SkipSound(rest, DESC);
      SkipSound(Skip(rest, DESC), ASC);
    }
  }

  lemma OrderBySound(ts: seq<Lexeme>)
    requires AllHeard(ts)
    ensures var r := OrderByAt(ts); r.Ok? ==> (forall c :: c in r.value ==> GoodOrder(c)) && AllHeard(r.rest)
  {
    hide AllHeard, IsName, ListAt, OrderItemAt, Expect;
    if Kind(ts) == ORDER {
      HeardTail(ts);
      ExpectSound(ts[1..], BY);
      if Expect(ts[1..], BY).Ok? {
        forall us | AllHeard(us)
          ensures SoundItem(OrderItemAt(us), c => GoodOrder(c))
        {
          OrderItemSound(us);
        }
        ListSound(OrderItemAt, c => GoodOrder(c), Expect(ts[1..], BY).rest);
      }
    }
  }

  lemma LimitSound(ts: seq<Lexeme>)
    requires AllHeard(ts)
    ensures var r := LimitAt(ts); r.Ok? ==> (r.value.Some? ==> 0 <= r.value.value <= INT_MAX) && AllHeard(r.rest)
  {
    hide AllHeard, Expect;
    if Kind(ts) == LIMIT {
      HeardTail(ts);
      ExpectSound(ts[1..], NUMBER);
    }
  }

  ghost predicate GoodColumn(d: ColumnDef) {
    IsName(d.name) && IsName(d.typeName)
  }

  lemma {:induction false} ConstraintsSound(def: ColumnDef, ts: seq<Lexeme>)
    requires AllHeard(ts) && GoodColumn(def)
    ensures SoundItem(ConstraintsAt(def, ts), d => GoodColumn(d))
    decreases |ts|
  {
    hide AllHeard, IsName, Expect;
    if ts != [] {
      HeardTail(ts);
      ExpectSound(ts[1..], IDENTIFIER);
      if Expect(ts[1..], IDENTIFIER).Ok? {
        var rest := Expect(ts[1..], IDENTIFIER).rest;
        ConstraintsSound(def.(primaryKey := true), rest);
        ConstraintsSound(def.(notNull := true), rest);
      }
    }
  }

  lemma ColumnDefSound(ts: seq<Lexeme>)
    requires AllHeard(ts)
    ensures SoundItem(ColumnDefAt(ts), d => GoodColumn(d))
  {
    hide AllHeard, IsName, Expect, ConstraintsAt;
    ExpectSound(ts, IDENTIFIER);
    if Expect(ts, IDENTIFIER).Ok? {
      var rest := Expect(ts, IDENTIFIER).rest;
      ExpectSound(rest, IDENTIFIER);
      if Expect(rest, IDENTIFIER).Ok? {
        var def := ColumnDef(Expect(ts, IDENTIFIER).value, Expect(rest, IDENTIFIER).value, false, false);
        ConstraintsSound(def, Expect(rest, IDENTIFIER).rest);
      }
    }
  }

  lemma ColumnDefsSound(ts: seq<Lexeme>)
    requires AllHeard(ts)
    ensures var r := ListAt(ColumnDefAt, ts);
      r.Ok? ==> r.value != [] && (forall d :: d in r.value ==> GoodColumn(d)) && AllHeard(r.rest)
  {
    hide AllHeard, GoodColumn, ListAt, ColumnDefAt;
    forall us | AllHeard(us)
      ensures SoundItem(ColumnDefAt(us), d => GoodColumn(d))
    {
      ColumnDefSound(us);
    }
    ListSound(ColumnDefAt, d => GoodColumn(d), ts);
  }

  // ----- statements -----

  /** If there is a statement, it has a text. */
  ghost predicate SoundStatement(r: Parsed<Statement>) {
    r.Ok? ==> Writable(r.value) && SpokenStatement(r.value)
  }

  lemma SelectSound(ts: seq<Lexeme>)
    requires AllHeard(ts)
    ensures SoundStatement(SelectAt(ts))
  {
    hide AllHeard, IsName, Expect, SelectTail, ListAt, SoundStatement;
    SelectFails(ts);
    ExpectSound(ts, TokenType.SELECT);
    if Expect(ts, TokenType.SELECT).Ok? {
      var t1 := Expect(ts, TokenType.SELECT).rest;
      SelectColumnsSound(t1);
      if SelectColumnsAt(t1).Ok? {
        var columns, t2 := SelectColumnsAt(t1).value, SelectColumnsAt(t1).rest;
        ExpectSound(t2, FROM);
        if Expect(t2, FROM).Ok? {
          var t3 := Expect(t2, FROM).rest;
          ExpectSound(t3, IDENTIFIER);
          if Expect(t3, IDENTIFIER).Ok? {
            SelectTailSound(columns, Expect(t3, IDENTIFIER).value, Expect(t3, IDENTIFIER).rest);
          }
        }
      }
    }
  }

  lemma SelectFails(ts: seq<Lexeme>)
    ensures SelectAt(ts).Err? ==> SoundStatement(SelectAt(ts))
  {
  }

  lemma SelectColumnsSound(ts: seq<Lexeme>)
    requires AllHeard(ts)
    ensures var r := SelectColumnsAt(ts);
      r.Ok? ==> r.value != [] && (r.value == ["*"] || forall c :: c in r.value ==> IsName(c)) && AllHeard(r.rest)
  {
    hide AllHeard, IsName, ListAt;
    NamesSound(ts);
    if Kind(ts) == STAR {
      HeardTail(ts);
    }
  }

  lemma SelectTailSound(columns: seq<string>, table: string, ts: seq<Lexeme>)
    requires AllHeard(ts) && columns != [] && (columns == ["*"] || forall c :: c in columns ==> IsName(c)) && IsName(table)
    ensures SoundStatement(SelectTail(columns, table, ts))
  {
    hide AllHeard, IsName, WhereAt, OrderByAt, LimitAt, Printable, SpokenExpr;
    WhereSound(ts);
    if WhereAt(ts).Ok? {
      var t1 := WhereAt(ts).rest;
      OrderBySound(t1);
      if OrderByAt(t1).Ok? {
        LimitSound(OrderByAt(t1).rest);
      }
    }
  }

  lemma InsertSound(ts: seq<Lexeme>)
    requires AllHeard(ts)
    ensures SoundStatement(InsertAt(ts))
  {
    hide AllHeard, IsName, Expect, ExpectAll, InsertTail, ListAt;
    ExpectAllSound(ts, [TokenType.INSERT, INTO, IDENTIFIER]);
    var head := ExpectAll(ts, [TokenType.INSERT, INTO, IDENTIFIER]);
    if head.Ok? {
      ExpectSound(head.rest, LPAREN);
      if Expect(head.rest, LPAREN).Ok? {
        var t2 := Expect(head.rest, LPAREN).rest;
        NamesSound(t2);
        if ListAt(NameAt, t2).Ok? {
          var t3 := ListAt(NameAt, t2).rest;
          ExpectAllSound(t3, [RPAREN, VALUES, LPAREN]);
          if ExpectAll(t3, [RPAREN, VALUES, LPAREN]).Ok? {
            InsertTailSound(head.value, ListAt(NameAt, t2).value, ExpectAll(t3, [RPAREN, VALUES, LPAREN]).rest);
          }
        }
      }
    }
  }

  lemma InsertTailSound(table: string, columns: seq<string>, ts: seq<Lexeme>)
    requires AllHeard(ts) && IsName(table) && columns != [] && forall c :: c in columns ==> IsName(c)
    ensures SoundStatement(InsertTail(table, columns, ts))
  {
    hide AllHeard, IsName, Expect, ListAt, Printable, SpokenExpr;
    ValuesSound(ts);
  }

  lemma UpdateSound(ts: seq<Lexeme>)
    requires AllHeard(ts)
    ensures SoundStatement(UpdateAt(ts))
  {
    hide AllHeard, IsName, Expect, ExpectAll, ListAt, WhereAt, Printable, SpokenExpr;
    ExpectAllSound(ts, [TokenType.UPDATE, IDENTIFIER]);
    var head := ExpectAll(ts, [TokenType.UPDATE, IDENTIFIER]);
    if head.Ok? {
      ExpectSound(head.rest, SET);
      if Expect(head.rest, SET).Ok? {
        var t2 := Expect(head.rest, SET).rest;
        AssignmentsSound(t2);
        if ListAt(AssignmentAt, t2).Ok? {
          WhereSound(ListAt(AssignmentAt, t2).rest);
        }
      }
    }
  }

  lemma DeleteSound(ts: seq<Lexeme>)
    requires AllHeard(ts)
    ensures SoundStatement(DeleteAt(ts))
  {
    hide AllHeard, IsName, ExpectAll, WhereAt, Printable, SpokenExpr;
    ExpectAllSound(ts, [TokenType.DELETE, FROM, IDENTIFIER]);
    var head := ExpectAll(ts, [TokenType.DELETE, FROM, IDENTIFIER]);
    if head.Ok? {
      WhereSound(head.rest);
    }
  }

  lemma CreateSound(ts: seq<Lexeme>)
    requires AllHeard(ts)
    ensures SoundStatement(CreateTableAt(ts))
  {
    hide AllHeard, IsName, Expect, ExpectAll, ListAt;
    ExpectAllSound(ts, [CREATE, TABLE, IDENTIFIER]);
    var head := ExpectAll(ts, [CREATE, TABLE, IDENTIFIER]);
    if head.Ok? {
      ExpectSound(head.rest, LPAREN);
      if Expect(head.rest, LPAREN).Ok? {
        ColumnDefsSound(Expect(head.rest, LPAREN).rest);
      }
    }
  }

  lemma DropSound(ts: seq<Lexeme>)
    requires AllHeard(ts)
    ensures SoundStatement(DropTableAt(ts))
  {
    hide AllHeard, IsName, ExpectAll;
    ExpectAllSound(ts, [DROP, TABLE, IDENTIFIER]);
  }

  lemma StatementSound(ts: seq<Lexeme>)
    requires AllHeard(ts)
    ensures SoundStatement(ParseAt(ts))
  {
    hide AllHeard, SelectAt, InsertAt, UpdateAt, DeleteAt, CreateTableAt, DropTableAt, Writable, SpokenStatement;
    SelectSound(ts);
    InsertSound(ts);
    UpdateSound(ts);
    DeleteSound(ts);
    CreateSound(ts);
    DropSound(ts);
  }

  /** The source text is read as the statement. */
  ghost predicate Means(src: string, s: Statement) {
    && TokensFrom(src, 0).Some?
    && ParseAt(LexemesOf(TokensFrom(src, 0).value)).Ok?
    && ParseAt(LexemesOf(TokensFrom(src, 0).value)).value == s
  }

  /** Whatever a source text is read as, its printed and rendered form is read as the same. */
  lemma SourceReadsBack(src: string, s: Statement)
    requires Means(src, s)
    ensures Writable(s) && SpokenStatement(s) && Means(Render(PrintStatement(s)), s)
  {
    hide AllHeard, ParseAt, TokensFrom, Writable, SpokenStatement, PrintStatement, Render;
    TokensHeard(src, 0);
    StatementSound(LexemesOf(TokensFrom(src, 0).value));
    SpokenReadsBack(s);
  }

  /** The statements that have a source text are exactly those built of names that are no keywords,
      numerals, any strings, operator words in any case, with no list empty and a limit that is an
      int. */
  lemma HasTextIff(s: Statement)
    ensures (exists src :: Means(src, s)) <==> Writable(s) && SpokenStatement(s)
  {
    hide Means, Writable, SpokenStatement, PrintStatement, Render;
    if src :| Means(src, s) {
      SourceReadsBack(src, s);
    }
    if Writable(s) && SpokenStatement(s) {
      SpokenMeans(s);
    }
  }

  lemma SpokenMeans(s: Statement)
    requires Writable(s) && SpokenStatement(s)
    ensures Means(Render(PrintStatement(s)), s)
  {
    hide ParseAt, TokensFrom, Writable, SpokenStatement, PrintStatement, Render;
    SpokenReadsBack(s);
  }
}
