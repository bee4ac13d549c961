/** From a statement to its text and back: printing, rendering, lexing and parsing. */
module Texts {
  import opened Ast
  import opened Characters
  import opened Lexers
  import opened Lexing
  import opened Options
  import opened Parsers
  import opened Parsing
  import opened PrintStatements
  import opened Spelling
  import opened StatementGrammar
  import opened TextGrammar
  import opened Tokens

  /** The names, operators and literals of the statement are ones that the lexer reads as such. */
  ghost predicate Speakable(s: Statement) {
    Writable(s) && forall l :: l in PrintStatement(s) ==> Lexable(l)
  }

  /** The statement's text lexes into its tokens, and those parse into the statement. */
  lemma TextReadsBack(s: Statement)
    requires Speakable(s)
    ensures var tokens := TokensFrom(Render(PrintStatement(s)), 0);
            && tokens.Some?
            && ParseAt(LexemesOf(tokens.value)) == Ok(s, [Lexeme(END_OF_FILE, "")])
  {
    hide Writable, PrintStatement, Lexable, TokensFrom, Render, StatementAt;
    var src := Render(PrintStatement(s));
    assert src[0..] == src;
    RenderLexes(src, 0, 0, PrintStatement(s));
    StatementReadsBack(s, [Lexeme(END_OF_FILE, "")]);
  }

  lemma {:induction false} StreamEnds(src: string, pos: nat)
    requires pos <= |src|
    ensures TokensFrom(src, pos).Some? ==> Stream(TokensFrom(src, pos).value)
    decreases |src| - pos
  {
    hide Scan, Run, IsComment, LineOf, ColOf, TokensFrom;
    TokensUnfold(src, pos);
    var p := pos + Run(IsSpace, src[pos..]);
    if p < |src| {
      if IsComment(src[p..]) {
        CommentLength(src[p..]);
        StreamEnds(src, p + Run(IsNotBreak, src[p..]));
      } else if Scan(src[p..]).Some? {
        var t := Scan(src[p..]).value;
        StreamEnds(src, p + t.length);
        ScanIsNoEnd(src[p..]);
      }
    }
  }

  lemma ScanIsNoEnd(s: string)
    requires s != ""
    ensures Scan(s).Some? ==> Scan(s).value.kind != END_OF_FILE
  {
    hide StringBody, NumberRun, Run, Upper;
    var n := Run(IsWordChar, s);
    KeywordKinds(Upper(s[..n]));
    PunctuationKinds(s[0]);
  }

  // ----- texts without the lexer and the parser -----

  /** The text is spelled as these tokens, and the first n of them are a way to write the statement. */
  ghost predicate Says(src: string, ls: seq<Lexeme>, n: int, s: Statement) {
    TextForm(src, ls) && 0 <= n <= |ls| && StatementForm(ls[..n], s)
  }

  lemma {:induction false} SpelledPlain(src: string, ls: seq<Lexeme>)
    requires TextForm(src, ls)
    ensures Plain(ls)
    decreases |src|
  {
    hide IsLongest, IsPrimary;
    if src == "" {
    } else if Blank(src[0]) {
      SpelledPlain(src[1..], ls);
    } else if StartsComment(src) {
      var e :| CommentTo(src, e) && TextForm(src[e..], ls);
      SpelledPlain(src[e..], ls);
    } else {
      var n :| TokenTo(src, ls[0], n) && TextForm(src[n..], ls[1..]);
      TokenPlain(src, ls[0], n);
      SpelledPlain(src[n..], ls[1..]);
      assert ls == [ls[0]] + ls[1..];
    }
  }

  lemma TokenPlain(src: string, l: Lexeme, n: int)
    requires TokenTo(src, l, n)
    ensures 0 < n && (l.kind == COMMA || l.kind == RPAREN ==> !IsPrimary(l))
  {
    hide StringForm, NumberForm, WordForm;
  }

  /** A text that says a statement, with a semicolon or nothing after it, is read as that statement. */
  lemma SaidIsRead(src: string, ls: seq<Lexeme>, n: nat, s: Statement)
    requires Says(src, ls, n, s) && Ends(ls[n..])
    ensures TokensFrom(src, 0).Some?
    ensures var r := ParseAt(LexemesOf(TokensFrom(src, 0).value)); r.Ok? && r.value == s
  {
    hide TextForm, TokensFrom, StatementForm, Plain;
    LexesIff(src, 0, ls);
    assert src[0..] == src;
    var rest := ls[n..] + [Lexeme(END_OF_FILE, "")];
    SpelledPlain(src, ls);
    PlainPart(ls, 0, n);
    assert ls[0..n] == ls[..n];
    assert ls + [Lexeme(END_OF_FILE, "")] == ls[..n] + rest;
    SemicolonTaken(ls[..n], s, rest);
  }

  /** What is read, short of the end-of-file token, is what the text says. */
  lemma ReadIsSaid(src: string)
    requires TokensFrom(src, 0).Some?
    requires var r := ParseAt(LexemesOf(TokensFrom(src, 0).value)); r.Ok? && r.rest != []
    ensures var s := ParseAt(LexemesOf(TokensFrom(src, 0).value)).value; exists ls, n :: Says(src, ls, n, s)
  {
    hide TextForm, TokensFrom, StatementForm, StatementAt;
    var ts := LexemesOf(TokensFrom(src, 0).value);
    SomeTokens(src, 0);
    var ls := ts[..|ts| - 1];
    assert ts == ls + [Lexeme(END_OF_FILE, "")];
    LexesIff(src, 0, ls);
    assert src[0..] == src;
    StatementDerived(ts);
    var n := |ts| - |StatementAt(ts).rest|;
    assert ts[..n] == ls[..n];
    assert Says(src, ls, n, StatementAt(ts).value);
  }

  /** Lexing and parsing a text, as the program does for every statement. */
  method ReadStatement(src: string) returns (r: Option<Statement>)
    ensures match TokensFrom(src, 0)
            case None => r == None
            case Some(tokens) =>
              match ParseAt(LexemesOf(tokens))
              case Err => r == None
              case Ok(s, _) => r == Some(s)
    ensures forall ls, n, s | Says(src, ls, n, s) && Ends(ls[n..]) :: r == Some(s)
    ensures r.Some? ==> exists ls, n :: Says(src, ls, n, r.value)
    ensures forall s :: Speakable(s) && src == Render(PrintStatement(s)) ==> r == Some(s)
  {
    hide TokensFrom, ParseAt, Speakable, Render, PrintStatement, Stream, TextForm, StatementForm, Ends;
    forall ls, n, s | Says(src, ls, n, s) && 0 <= n <= |ls| && Ends(ls[n..])
      ensures TokensFrom(src, 0).Some?
      ensures var r := ParseAt(LexemesOf(TokensFrom(src, 0).value)); r.Ok? && r.value == s
    {
      SaidIsRead(src, ls, n, s);
    }
    forall s | Speakable(s) && src == Render(PrintStatement(s))
      ensures TokensFrom(src, 0).Some? && ParseAt(LexemesOf(TokensFrom(src, 0).value)) == Ok(s, [Lexeme(END_OF_FILE, "")])
    {
      TextReadsBack(s);
    }
    var lexer := new Lexer(src);
    var tokens := lexer.Tokenize();
    if tokens.None? {
      return None;
    }
    StreamEnds(src, 0);
    var parser := new Parser(tokens.value);
    r := parser.Parse();
    if r.Some? {
      assert parser.Rest() != [];
      ReadIsSaid(src);
    }
  }
}
