/** How source text splits into tokens, and where each token stands. */
module Lexing {
  import opened Characters
  import Decimal
  import opened Options
  import opened Tokens

  // ----- characters -----

  predicate IsAlpha(c: char) {
    'a' <= c <= 'z' || 'A' <= c <= 'Z'
  }

  predicate IsWordChar(c: char) {
    IsAlpha(c) || Decimal.IsDigit(c) || c == '_'
  }

  predicate IsNotBreak(c: char) {
    c != '\n'
  }

  // ----- places -----

  function LineOf(prefix: string): int {
    1 + multiset(prefix)['\n']
  }

  /** Where the last line of the prefix starts. */
  function LineStart(prefix: string): (i: nat)
    ensures i <= |prefix| && '\n' !in prefix[i..]
    ensures i > 0 ==> prefix[i - 1] == '\n'
  {
    if prefix == "" then 0
    else
      var n := |prefix| - 1;
      if prefix[n] == '\n' then n + 1
      else
        var i := LineStart(prefix[..n]);
        assert prefix[i..] == prefix[..n][i..] + [prefix[n]];
        i
  }

  function ColOf(prefix: string): int {
    |prefix| - LineStart(prefix) + 1
  }

  // ----- one token -----

  datatype Scanned = Scanned(kind: TokenType, value: string, length: nat)

  function Punctuation(c: char): Option<TokenType> {
    if c == ',' then Some(COMMA)
    else if c == ';' then Some(SEMICOLON)
    else if c == '(' then Some(LPAREN)
    else if c == ')' then Some(RPAREN)
    else if c == '.' then Some(DOT)
    else if c == '+' then Some(PLUS)
    else if c == '/' then Some(SLASH)
    else if c == '*' then Some(STAR)
    else if c == '=' then Some(EQ)
    else if c == '-' then Some(MINUS)
    else None
  }

  function Unescape(c: char): char {
    if c == 'n' then '\n' else if c == 't' then '\t' else c
  }

  datatype Body = Body(value: string, length: nat)

  /** After the opening quote: the value and how many characters it takes with the closing quote;
      no result when the text ends first. */
  function StringBody(s: string): (r: Option<Body>)
    ensures r.Some? ==> 0 < r.value.length <= |s|
  {
    if s == "" then None
    else if s[0] == '\'' then Some(Body("", 1))
    else if s[0] == '\\' then
      if |s| == 1 then None
      else
        match StringBody(s[2..])
        case None => None
        case Some(b) => Some(Body([Unescape(s[1])] + b.value, b.length + 2))
    else
      match StringBody(s[1..])
      case None => None
      case Some(b) => Some(Body([s[0]] + b.value, b.length + 1))
  }

  /** Digits, and a point with more digits if a digit follows it. */
  function NumberRun(s: string): (n: nat)
    ensures n <= |s|
  {
    var n := Run(Decimal.IsDigit, s);
    if n + 1 < |s| && s[n] == '.' && Decimal.IsDigit(s[n + 1]) then n + 1 + Run(Decimal.IsDigit, s[n + 1..]) else n
  }

  /** '<' and '>' take a following '='. */
  function WithEquals(s: string, plain: TokenType, equals: TokenType): Scanned
    requires s != ""
  {
    if |s| > 1 && s[1] == '=' then Scanned(equals, s[..2], 2) else Scanned(plain, s[..1], 1)
  }

  function Scan(s: string): (r: Option<Scanned>)
    requires s != ""
    ensures r.Some? ==> 0 < r.value.length <= |s|
  {
    var c := s[0];
    if Punctuation(c).Some? then Some(Scanned(Punctuation(c).value, [c], 1))
    else if c == '>' then Some(WithEquals(s, GT, GTE))
    else if c == '<' then Some(WithEquals(s, LT, LTE))
    else if c == '!' then if |s| > 1 && s[1] == '=' then Some(Scanned(NEQ, "!=", 2)) else None
    else if c == '\'' then
      match StringBody(s[1..])
      case None => None
      case Some(b) => Some(Scanned(STRING, b.value, b.length + 1))
    else if Decimal.IsDigit(c) then Some(Scanned(NUMBER, s[..NumberRun(s)], NumberRun(s)))
    else if IsAlpha(c) || c == '_' then
      var n := Run(IsWordChar, s);
      Some(Scanned(ClassifyWord(Upper(s[..n])), s[..n], n))
    else None
  }

  predicate IsComment(s: string) {
    |s| > 1 && s[0] == '-' && s[1] == '-'
  }

  // ----- the whole text -----

  function TokenAt(src: string, pos: nat, kind: TokenType, value: string): Token
    requires pos <= |src|
  {
    Token(kind, value, LineOf(src[..pos]), ColOf(src[..pos]))
  }

  /** The tokens from a place on, the end-of-file token last; none when a character or a string
      cannot be read. */
  function TokensFrom(src: string, pos: nat): Option<seq<Token>>
    requires pos <= |src|
    decreases |src| - pos
  {
    var p := pos + Run(IsSpace, src[pos..]);
    if p == |src| then Some([TokenAt(src, p, END_OF_FILE, "")])
    else if IsComment(src[p..]) then TokensFrom(src, p + Run(IsNotBreak, src[p..]))
    else
      match Scan(src[p..])
      case None => None
      case Some(t) =>
        match TokensFrom(src, p + t.length)
        case None => None
        case Some(ts) => Some([TokenAt(src, p, t.kind, t.value)] + ts)
  }

  // ----- rendering -----

  function Escape(s: string): string {
    if s == "" then ""
    else (if s[0] == '\'' || s[0] == '\\' then ['\\', s[0]] else [s[0]]) + Escape(s[1..])
  }

  function TextOf(l: Lexeme): string {
    if l.kind == STRING then "'" + (Escape(l.value) + "'") else l.value
  }

  /** One space after every token. */
  function Render(ls: seq<Lexeme>): string {
    if ls == [] then "" else TextOf(ls[0]) + (" " + Render(ls[1..]))
  }

  predicate IsWord(s: string) {
    s != "" && (IsAlpha(s[0]) || s[0] == '_') && forall c :: c in s ==> IsWordChar(c)
  }

  predicate AllDigits(s: string) {
    s != "" && forall c :: c in s ==> Decimal.IsDigit(c)
  }

  ghost predicate IsNumeral(s: string) {
    AllDigits(s) || exists i :: 0 <= i < |s| && s[i] == '.' && AllDigits(s[..i]) && AllDigits(s[i + 1..])
  }

  /** The token's text is one that its kind can have. */
  ghost predicate Lexable(l: Lexeme) {
    match l.kind
    case STRING => true
    case NUMBER => IsNumeral(l.value)
    case GT => l.value == ">"
    case GTE => l.value == ">="
    case LT => l.value == "<"
    case LTE => l.value == "<="
    case NEQ => l.value == "!="
    case END_OF_FILE => false
    case _ =>
      || (|l.value| == 1 && Punctuation(l.value[0]) == Some(l.kind))
      || (IsWord(l.value) && ClassifyWord(Upper(l.value)) == l.kind)
  }

  // ----- lexing gets back what was rendered -----

  lemma BodyOne(c: char, rest: string)
    requires StringBody(rest).Some?
    ensures var text := if c == '\'' || c == '\\' then ['\\', c] else [c];
            var b := StringBody(rest).value;
            StringBody(text + rest) == Some(Body([c] + b.value, |text| + b.length))
  {
    if c == '\'' || c == '\\' {
      assert (['\\', c] + rest)[2..] == rest;
    } else {
      assert ([c] + rest)[1..] == rest;
    }
  }

  lemma {:induction false} BodyReadsBack(v: string, more: string)
    ensures StringBody(Escape(v) + ("'" + more)) == Some(Body(v, |Escape(v)| + 1))
  {
    hide StringBody;
    if v == "" {
      BodyEnds(more);
      assert Escape(v) + ("'" + more) == "'" + more;
    } else {
      BodyReadsBack(v[1..], more);
      BodyOne(v[0], Escape(v[1..]) + ("'" + more));
      assert [v[0]] + v[1..] == v;
      var text := if v[0] == '\'' || v[0] == '\\' then ['\\', v[0]] else [v[0]];
      assert Escape(v) + ("'" + more) == text + (Escape(v[1..]) + ("'" + more));
    }
  }

  lemma BodyEnds(more: string)
    ensures StringBody("'" + more) == Some(Body("", 1))
  {
    assert ("'" + more)[0] == '\'';
  }

  lemma IntegerReadsBack(v: string, more: string)
    requires AllDigits(v)
    ensures NumberRun(v + (" " + more)) == |v|
  {
    var tail := " " + more;
    RunOver(Decimal.IsDigit, v, tail);
    assert (v + tail)[|v|] == ' ';
  }

  lemma FractionReadsBack(a: string, b: string, more: string)
    requires AllDigits(a) && AllDigits(b)
    ensures NumberRun(a + ("." + (b + (" " + more)))) == |a| + 1 + |b|
  {
    var tail := " " + more;
    var s := a + ("." + (b + tail));
    RunOver(Decimal.IsDigit, a, "." + (b + tail));
    RunOver(Decimal.IsDigit, b, tail);
    assert s[|a|] == '.' && s[|a| + 1] == b[0];
    assert s[|a| + 1..] == b + tail;
  }

  lemma SplitAtPoint(v: string, i: nat, more: string)
    requires i < |v| && v[i] == '.'
    ensures v + (" " + more) == v[..i] + ("." + (v[i + 1..] + (" " + more)))
  {
    assert v == v[..i] + ("." + v[i + 1..]);
  }

  lemma NumberReadsBack(v: string, more: string)
    requires IsNumeral(v)
    ensures v != "" && NumberRun(v + (" " + more)) == |v| && Decimal.IsDigit(v[0])
  {
    hide NumberRun;
    if AllDigits(v) {
      IntegerReadsBack(v, more);
    } else {
      var i :| 0 <= i < |v| && v[i] == '.' && AllDigits(v[..i]) && AllDigits(v[i + 1..]);
      FractionReadsBack(v[..i], v[i + 1..], more);
      SplitAtPoint(v, i, more);
      assert Decimal.IsDigit(v[..i][0]);
    }
  }

  lemma WordReadsBack(v: string, more: string)
    requires IsWord(v)
    ensures Run(IsWordChar, v + (" " + more)) == |v|
  {
    RunOver(IsWordChar, v, " " + more);
  }

  lemma ScanString(l: Lexeme, more: string)
    requires l.kind == STRING
    ensures Scan(TextOf(l) + (" " + more)) == Some(Scanned(l.kind, l.value, |TextOf(l)|))
  {
    hide StringBody, Run, NumberRun;
    var s := TextOf(l) + (" " + more);
    BodyReadsBack(l.value, " " + more);
    assert s[1..] == Escape(l.value) + ("'" + (" " + more));
  }

  lemma ScanNumber(l: Lexeme, more: string)
    requires l.kind == NUMBER && Lexable(l)
    ensures Scan(TextOf(l) + (" " + more)) == Some(Scanned(l.kind, l.value, |TextOf(l)|))
  {
    hide StringBody, Run, NumberRun, IsNumeral;
    var s := TextOf(l) + (" " + more);
    NumberReadsBack(l.value, more);
    assert s[..|l.value|] == l.value && s[0] == l.value[0];
  }

  lemma ScanWord(l: Lexeme, more: string)
    requires IsWord(l.value) && ClassifyWord(Upper(l.value)) == l.kind && l.kind != STRING
    ensures Scan(TextOf(l) + (" " + more)) == Some(Scanned(l.kind, l.value, |TextOf(l)|))
  {
    hide StringBody, Run, NumberRun, Upper;
    var s := TextOf(l) + (" " + more);
    WordReadsBack(l.value, more);
    assert s[..|l.value|] == l.value && s[0] == l.value[0];
  }

  lemma ScanSymbol(l: Lexeme, more: string)
    requires l.kind in {GT, GTE, LT, LTE, NEQ} && Lexable(l)
    ensures Scan(TextOf(l) + (" " + more)) == Some(Scanned(l.kind, l.value, |TextOf(l)|))
  {
    hide StringBody, Run, NumberRun, Upper;
    var s := TextOf(l) + (" " + more);
    assert s[..|l.value|] == l.value;
    assert |l.value| == 1 ==> s[1] == ' ';
  }

  lemma KeywordKinds(word: string)
    ensures ClassifyWord(word) !in {STRING, NUMBER, GT, GTE, LT, LTE, NEQ, END_OF_FILE}
  {
  }

  lemma PunctuationKinds(c: char)
    ensures Punctuation(c).Some? ==> Punctuation(c).value !in {STRING, NUMBER, GT, GTE, LT, LTE, NEQ, END_OF_FILE}
  {
  }

  lemma ScanReadsBack(l: Lexeme, more: string)
    requires Lexable(l)
    ensures Scan(TextOf(l) + (" " + more)) == Some(Scanned(l.kind, l.value, |TextOf(l)|))
  {
    hide Scan, Upper, ClassifyWord;
    if l.kind == STRING {
      ScanString(l, more);
    } else if l.kind == NUMBER {
      ScanNumber(l, more);
    } else if l.kind in {GT, GTE, LT, LTE, NEQ} {
      ScanSymbol(l, more);
    } else if IsWord(l.value) && ClassifyWord(Upper(l.value)) == l.kind {
      ScanWord(l, more);
    } else {
      ScanPunctuation(l, more);
    }
  }

  lemma ScanPunctuation(l: Lexeme, more: string)
    requires |l.value| == 1 && Punctuation(l.value[0]) == Some(l.kind)
    ensures Scan(TextOf(l) + (" " + more)) == Some(Scanned(l.kind, l.value, |TextOf(l)|))
  {
    hide StringBody, Run, NumberRun, Upper;
    assert (TextOf(l) + (" " + more))[0] == l.value[0];
    assert l.value == [l.value[0]];
  }

  /** A rendered token starts with neither a space nor a comment. */
  lemma TextStarts(l: Lexeme, more: string)
    requires Lexable(l)
    ensures var s := TextOf(l) + (" " + more); TextOf(l) != "" && !IsSpace(s[0]) && !IsComment(s)
  {
    hide Lexable, Upper, ClassifyWord, IsNumeral, Escape, IsComment, IsSpace, IsWord;
    TextFirst(l);
    CommentStarts(TextOf(l), more);
  }

  lemma TextFirst(l: Lexeme)
    requires Lexable(l)
    ensures TextOf(l) != "" && !IsSpaceCode(TextOf(l)[0]) && (TextOf(l)[0] == '-' ==> |TextOf(l)| == 1)
  {
    hide Upper, ClassifyWord, IsNumeral, Escape, Run, NumberRun;
    if l.kind == NUMBER {
      NumberReadsBack(l.value, "");
    } else if l.kind != STRING && IsWord(l.value) {
      assert IsAlpha(l.value[0]) || l.value[0] == '_';
    }
  }

  /** "-" alone is followed by a space, and no other token starts with it. */
  lemma CommentStarts(text: string, more: string)
    requires text != "" && (text[0] == '-' ==> |text| == 1) && !IsSpaceCode(text[0])
    ensures !IsSpace((text + (" " + more))[0]) && !IsComment(text + (" " + more))
  {
  }

  predicate IsSpaceCode(c: char) {
    c as int < 33
  }

  /** Lexing a rendering, after any spaces, gives back the same kinds and values. */
  lemma {:induction false} RenderLexes(src: string, pos: nat, spaces: nat, ls: seq<Lexeme>)
    requires pos + spaces <= |src| && src[pos + spaces..] == Render(ls)
    requires forall i :: pos <= i < pos + spaces ==> IsSpace(src[i])
    requires forall l :: l in ls ==> Lexable(l)
    ensures TokensFrom(src, pos).Some?
    ensures LexemesOf(TokensFrom(src, pos).value) == ls + [Lexeme(END_OF_FILE, "")]
    decreases |ls|
  {
    hide Scan, Lexable, LineOf, ColOf, IsSpace, IsComment, Render, TokensFrom, Run, TextOf;
    var p := pos + spaces;
    assert src[pos..] == src[pos..p] + src[p..];
    RunOver(IsSpace, src[pos..p], src[p..]);
    if ls == [] {
      RenderNone();
      NoTokens(src, pos);
    } else {
      var l, more := ls[0], Render(ls[1..]);
      RenderOne(ls);
      TextStarts(l, more);
      ScanReadsBack(l, more);
      var next := p + |TextOf(l)|;
      AfterToken(src, p, TextOf(l), more);
      SpaceIsSpace();
      RenderLexes(src, next, 1, ls[1..]);
      RunNone(src[p..]);
      OneToken(src, pos, p, Scanned(l.kind, l.value, |TextOf(l)|));
      assert ls == [l] + ls[1..];
    }
  }

  lemma RenderNone()
    ensures Render([]) == "" && Run(IsSpace, "") == 0
  {
  }

  lemma RenderOne(ls: seq<Lexeme>)
    requires ls != []
    ensures Render(ls) == TextOf(ls[0]) + (" " + Render(ls[1..]))
  {
  }

  lemma RunNone(s: string)
    requires s != "" && !IsSpace(s[0])
    ensures Run(IsSpace, s) == 0
  {
    hide IsSpace;
  }

  lemma NoTokens(src: string, pos: nat)
    requires pos <= |src| && pos + Run(IsSpace, src[pos..]) == |src|
    ensures TokensFrom(src, pos) == Some([TokenAt(src, |src|, END_OF_FILE, "")])
  {
    hide Scan, Run, IsComment, LineOf, ColOf;
  }

  lemma OneToken(src: string, pos: nat, p: nat, t: Scanned)
    requires pos <= p < |src| && pos + Run(IsSpace, src[pos..]) == p && !IsComment(src[p..]) && Scan(src[p..]) == Some(t)
    requires TokensFrom(src, p + t.length).Some?
    ensures TokensFrom(src, pos) == Some([TokenAt(src, p, t.kind, t.value)] + TokensFrom(src, p + t.length).value)
  {
    hide Scan, Run, IsComment, LineOf, ColOf;
  }

  lemma AfterToken(src: string, p: nat, text: string, more: string)
    requires p <= |src| && src[p..] == text + (" " + more)
    ensures p + |text| < |src| && src[p + |text|] == ' ' && src[p + |text| + 1..] == more
  {
    assert src[p..][|text|] == ' ';
    assert src[p..][|text| + 1..] == more;
    assert src[p..][|text| + 1..] == src[p + |text| + 1..];
  }

  lemma SpaceIsSpace()
    ensures IsSpace(' ')
  {
  }
}
