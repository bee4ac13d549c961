/** How each token may be spelled, as a relation; the lexer takes the longest spelling that starts where
    it stands. */
module Spelling {
  import Decimal
  import opened Lexing
  import opened Options
  import opened Tokens

  // ----- spellings -----

  /** The word or symbol of a kind that has only one; nothing for names, numbers, strings and the end. */
  function Fixed(k: TokenType): string {
    match k
    case SELECT => "SELECT"
    case INSERT => "INSERT"
    case UPDATE => "UPDATE"
    case DELETE => "DELETE"
    case CREATE => "CREATE"
    case DROP => "DROP"
    case TABLE => "TABLE"
    case FROM => "FROM"
    case WHERE => "WHERE"
    case INTO => "INTO"
    case VALUES => "VALUES"
    case SET => "SET"
    case AND => "AND"
    case OR => "OR"
    case NOT => "NOT"
    case ORDER => "ORDER"
    case BY => "BY"
    case ASC => "ASC"
    case DESC => "DESC"
    case LIMIT => "LIMIT"
    case JOIN => "JOIN"
    case ON => "ON"
    case INNER => "INNER"
    case LEFT => "LEFT"
    case BOOL_TRUE => "TRUE"
    case BOOL_FALSE => "FALSE"
    case EQ => "="
    case NEQ => "!="
    case LT => "<"
    case GT => ">"
    case LTE => "<="
    case GTE => ">="
    case PLUS => "+"
    case MINUS => "-"
    case SLASH => "/"
    case STAR => "*"
    case COMMA => ","
    case SEMICOLON => ";"
    case LPAREN => "("
    case RPAREN => ")"
    case DOT => "."
    case _ => ""
  }

  /** A letter is the capital or its small form; a symbol is itself. */
  predicate SameLetter(c: char, capital: char) {
    c == capital || ('A' <= capital <= 'Z' && c as int == capital as int + 32)
  }

  ghost predicate AnyCase(text: string, word: string) {
    word != "" && |text| == |word| && forall i :: 0 <= i < |text| ==> SameLetter(text[i], word[i])
  }

  /** Letters, digits and underscores, no digit first. */
  ghost predicate WordForm(text: string) {
    && text != "" && !('0' <= text[0] <= '9')
    && forall c :: c in text ==> 'a' <= c <= 'z' || 'A' <= c <= 'Z' || '0' <= c <= '9' || c == '_'
  }

  ghost predicate DigitsForm(text: string) {
    text != "" && forall c :: c in text ==> '0' <= c <= '9'
  }

  /** Digits, or digits on both sides of a point. */
  ghost predicate NumberForm(text: string) {
    DigitsForm(text) || exists i :: PointAt(text, i)
  }

  ghost predicate PointAt(text: string, i: int) {
    0 <= i < |text| && text[i] == '.' && DigitsForm(text[..i]) && DigitsForm(text[i + 1..])
  }

  /** What stands between the quotes for the value v: a backslash and n for a line break, a backslash and
      t for a tab, a backslash and any other character for that one, and every character but the quote
      and the backslash for itself. */
  ghost predicate BodyForm(text: string, v: string) {
    if text == "" then v == ""
    else if text[0] == '\\' then
      && |text| >= 2 && v != "" && BodyForm(text[2..], v[1..])
      && (if text[1] == 'n' then v[0] == '\n' else if text[1] == 't' then v[0] == '\t' else v[0] == text[1])
    else text[0] != '\'' && v != "" && v[0] == text[0] && BodyForm(text[1..], v[1..])
  }

  ghost predicate StringForm(text: string, v: string) {
    |text| >= 2 && text[0] == '\'' && text[|text| - 1] == '\'' && BodyForm(text[1..|text| - 1], v)
  }

  /** The text is a way to write a token of this kind and value. */
  ghost predicate TokenForm(text: string, k: TokenType, v: string) {
    match k
    case END_OF_FILE => false
    case STRING => StringForm(text, v)
    case NUMBER => NumberForm(text) && v == text
    case IDENTIFIER => WordForm(text) && (forall w: TokenType :: !AnyCase(text, Fixed(w))) && v == text
    case _ => AnyCase(text, Fixed(k)) && v == text
  }

  // ----- strings -----

  lemma {:induction false} BodyReads(text: string, v: string, more: string)
    requires BodyForm(text, v)
    ensures StringBody(text + ("'" + more)) == Some(Body(v, |text| + 1))
  {
    hide StringBody;
    var s := text + ("'" + more);
    if text == "" {
      assert s == "'" + more;
      BodyEnds(more);
    } else {
      var n := if text[0] == '\\' then 2 else 1;
      BodyReads(text[n..], v[1..], more);
      assert s[n..] == text[n..] + ("'" + more);
      assert v == [v[0]] + v[1..];
      BodyUnit(s, n);
    }
  }

  /** One character, or two after a backslash, in front of what is read. */
  lemma BodyUnit(s: string, n: nat)
    requires |s| >= 2 && n == (if s[0] == '\\' then 2 else 1) && s[0] != '\'' && StringBody(s[n..]).Some?
    ensures var b := StringBody(s[n..]).value;
            StringBody(s) == Some(Body([if n == 2 then Unescape(s[1]) else s[0]] + b.value, b.length + n))
  {
  }

  lemma {:induction false} BodyWritten(s: string)
    ensures StringBody(s).Some? ==>
      var b := StringBody(s).value; s[b.length - 1] == '\'' && BodyForm(s[..b.length - 1], b.value)
    decreases |s|
  {
    if s != "" && s[0] != '\'' && (s[0] != '\\' || |s| > 1) {
      var n := if s[0] == '\\' then 2 else 1;
      BodyWritten(s[n..]);
      if StringBody(s[n..]).Some? {
        var m := StringBody(s[n..]).value.length;
        assert s[..n + m - 1][n..] == s[n..][..m - 1];
      }
    }
  }

  // ----- numbers -----

  lemma NumberReads(s: string, m: nat)
    requires m <= |s| && NumberForm(s[..m])
    ensures s != "" && Decimal.IsDigit(s[0]) && m <= NumberRun(s)
  {
    hide Run;
    if DigitsForm(s[..m]) {
      DigitsRun(s, m);
    } else {
      var i :| PointAt(s[..m], i);
      assert s[..m][..i] == s[..i] && s[..m][i + 1..] == s[i + 1..m] && s[i + 1..m] == s[i + 1..][..m - i - 1];
      DigitsRun(s, i);
      DigitsRun(s[i + 1..], m - i - 1);
      assert s[i] == s[..m][i];
      assert !Decimal.IsDigit(s[i]);
    }
  }

  lemma DigitsRun(s: string, m: nat)
    requires m <= |s| && DigitsForm(s[..m])
    ensures s != "" && Decimal.IsDigit(s[0]) && m <= Run(Decimal.IsDigit, s)
  {
    assert forall i :: 0 <= i < m ==> s[..m][i] == s[i] && s[..m][i] in s[..m];
  }

  lemma DigitsWritten(s: string)
    requires s != "" && Decimal.IsDigit(s[0])
    ensures Run(Decimal.IsDigit, s) > 0 && DigitsForm(s[..Run(Decimal.IsDigit, s)])
  {
  }

  lemma NumberWritten(s: string)
    requires s != "" && Decimal.IsDigit(s[0])
    ensures NumberForm(s[..NumberRun(s)]) && NumberRun(s) > 0
  {
    hide Run;
    var n := Run(Decimal.IsDigit, s);
    DigitsWritten(s);
    if n + 1 < |s| && s[n] == '.' && Decimal.IsDigit(s[n + 1]) {
      var tail := s[n + 1..];
      var m := Run(Decimal.IsDigit, tail);
      DigitsWritten(tail);
      var v := s[..n + 1 + m];
      assert v[..n] == s[..n] && v[n + 1..] == tail[..m];
      assert PointAt(v, n);
    }
  }

  // ----- words -----

  lemma {:induction false} UpperAt(s: string, i: nat)
    requires i < |s|
    ensures Upper(s)[i] == UpperChar(s[i])
  {
    if i > 0 {
      UpperAt(s[1..], i - 1);
    }
  }

  /** The keyword table and the spellings agree: one way, and the other. */
  lemma KeywordFixed(upper: string)
    ensures upper in KEYWORDS ==> Fixed(KEYWORDS[upper]) == upper
  {
  }

  lemma FixedKeyword(k: TokenType)
    requires IsKeyword(k)
    ensures ClassifyWord(Fixed(k)) == k
  {
    hide Fixed, ClassifyWord;
    Statements(k);
    Clauses(k);
    Operators(k);
    Joining(k);
  }

  lemma Statements(k: TokenType)
    ensures k in {SELECT, INSERT, UPDATE, DELETE, CREATE} ==> ClassifyWord(Fixed(k)) == k
  {
  }

  lemma Clauses(k: TokenType)
    ensures k in {FROM, WHERE, INTO, VALUES, SET, ORDER, BY} ==> ClassifyWord(Fixed(k)) == k
  {
  }

  lemma Operators(k: TokenType)
    ensures k in {AND, OR, NOT, BOOL_TRUE, BOOL_FALSE, ASC, DESC} ==> ClassifyWord(Fixed(k)) == k
  {
  }

  lemma Joining(k: TokenType)
    ensures k in {DROP, TABLE, LIMIT, JOIN, ON, INNER, LEFT} ==> ClassifyWord(Fixed(k)) == k
  {
  }

  predicate IsKeyword(k: TokenType) {
    k in {SELECT, INSERT, UPDATE, DELETE, CREATE, DROP, TABLE, FROM, WHERE, INTO, VALUES, SET, AND, OR, NOT, ORDER, BY,
          ASC, DESC, LIMIT, JOIN, ON, INNER, LEFT, BOOL_TRUE, BOOL_FALSE}
  }

  predicate IsCapitals(word: string) {
    word != "" && forall c :: c in word ==> 'A' <= c <= 'Z'
  }

  lemma FixedCapitals(k: TokenType)
    requires IsKeyword(k)
    ensures IsCapitals(Fixed(k))
  {
    hide IsCapitals, Fixed;
    FixedKeyword(k);
    KeywordCapitals(Fixed(k));
  }

  lemma KeywordCapitals(word: string)
    requires word in KEYWORDS
    ensures IsCapitals(word)
  {
  }

  lemma UpperIs(text: string, word: string)
    requires IsCapitals(word)
    ensures Upper(text) == word <==> AnyCase(text, word)
  {
    hide Upper;
    if |text| == |word| {
      forall i | 0 <= i < |text|
        ensures Upper(text)[i] == word[i] <==> SameLetter(text[i], word[i])
      {
        UpperAt(text, i);
        assert word[i] in word;
      }
    }
  }

  lemma AnyCaseWord(text: string, word: string)
    requires IsCapitals(word) && AnyCase(text, word)
    ensures WordForm(text)
  {
    forall c | c in text
      ensures 'a' <= c <= 'z' || 'A' <= c <= 'Z'
    {
      var i :| 0 <= i < |text| && text[i] == c;
      assert word[i] in word;
    }
    assert text[0] in text;
  }

  /** A symbol's spelling is no word, nor is nothing. */
  lemma NoWord(k: TokenType, text: string)
    requires !IsKeyword(k) && WordForm(text)
    ensures !AnyCase(text, Fixed(k))
  {
    assert text[0] in text;
  }

  /** The word table gives a word the one kind that it spells. */
  lemma WordKind(text: string, k: TokenType)
    requires WordForm(text)
    ensures ClassifyWord(Upper(text)) == k <==> (IsKeyword(k) || k == IDENTIFIER) && TokenForm(text, k, text)
  {
    hide Upper, Fixed, AnyCase, WordForm, TokenForm, IsKeyword, IsCapitals;
    var kind := ClassifyWord(Upper(text));
    WordForms(text, k);
    WordForms(text, kind);
    KeywordFixed(Upper(text));
    if Upper(text) in KEYWORDS {
      TableKeyword(Upper(text));
      FixedCapitals(kind);
      UpperIs(text, Fixed(kind));
    }
    forall w: TokenType | AnyCase(text, Fixed(w)) ensures w == kind && kind != IDENTIFIER {
      if IsKeyword(w) {
        FixedCapitals(w);
        UpperIs(text, Fixed(w));
        FixedKeyword(w);
      } else {
        NoWord(w, text);
      }
    }
  }

  lemma WordForms(text: string, k: TokenType)
    requires WordForm(text)
    ensures IsKeyword(k) ==> (TokenForm(text, k, text) <==> AnyCase(text, Fixed(k))) && k != IDENTIFIER
    ensures k == IDENTIFIER ==> (TokenForm(text, k, text) <==> (forall w: TokenType :: !AnyCase(text, Fixed(w))))
  {
    hide AnyCase, Fixed;
  }

  lemma TableKeyword(upper: string)
    requires upper in KEYWORDS
    ensures IsKeyword(KEYWORDS[upper])
  {
  }

  // ----- one token -----

  /** The lexer sees at least this much, and if just this much then as this. */
  ghost predicate Seen(s: string, n: nat, k: TokenType, v: string) {
    s != "" && Scan(s).Some? && n <= Scan(s).value.length
    && (n == Scan(s).value.length ==> Scan(s).value == Scanned(k, v, n))
  }

  lemma StringSeen(s: string, n: nat, v: string)
    requires n <= |s| && StringForm(s[..n], v)
    ensures Seen(s, n, STRING, v)
  {
    hide StringBody;
    var text := s[..n];
    var body := text[1..n - 1];
    BodyReads(body, v, s[n..]);
    assert s[n - 1] == '\'' && s[0] == '\'';
    assert s[1..] == body + ("'" + s[n..]);
  }

  lemma NumberSeen(s: string, n: nat)
    requires n <= |s| && NumberForm(s[..n])
    ensures Seen(s, n, NUMBER, s[..n])
  {
    hide NumberRun, NumberForm, Run, StringBody;
    NumberReads(s, n);
  }

  lemma WordSeen(s: string, n: nat, k: TokenType)
    requires n <= |s| && WordForm(s[..n]) && (IsKeyword(k) || k == IDENTIFIER) && TokenForm(s[..n], k, s[..n])
    ensures Seen(s, n, k, s[..n])
  {
    hide Upper, ClassifyWord, TokenForm, IsKeyword, NumberRun, StringBody;
    WordKind(s[..n], k);
    WordRun(s, n);
  }

  lemma WordRun(s: string, n: nat)
    requires n <= |s| && WordForm(s[..n])
    ensures s != "" && (IsAlpha(s[0]) || s[0] == '_') && n <= Run(IsWordChar, s)
  {
    assert forall i :: 0 <= i < n ==> s[..n][i] == s[i] && s[..n][i] in s[..n];
  }

  lemma SymbolSeen(s: string, n: nat, k: TokenType)
    requires n <= |s| && !IsKeyword(k) && AnyCase(s[..n], Fixed(k))
    ensures Seen(s, n, k, s[..n])
  {
    hide Upper, ClassifyWord, NumberRun, StringBody, Run;
    assert forall i :: 0 <= i < n ==> s[..n][i] == s[i];
    assert s[..n] == Fixed(k);
  }

  /** Whatever token is spelled at the front of the text, the lexer reads it or a longer one. */
  lemma FrontSeen(s: string, n: nat, k: TokenType, v: string)
    requires n <= |s| && TokenForm(s[..n], k, v)
    ensures Seen(s, n, k, v)
  {
    hide Seen, StringForm, NumberForm, WordForm, AnyCase, Fixed;
    if k == STRING {
      StringSeen(s, n, v);
    } else if k == NUMBER {
      NumberSeen(s, n);
    } else if k == IDENTIFIER {
      WordSeen(s, n, k);
    } else if IsKeyword(k) {
      FixedCapitals(k);
      AnyCaseWord(s[..n], Fixed(k));
      WordSeen(s, n, k);
    } else {
      SymbolSeen(s, n, k);
    }
  }

  /** What the lexer reads is spelled there. */
  lemma ScanWritten(s: string)
    requires s != ""
    ensures Scan(s).Some? ==> TokenForm(s[..Scan(s).value.length], Scan(s).value.kind, Scan(s).value.value)
  {
    hide StringBody, NumberRun, Run, Upper, ClassifyWord, NumberForm, WordForm;
    if s[0] == '\'' {
      StringWritten(s);
    } else if Decimal.IsDigit(s[0]) {
      NumberWritten(s);
    } else if IsAlpha(s[0]) || s[0] == '_' {
      WordWritten(s);
    } else {
      SymbolWritten(s);
    }
  }

  lemma StringWritten(s: string)
    requires s != "" && s[0] == '\''
    ensures Scan(s).Some? ==> TokenForm(s[..Scan(s).value.length], STRING, Scan(s).value.value)
  {
    hide StringBody, BodyForm;
    BodyWritten(s[1..]);
    if StringBody(s[1..]).Some? {
      var m := StringBody(s[1..]).value.length;
      assert s[..m + 1][1..m] == s[1..][..m - 1];
    }
  }

  lemma WordWritten(s: string)
    requires s != "" && (IsAlpha(s[0]) || s[0] == '_')
    ensures var n := Run(IsWordChar, s); n > 0 && TokenForm(s[..n], ClassifyWord(Upper(s[..n])), s[..n])
  {
    hide Upper, ClassifyWord, TokenForm;
    var n := Run(IsWordChar, s);
    assert s[..n][0] == s[0];
    WordKind(s[..n], ClassifyWord(Upper(s[..n])));
  }

  lemma SymbolWritten(s: string)
    requires s != "" && s[0] != '\'' && !Decimal.IsDigit(s[0]) && !IsAlpha(s[0]) && s[0] != '_'
    ensures Scan(s).Some? ==> TokenForm(s[..Scan(s).value.length], Scan(s).value.kind, Scan(s).value.value)
  {
    hide StringBody, NumberRun, Run, Upper, ClassifyWord, Punctuation, TokenForm;
    if Punctuation(s[0]).Some? {
      PunctuationWritten(s[0]);
      assert s[..1] == [s[0]];
    } else {
      assert |s| > 1 ==> s[..2] == [s[0], s[1]];
      assert s[..1] == [s[0]];
      ComparisonsWritten();
    }
  }

  lemma FixedForm(k: TokenType)
    requires Fixed(k) != ""
    ensures TokenForm(Fixed(k), k, Fixed(k))
  {
    hide AnyCase;
    AnyCaseSame(Fixed(k));
  }

  lemma AnyCaseSame(word: string)
    requires word != ""
    ensures AnyCase(word, word)
  {
  }

  lemma PunctuationWritten(c: char)
    ensures Punctuation(c).Some? ==> TokenForm([c], Punctuation(c).value, [c])
  {
    hide TokenForm;
    if Punctuation(c).Some? {
      FixedForm(Punctuation(c).value);
    }
  }

  lemma ComparisonsWritten()
    ensures TokenForm("<", LT, "<") && TokenForm("<=", LTE, "<=") && TokenForm(">", GT, ">") && TokenForm(">=", GTE, ">=")
    ensures TokenForm("!=", NEQ, "!=")
  {
    hide TokenForm;
    FixedForm(LT);
    FixedForm(LTE);
    FixedForm(GT);
    FixedForm(GTE);
    FixedForm(NEQ);
  }

  // ----- longest match -----

  /** The token is spelled at the front of the text, and no longer text there is a token. */
  ghost predicate IsLongest(s: string, t: Scanned) {
    && t.length <= |s| && TokenForm(s[..t.length], t.kind, t.value)
    && forall n, k, v | t.length < n <= |s| :: !TokenForm(s[..n], k, v)
  }

  /** The lexer reads the longest token that is spelled where it stands. */
  lemma LongestMatch(s: string, t: Scanned)
    requires s != ""
    ensures Scan(s) == Some(t) <==> IsLongest(s, t)
  {
    hide Scan, TokenForm;
    ScanWritten(s);
    forall n, k, v | 0 <= n <= |s| && TokenForm(s[..n], k, v) ensures Seen(s, n, k, v) {
      FrontSeen(s, n, k, v);
    }
  }

  /** And it fails exactly where none is. */
  lemma NoMatch(s: string)
    requires s != ""
    ensures Scan(s) == None <==> forall n, k, v | 0 <= n <= |s| :: !TokenForm(s[..n], k, v)
  {
    hide Scan, TokenForm;
    ScanWritten(s);
    forall n, k, v | 0 <= n <= |s| && TokenForm(s[..n], k, v) ensures Seen(s, n, k, v) {
      FrontSeen(s, n, k, v);
    }
  }

  /** So a text is a token in one way at most. */
  lemma OneReading(text: string, k: TokenType, v: string, l: TokenType, w: string)
    requires TokenForm(text, k, v) && TokenForm(text, l, w)
    ensures k == l && v == w
  {
    hide TokenForm, Scan;
    assert text[..|text|] == text;
    FrontSeen(text, |text|, k, v);
    FrontSeen(text, |text|, l, w);
  }
}
