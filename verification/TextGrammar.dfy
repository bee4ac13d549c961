/** Which texts the lexer reads as which tokens, and which the front end reads as which statements, told
    without the lexer and the parser. */
module TextGrammar {
  import opened Characters
  import opened Lexers
  import opened Lexing
  import opened Options
  import opened Spelling
  import opened Tokens

  /** A space, a tab, a line break, a vertical tab, a form feed or a carriage return. */
  predicate Blank(c: char) {
    c as int in {9, 10, 11, 12, 13, 32}
  }

  predicate StartsComment(src: string) {
    |src| > 1 && src[0] == '-' && src[1] == '-'
  }

  /** The text is these tokens, each the longest that is spelled where it starts, with blanks and comments
      between. */
  ghost predicate TextForm(src: string, ls: seq<Lexeme>)
    decreases |src|
  {
    if src == "" then ls == []
    else if Blank(src[0]) then TextForm(src[1..], ls)
    else if StartsComment(src) then exists e :: CommentTo(src, e) && TextForm(src[e..], ls)
    else ls != [] && exists n :: TokenTo(src, ls[0], n) && TextForm(src[n..], ls[1..])
  }

  /** A comment goes to the end of its line or of the text. */
  predicate CommentTo(src: string, e: int) {
    0 < e <= |src| && '\n' !in src[..e] && (e < |src| ==> src[e] == '\n')
  }

  ghost predicate TokenTo(src: string, l: Lexeme, n: int) {
    0 < n <= |src| && IsLongest(src, Scanned(l.kind, l.value, n))
  }

  // ----- the lexer -----

  /** The lexer's tokens are these, and the end-of-file token. */
  ghost predicate Read(r: Option<seq<Token>>, ls: seq<Lexeme>) {
    r.Some? && LexemesOf(r.value) == ls + [Lexeme(END_OF_FILE, "")]
  }

  lemma BlankSkipped(src: string, pos: nat)
    requires pos < |src| && Blank(src[pos])
    ensures TokensFrom(src, pos) == TokensFrom(src, pos + 1)
  {
    hide Scan, IsComment, LineOf, ColOf, TokensFrom;
    TokensUnfold(src, pos);
    TokensUnfold(src, pos + 1);
    assert src[pos..][1..] == src[pos + 1..];
  }

  lemma NotBlank(src: string, pos: nat)
    requires pos < |src| && !Blank(src[pos])
    ensures Run(IsSpace, src[pos..]) == 0
  {
  }

  lemma CommentEnd(s: string)
    requires StartsComment(s)
    ensures forall e :: CommentTo(s, e) <==> e == Run(IsNotBreak, s)
    ensures Run(IsNotBreak, s) > 0
  {
    var n := Run(IsNotBreak, s);
    assert forall c :: c in s[..n] ==> c != '\n';
    forall e | CommentTo(s, e) ensures e == n {
      CommentPlace(s, e, n);
    }
  }

  lemma CommentPlace(s: string, i: nat, e: nat)
    requires CommentTo(s, i) && e == Run(IsNotBreak, s)
    ensures i == e
  {
    assert forall j :: 0 <= j < i ==> s[..i][j] == s[j];
  }

  lemma LongestEnd(s: string, l: Lexeme)
    requires s != ""
    ensures forall n :: TokenTo(s, l, n) <==> Scan(s).Some? && n == Scan(s).value.length && Scan(s) == Some(Scanned(l.kind, l.value, n))
  {
    hide Scan, IsLongest;
    forall n: nat ensures IsLongest(s, Scanned(l.kind, l.value, n)) <==> Scan(s) == Some(Scanned(l.kind, l.value, n)) {
      LongestMatch(s, Scanned(l.kind, l.value, n));
    }
  }

  lemma ReadOne(t: Token, r: Option<seq<Token>>, ls: seq<Lexeme>)
    requires r.Some? ==> r.value != []
    ensures Read(Prepended([t], r), ls) <==> ls != [] && ls[0] == Lexeme(t.kind, t.value) && Read(r, ls[1..])
  {
    if r.Some? {
      var all := LexemesOf([t] + r.value);
      assert all == [Lexeme(t.kind, t.value)] + LexemesOf(r.value);
      assert all[1..] == LexemesOf(r.value);
      if ls != [] {
        assert ls + [Lexeme(END_OF_FILE, "")] == [ls[0]] + (ls[1..] + [Lexeme(END_OF_FILE, "")]);
      }
    }
  }

  lemma {:induction false} SomeTokens(src: string, pos: nat)
    requires pos <= |src|
    ensures TokensFrom(src, pos).Some? ==>
      var ts := TokensFrom(src, pos).value;
      ts != [] && ts[|ts| - 1].kind == END_OF_FILE && ts[|ts| - 1].value == ""
    decreases |src| - pos
  {
    hide Scan, Run, IsComment, LineOf, ColOf, TokensFrom;
    TokensUnfold(src, pos);
    var p := pos + Run(IsSpace, src[pos..]);
    if p < |src| && IsComment(src[p..]) {
      CommentLength(src[p..]);
      SomeTokens(src, p + Run(IsNotBreak, src[p..]));
    } else if p < |src| && Scan(src[p..]).Some? {
      SomeTokens(src, p + Scan(src[p..]).value.length);
    }
  }

  lemma AtEnd(src: string, ls: seq<Lexeme>)
    ensures Read(TokensFrom(src, |src|), ls) <==> TextForm(src[|src|..], ls)
  {
    hide Scan, IsComment, LineOf, ColOf, TokensFrom;
    TokensUnfold(src, |src|);
    var ends := [Lexeme(END_OF_FILE, "")];
    assert LexemesOf([TokenAt(src, |src|, END_OF_FILE, "")]) == ends;
    assert ls != [] ==> |ls + ends| > 1;
    assert [] + ends == ends;
  }

  /** The lexer reads a text, from any place, as these tokens iff the text is spelled so. */
  lemma {:induction false} LexesIff(src: string, pos: nat, ls: seq<Lexeme>)
    requires pos <= |src|
    ensures Read(TokensFrom(src, pos), ls) <==> TextForm(src[pos..], ls)
    decreases |src| - pos
  {
    hide Read, TokensFrom, CommentTo, TokenTo, Scan, Run, LineOf, ColOf;
    if pos == |src| {
      AtEnd(src, ls);
    } else {
      var s := src[pos..];
      assert s[0] == src[pos];
      if Blank(s[0]) {
        BlankSkipped(src, pos);
        LexesIff(src, pos + 1, ls);
        assert s[1..] == src[pos + 1..];
      } else {
        NotBlank(src, pos);
        TokensUnfold(src, pos);
        if StartsComment(s) {
          CommentEnd(s);
          var e := Run(IsNotBreak, s);
          LexesIff(src, pos + e, ls);
          assert s[e..] == src[pos + e..];
        } else {
          TokenIff(src, pos, ls);
        }
      }
    }
  }

  lemma TokenIff(src: string, pos: nat, ls: seq<Lexeme>)
    requires pos < |src| && !Blank(src[pos]) && !StartsComment(src[pos..])
    ensures Read(TokensFrom(src, pos), ls) <==> TextForm(src[pos..], ls)
    decreases |src| - pos, 0
  {
    hide Read, TokensFrom, CommentTo, TokenTo, Scan, Run, LineOf, ColOf;
    var s := src[pos..];
    NotBlank(src, pos);
    TokensUnfold(src, pos);
    if ls != [] {
      LongestEnd(s, ls[0]);
    }
    ReadNothing(ls);
    if Scan(s).Some? {
      var n := Scan(s).value.length;
      SomeTokens(src, pos + n);
      ReadOne(TokenAt(src, pos, Scan(s).value.kind, Scan(s).value.value), TokensFrom(src, pos + n), ls);
      if ls != [] {
        LexesIff(src, pos + n, ls[1..]);
        assert s[n..] == src[pos + n..];
      }
    }
  }

  lemma ReadNothing(ls: seq<Lexeme>)
    ensures !Read(None, ls)
  {
  }
}
