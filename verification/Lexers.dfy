/** The lexer: a cursor over the source text that also keeps line and column. */
module Lexers {
  import opened Characters
  import Decimal
  import opened Lexing
  import opened Options
  import opened Tokens

  class Lexer {
    const src: string
    var pos: nat
    var line: int
    var col: int

    constructor (src: string)
      ensures Valid() && this.src == src && pos == 0
    {
      this.src := src;
      pos, line, col := 0, 1, 1;
    }

    /** Line and column are those of the text before the cursor. */
    ghost predicate Valid()
      reads this
    {
      pos <= |src| && line == LineOf(src[..pos]) && col == ColOf(src[..pos])
    }

    // ----- navigation -----

    predicate IsAtEnd()
      reads this
    {
      pos >= |src|
    }

    function Peek(): char
      reads this
    {
      if IsAtEnd() then '\0' else src[pos]
    }

    function PeekNext(): char
      reads this
    {
      if pos + 1 >= |src| then '\0' else src[pos + 1]
    }

    /** One past the end, a string's closing null is read; that happens only after a backslash that
        ends the text. */
    method Advance() returns (c: char)
      requires Valid()
      modifies this`pos, this`line, this`col
      ensures pos == old(pos) + 1
      ensures c == if old(pos) < |src| then src[old(pos)] else '\0'
      ensures old(pos) < |src| ==> Valid()
    {
      c := if pos < |src| then src[pos] else '\0';
      if pos < |src| {
        AdvancePlace(src[..pos], c);
        assert src[..pos + 1] == src[..pos] + [c];
      }
      pos := pos + 1;
      if c == '\n' {
        line, col := line + 1, 1;
      } else {
        col := col + 1;
      }
    }

    // ----- skipping -----

    method SkipWhitespace()
      requires Valid()
      modifies this`pos, this`line, this`col
      ensures Valid() && pos == old(pos) + Run(IsSpace, src[old(pos)..])
    {
      hide LineOf, ColOf;
      while !IsAtEnd() && IsSpace(Peek())
        invariant Valid() && old(pos) <= pos
        invariant old(pos) + Run(IsSpace, src[old(pos)..]) == pos + Run(IsSpace, src[pos..])
        decreases |src| - pos
      {
        assert src[pos..][1..] == src[pos + 1..];
        var _ := Advance();
      }
    }

    method SkipLineComment()
      requires Valid()
      modifies this`pos, this`line, this`col
      ensures Valid() && pos == old(pos) + Run(IsNotBreak, src[old(pos)..])
    {
      hide LineOf, ColOf;
      while !IsAtEnd() && Peek() != '\n'
        invariant Valid() && old(pos) <= pos
        invariant old(pos) + Run(IsNotBreak, src[old(pos)..]) == pos + Run(IsNotBreak, src[pos..])
        decreases |src| - pos
      {
        assert src[pos..][1..] == src[pos + 1..];
        var _ := Advance();
      }
    }

    // ----- readers -----

    /** The value between the quotes; none when the text ends inside. */
    method ReadString() returns (r: Option<Token>)
      requires Valid() && pos < |src| && src[pos] == '\''
      modifies this`pos, this`line, this`col
      ensures var body := StringBody(src[old(pos) + 1..]);
              if body.None? then r == None
              else Valid() && pos == old(pos) + 1 + body.value.length
                   && r == Some(TokenAt(src, old(pos), STRING, body.value.value))
    {
      hide LineOf, ColOf, StringBody;
      var startLine, startCol := line, col;
      var _ := Advance();
      ghost var start := pos;
      var value := "";
      ContinuesStart(StringBody(src[start..]));
      while !IsAtEnd() && Peek() != '\''
        invariant (Valid() && start <= pos) || (pos == |src| + 1 && StringBody(src[start..]).None?)
        invariant pos <= |src| ==> Continues(StringBody(src[start..]), value, pos - start, StringBody(src[pos..]))
        decreases |src| + 1 - pos
      {
        BodyStep(src[pos..]);
        if Peek() == '\\' {
          assert |src[pos..]| > 1 ==> src[pos..][2..] == src[pos + 2..];
          var _ := Advance();
          var esc := Advance();
          if pos <= |src| {
            ContinueStep(StringBody(src[start..]), value, pos - 2 - start, StringBody(src[pos..]), Unescape(esc), 2);
          }
          value := value + [Unescape(esc)];
        } else {
          assert src[pos..][1..] == src[pos + 1..];
          var c := Advance();
          ContinueStep(StringBody(src[start..]), value, pos - 1 - start, StringBody(src[pos..]), c, 1);
          value := value + [c];
        }
      }
      if IsAtEnd() {
        BodyNone();
        assert pos == |src| ==> src[pos..] == "";
        return None;
      }
      BodyStep(src[pos..]);
      assert value + "" == value;
      var _ := Advance();
      return Some(Token(STRING, value, startLine, startCol));
    }

    method ReadNumber() returns (t: Token)
      requires Valid() && pos < |src| && Decimal.IsDigit(src[pos])
      modifies this`pos, this`line, this`col
      ensures Valid() && pos == old(pos) + NumberRun(src[old(pos)..])
      ensures t == TokenAt(src, old(pos), NUMBER, src[old(pos)..pos])
    {
      hide LineOf, ColOf, Run;
      var startLine, startCol := line, col;
      ghost var start := pos;
      var value := ReadDigits();
      ghost var n := pos - start;
      assert src[start..][n..] == src[pos..];
      if !IsAtEnd() && Peek() == '.' && Decimal.IsDigit(PeekNext()) {
        var point := Advance();
        assert src[start..][n + 1..] == src[pos..];
        var fraction := ReadDigits();
        value := value + [point] + fraction;
        assert value == src[start..pos];
      }
      t := Token(NUMBER, value, startLine, startCol);
    }

    method ReadDigits() returns (value: string)
      requires Valid()
      modifies this`pos, this`line, this`col
      ensures Valid() && pos == old(pos) + Run(Decimal.IsDigit, src[old(pos)..])
      ensures value == src[old(pos)..pos]
    {
      hide LineOf, ColOf;
      value := "";
      while !IsAtEnd() && Decimal.IsDigit(Peek())
        invariant Valid() && old(pos) <= pos && value == src[old(pos)..pos]
        invariant old(pos) + Run(Decimal.IsDigit, src[old(pos)..]) == pos + Run(Decimal.IsDigit, src[pos..])
        decreases |src| - pos
      {
        assert src[pos..][1..] == src[pos + 1..];
        var c := Advance();
        value := value + [c];
      }
    }

    method ReadIdentifierOrKeyword() returns (t: Token)
      requires Valid()
      modifies this`pos, this`line, this`col
      ensures Valid() && pos == old(pos) + Run(IsWordChar, src[old(pos)..])
      ensures t == TokenAt(src, old(pos), ClassifyWord(Upper(src[old(pos)..pos])), src[old(pos)..pos])
    {
      hide LineOf, ColOf, ClassifyWord, Upper;
      var startLine, startCol := line, col;
      var value := "";
      while !IsAtEnd() && IsWordChar(Peek())
        invariant Valid() && old(pos) <= pos && value == src[old(pos)..pos]
        invariant old(pos) + Run(IsWordChar, src[old(pos)..]) == pos + Run(IsWordChar, src[pos..])
        decreases |src| - pos
      {
        assert src[pos..][1..] == src[pos + 1..];
        var c := Advance();
        value := value + [c];
      }
      t := Token(ClassifyWord(Upper(value)), value, startLine, startCol);
    }

    // ----- the main loop -----

    /** One token that starts here, or an error. */
    method ReadToken() returns (r: Option<Token>)
      requires Valid() && pos < |src|
      modifies this`pos, this`line, this`col
      ensures var t := Scan(src[old(pos)..]);
              if t.None? then r == None
              else Valid() && pos == old(pos) + t.value.length
                   && r == Some(TokenAt(src, old(pos), t.value.kind, t.value.value))
    {
      hide LineOf, ColOf, StringBody, NumberRun, Run, ClassifyWord, Upper;
      var l, c, ch := line, col, Peek();
      assert src[pos..][0] == ch && src[pos..][1..] == src[pos + 1..];
      if Punctuation(ch).Some? {
        var _ := Advance();
        return Some(Token(Punctuation(ch).value, [ch], l, c));
      }
      if ch == '>' || ch == '<' {
        r := ReadComparison();
        return;
      }
      if ch == '!' {
        var _ := Advance();
        if IsAtEnd() || Peek() != '=' {
          return None;
        }
        var _ := Advance();
        return Some(Token(NEQ, "!=", l, c));
      }
      if ch == '\'' {
        r := ReadString();
        return;
      }
      if Decimal.IsDigit(ch) {
        var t := ReadNumber();
        assert src[old(pos)..pos] == src[old(pos)..][..pos - old(pos)];
        return Some(t);
      }
      if IsAlpha(ch) || ch == '_' {
        var t := ReadIdentifierOrKeyword();
        assert src[old(pos)..pos] == src[old(pos)..][..pos - old(pos)];
        return Some(t);
      }
      return None;
    }

    /** '<' or '>', with '=' if it follows. */
    method ReadComparison() returns (r: Option<Token>)
      requires Valid() && pos < |src| && (src[pos] == '>' || src[pos] == '<')
      modifies this`pos, this`line, this`col
      ensures var t := Scan(src[old(pos)..]);
              t.Some? && Valid() && pos == old(pos) + t.value.length
              && r == Some(TokenAt(src, old(pos), t.value.kind, t.value.value))
    {
      hide LineOf, ColOf, StringBody, NumberRun, Run, ClassifyWord, Upper;
      var l, c, ch := line, col, Peek();
      ghost var s := src[pos..];
      var _ := Advance();
      if !IsAtEnd() && Peek() == '=' {
        var _ := Advance();
        assert s[..2] == [ch, '='];
        return Some(Token(if ch == '>' then GTE else LTE, [ch, '='], l, c));
      }
      assert s[..1] == [ch];
      return Some(Token(if ch == '>' then GT else LT, [ch], l, c));
    }

    /** All tokens, the end-of-file token last, each with the line and column it starts at. */
    method Tokenize() returns (r: Option<seq<Token>>)
      requires Valid() && pos == 0
      modifies this`pos, this`line, this`col
      ensures r == TokensFrom(src, 0)
    {
      hide LineOf, ColOf, Scan, Run, TokensFrom, IsComment;
      var tokens: seq<Token> := [];
      PrependsNothing(TokensFrom(src, 0));
      while true
        invariant Valid()
        invariant TokensFrom(src, 0) == Prepended(tokens, TokensFrom(src, pos))
        decreases |src| - pos
      {
        ghost var start := pos;
        SkipWhitespace();
        TokensUnfold(src, start);
        if IsAtEnd() {
          break;
        }
        CommentIs(src, pos);
        if Peek() == '-' && PeekNext() == '-' {
          CommentLength(src[pos..]);
          SkipLineComment();
          continue;
        }
        ghost var from := pos;
        var t := ReadToken();
        if t.None? {
          return None;
        }
        PrependOne(tokens, t.value, TokensFrom(src, pos));
        tokens := tokens + [t.value];
      }
      return Some(tokens + [Token(END_OF_FILE, "", line, col)]);
    }
  }

  lemma AdvancePlace(prefix: string, c: char)
    ensures LineOf(prefix + [c]) == if c == '\n' then LineOf(prefix) + 1 else LineOf(prefix)
    ensures ColOf(prefix + [c]) == if c == '\n' then 1 else ColOf(prefix) + 1
  {
    assert (prefix + [c])[..|prefix|] == prefix;
  }

  /** Lines and columns count from 1, and a line break starts the next line at column 1. */
  lemma PlaceIs(before: string, line: string)
    requires '\n' !in line
    ensures LineOf(line) == 1 && ColOf(line) == |line| + 1
    ensures LineOf(before + "\n" + line) == LineOf(before) + 1 && ColOf(before + "\n" + line) == |line| + 1
  {
    var all := before + "\n" + line;
    LastBreak(line, 0);
    LastBreak(all, |before| + 1);
    assert all[|before| + 1..] == line;
    assert multiset(all) == multiset(before) + multiset{'\n'} + multiset(line);
  }

  lemma LastBreak(prefix: string, i: nat)
    requires i <= |prefix| && '\n' !in prefix[i..] && (i > 0 ==> prefix[i - 1] == '\n')
    ensures LineStart(prefix) == i
  {
    var j := LineStart(prefix);
    assert forall k :: j <= k < |prefix| ==> prefix[k] in prefix[j..];
    assert forall k :: i <= k < |prefix| ==> prefix[k] in prefix[i..];
  }

  // ----- the string loop -----

  /** Having read value over n characters, what comes is the rest of the body. */
  ghost predicate Continues(whole: Option<Body>, value: string, n: int, rest: Option<Body>) {
    match rest
    case None => whole == None
    case Some(b) => n >= 0 && whole == Some(Body(value + b.value, n + b.length))
  }

  lemma BodyStep(s: string)
    requires s != ""
    ensures s[0] == '\'' ==> StringBody(s) == Some(Body("", 1))
    ensures s[0] == '\\' && |s| == 1 ==> StringBody(s) == None
    ensures s[0] == '\\' && |s| > 1 ==>
      StringBody(s) == (var b := StringBody(s[2..]);
                        if b.None? then None else Some(Body([Unescape(s[1])] + b.value.value, b.value.length + 2)))
    ensures s[0] != '\'' && s[0] != '\\' ==>
      StringBody(s) == (var b := StringBody(s[1..]);
                        if b.None? then None else Some(Body([s[0]] + b.value.value, b.value.length + 1)))
  {
  }

  lemma ContinuesStart(whole: Option<Body>)
    ensures Continues(whole, "", 0, whole)
  {
    if whole.Some? {
      assert "" + whole.value.value == whole.value.value;
    }
  }

  lemma BodyNone()
    ensures StringBody("") == None
  {
  }

  lemma ContinueStep(whole: Option<Body>, value: string, n: int, rest: Option<Body>, c: char, k: nat)
    requires n >= 0
    requires Continues(whole, value, n, if rest.None? then None else Some(Body([c] + rest.value.value, rest.value.length + k)))
    ensures Continues(whole, value + [c], n + k, rest)
  {
    if rest.Some? {
      assert value + ([c] + rest.value.value) == (value + [c]) + rest.value.value;
    }
  }

  // ----- the main loop -----

  ghost function Prepended(tokens: seq<Token>, rest: Option<seq<Token>>): Option<seq<Token>> {
    if rest.None? then None else Some(tokens + rest.value)
  }

  lemma PrependsNothing(rest: Option<seq<Token>>)
    ensures Prepended([], rest) == rest
  {
    if rest.Some? {
      assert [] + rest.value == rest.value;
    }
  }

  lemma PrependOne(tokens: seq<Token>, t: Token, rest: Option<seq<Token>>)
    ensures Prepended(tokens, Prepended([t], rest)) == Prepended(tokens + [t], rest)
  {
    if rest.Some? {
      assert tokens + ([t] + rest.value) == (tokens + [t]) + rest.value;
    }
  }

  lemma TokensUnfold(src: string, pos: nat)
    requires pos <= |src|
    ensures var p := pos + Run(IsSpace, src[pos..]);
            if p == |src| then TokensFrom(src, pos) == Some([TokenAt(src, p, END_OF_FILE, "")])
            else if IsComment(src[p..]) then TokensFrom(src, pos) == TokensFrom(src, p + Run(IsNotBreak, src[p..]))
            else if Scan(src[p..]).None? then TokensFrom(src, pos) == None
            else
              var t := Scan(src[p..]).value;
              TokensFrom(src, pos) == Prepended([TokenAt(src, p, t.kind, t.value)], TokensFrom(src, p + t.length))
  {
    hide Scan, Run, IsComment, LineOf, ColOf;
  }

  lemma CommentIs(src: string, pos: nat)
    requires pos < |src|
    ensures IsComment(src[pos..]) <==> src[pos] == '-' && pos + 1 < |src| && src[pos + 1] == '-'
  {
    var s := src[pos..];
    assert s[0] == src[pos];
    assert |s| > 1 ==> s[1] == src[pos + 1];
  }

  lemma CommentLength(s: string)
    requires IsComment(s)
    ensures Run(IsNotBreak, s) > 0
  {
  }

  /** Every token stands where it says: its line and column are those of the text before it, and
      the text there scans as the token. */
  lemma {:induction false} TokensPlaced(src: string, pos: nat)
    requires pos <= |src|
    ensures TokensFrom(src, pos).Some? ==>
      forall t :: t in TokensFrom(src, pos).value ==> exists p :: pos <= p <= |src| && Placed(src, p, t)
    decreases |src| - pos
  {
    hide Scan, Run, IsComment, LineOf, ColOf, TokensFrom;
    TokensUnfold(src, pos);
    var p := pos + Run(IsSpace, src[pos..]);
    if p == |src| {
      assert Placed(src, p, TokenAt(src, p, END_OF_FILE, ""));
    } else if IsComment(src[p..]) {
      CommentLength(src[p..]);
      TokensPlaced(src, p + Run(IsNotBreak, src[p..]));
    } else if Scan(src[p..]).Some? {
      var t := Scan(src[p..]).value;
      TokensPlaced(src, p + t.length);
      assert Placed(src, p, TokenAt(src, p, t.kind, t.value));
    }
  }

  ghost predicate Placed(src: string, p: nat, t: Token)
    requires p <= |src|
  {
    && t.line == LineOf(src[..p]) && t.col == ColOf(src[..p])
    && (if p == |src| then t.kind == END_OF_FILE && t.value == ""
        else exists n :: Scan(src[p..]) == Some(Scanned(t.kind, t.value, n)))
  }

  // ----- comments -----

  /** The kinds and values of the tokens depend only on the text from the cursor on. */
  lemma {:induction false} LexemesLocal(a: string, i: nat, b: string, j: nat)
    requires i <= |a| && j <= |b| && a[i..] == b[j..]
    ensures TokensFrom(a, i).Some? <==> TokensFrom(b, j).Some?
    ensures TokensFrom(a, i).Some? ==> LexemesOf(TokensFrom(a, i).value) == LexemesOf(TokensFrom(b, j).value)
    decreases |a| - i
  {
    hide Scan, Run, IsComment, LineOf, ColOf, TokensFrom;
    TokensUnfold(a, i);
    TokensUnfold(b, j);
    var n := Run(IsSpace, a[i..]);
    SameRest(a, i, b, j, n);
    if i + n < |a| {
      var s := a[i + n..];
      if IsComment(s) {
        var m := Run(IsNotBreak, s);
        CommentLength(s);
        SameRest(a, i, b, j, n + m);
        LexemesLocal(a, i + n + m, b, j + n + m);
      } else if Scan(s).Some? {
        var m := Scan(s).value.length;
        SameRest(a, i, b, j, n + m);
        LexemesLocal(a, i + n + m, b, j + n + m);
      }
    }
  }

  lemma SameRest(a: string, i: nat, b: string, j: nat, n: nat)
    requires i <= |a| && j <= |b| && a[i..] == b[j..] && i + n <= |a|
    ensures |a| - i == |b| - j && a[i + n..] == b[j + n..]
  {
    assert a[i + n..] == a[i..][n..] && b[j + n..] == b[j..][n..];
  }

  /** A comment up to the end of its line changes no token. */
  lemma CommentSkipped(text: string, rest: string)
    requires '\n' !in text
    ensures var src := "--" + text + "\n" + rest;
            && (TokensFrom(src, 0).Some? <==> TokensFrom(rest, 0).Some?)
            && (TokensFrom(src, 0).Some? ==> LexemesOf(TokensFrom(src, 0).value) == LexemesOf(TokensFrom(rest, 0).value))
  {
    hide Scan, LineOf, ColOf, TokensFrom, Run, IsComment;
    var head := "--" + text;
    var src := head + "\n" + rest;
    CommentStart(text, rest);
    TokensUnfold(src, 0);
    BreakSkipped(src, |head|);
    LexemesLocal(src, |head| + 1, rest, 0);
  }

  lemma CommentStart(text: string, rest: string)
    requires '\n' !in text
    ensures var head := "--" + text;
            var src := head + "\n" + rest;
            && src[0..] == src && rest[0..] == rest && IsComment(src)
            && Run(IsSpace, src) == 0 && Run(IsNotBreak, src) == |head|
            && src[|head|] == '\n' && src[|head| + 1..] == rest
  {
    var head := "--" + text;
    var src := head + "\n" + rest;
    assert src == head + ("\n" + rest);
    assert src[0] == '-' && src[1] == '-';
    RunOver(IsNotBreak, head, "\n" + rest);
    assert Run(IsNotBreak, "\n" + rest) == 0;
  }

  lemma BreakSkipped(src: string, p: nat)
    requires p < |src| && src[p] == '\n'
    ensures TokensFrom(src, p) == TokensFrom(src, p + 1)
  {
    hide Scan, LineOf, ColOf, IsComment, TokensFrom, Run;
    BreakIsSpace(src[p..]);
    assert src[p..][1..] == src[p + 1..];
    TokensUnfold(src, p);
    TokensUnfold(src, p + 1);
  }

  lemma BreakIsSpace(s: string)
    requires s != "" && s[0] == '\n'
    ensures Run(IsSpace, s) == 1 + Run(IsSpace, s[1..])
  {
  }
}
