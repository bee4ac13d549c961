/** The grammar of expressions, as a relation between token strings and trees; the parser accepts
    exactly what it derives. */
module Grammar {
  import opened Ast
  import opened Parsing
  import opened Tokens

  // ----- rungs -----

  /** The rungs of the precedence ladder: AND/OR, comparisons, unary operators, primaries. */
  function RungAt(rung: nat, ts: seq<Lexeme>): Parsed<Expr> {
    if rung == 0 then ExpressionAt(ts)
    else if rung == 1 then ComparisonAt(ts)
    else if rung == 2 then UnaryAt(ts)
    else PrimaryAt(ts)
  }

  /** How the parser goes on after an operand of a rung. */
  function Continue(rung: nat, e: Expr, rest: seq<Lexeme>): Parsed<Expr> {
    if rung == 0 then ExpressionTail(e, rest)
    else if rung == 1 then ComparisonTail(e, rest)
    else Ok(e, rest)
  }

  /** The kinds that join two operands of the rung above. */
  predicate Joins(rung: nat, k: TokenType) {
    if rung == 0 then IsLogical(k) else rung == 1 && IsComparison(k)
  }

  /** A literal, a name, two names with a point between, or an expression in parentheses. */
  ghost predicate PrimaryForm(ts: seq<Lexeme>, e: Expr)
    decreases |ts|, 0
  {
    || (|ts| == 1 && ts[0].kind == NUMBER && e == Literal(if '.' in ts[0].value then Float else Integer, ts[0].value))
    || (|ts| == 1 && ts[0].kind == STRING && e == Literal(String, ts[0].value))
    || (|ts| == 1 && (ts[0].kind == BOOL_TRUE || ts[0].kind == BOOL_FALSE) && e == Literal(Bool, ts[0].value))
    || (|ts| == 1 && ts[0].kind == IDENTIFIER && e == ColumnRef("", ts[0].value))
    || (|ts| == 3 && ts[0].kind == IDENTIFIER && ts[1].kind == DOT && ts[2].kind == IDENTIFIER
        && e == ColumnRef(ts[0].value, ts[2].value))
    || (|ts| >= 2 && ts[0].kind == LPAREN && ts[|ts| - 1].kind == RPAREN && ExprForm(0, ts[1..|ts| - 1], e))
  }

  /** The tokens are an expression of the rung, with tree e: of the rung above; or two operands around
      an operator, the left one of the same rung and the right one of the rung above; or a unary
      operator before an operand of the same rung. */
  ghost predicate ExprForm(rung: nat, ts: seq<Lexeme>, e: Expr)
    decreases |ts|, 4 - rung
  {
    if rung >= 3 then rung == 3 && PrimaryForm(ts, e)
    else
      || ExprForm(rung + 1, ts, e)
      || (rung == 2 && e.Unary? && ts != [] && (ts[0].kind == NOT || ts[0].kind == MINUS) && ts[0].value == e.op
          && ExprForm(2, ts[1..], e.operand))
      || (rung < 2 && e.Binary? && exists i :: SplitsAt(rung, ts, e, i))
  }

  ghost predicate SplitsAt(rung: nat, ts: seq<Lexeme>, e: Expr, i: int)
    requires rung < 2 && e.Binary?
    decreases |ts|, 0
  {
    && 0 <= i < |ts| && Joins(rung, ts[i].kind) && ts[i].value == e.op
    && ExprForm(rung, ts[..i], e.left) && ExprForm(rung + 1, ts[i + 1..], e.right)
  }

  /** The tokens that follow do not belong to an operand of this rung. */
  predicate Follows(rung: nat, rest: seq<Lexeme>) {
    Kind(rest) != DOT && (rung == 0 ==> !IsComparison(Kind(rest)))
  }

  /** Nor do they go on with the expression. */
  predicate Stops(rest: seq<Lexeme>) {
    Kind(rest) != DOT && !IsComparison(Kind(rest)) && !IsLogical(Kind(rest))
  }

  // ----- what is derived is read -----

  lemma ExpressionIs(ts: seq<Lexeme>, e: Expr, rest: seq<Lexeme>)
    requires ComparisonAt(ts) == Ok(e, rest)
    ensures ExpressionAt(ts) == ExpressionTail(e, rest)
  {
    hide ComparisonAt, ExpressionTail;
  }

  lemma ComparisonIs(ts: seq<Lexeme>, e: Expr, rest: seq<Lexeme>)
    requires UnaryAt(ts) == Ok(e, rest)
    ensures ComparisonAt(ts) == ComparisonTail(e, rest)
  {
    hide UnaryAt, ComparisonTail;
  }

  lemma UnaryIsPrimary(ts: seq<Lexeme>)
    requires ts != [] && ts[0].kind != NOT && ts[0].kind != MINUS
    ensures UnaryAt(ts) == PrimaryAt(ts)
  {
    hide PrimaryAt;
  }

  lemma UnaryIs(head: Lexeme, ts: seq<Lexeme>, e: Expr, rest: seq<Lexeme>)
    requires (head.kind == NOT || head.kind == MINUS) && UnaryAt(ts) == Ok(e, rest)
    ensures UnaryAt([head] + ts) == Ok(Unary(head.value, e), rest)
  {
    hide PrimaryAt;
    HeadOf(head, ts);
  }

  lemma JoinTail(rung: nat, left: Expr, head: Lexeme, ts: seq<Lexeme>, right: Expr, rest: seq<Lexeme>)
    requires rung < 2 && Joins(rung, head.kind) && RungAt(rung + 1, ts) == Ok(right, rest)
    ensures Continue(rung, left, [head] + ts) == Continue(rung, Binary(head.value, left, right), rest)
  {
    hide ComparisonAt, UnaryAt;
    HeadOf(head, ts);
  }

  lemma HeadOf(a: Lexeme, b: seq<Lexeme>)
    ensures ([a] + b)[0] == a && ([a] + b)[1..] == b
  {
  }

  /** An operand read on the next rung up ends where it should. */
  lemma UpRung(rung: nat, e: Expr, rest: seq<Lexeme>)
    requires rung < 3 && Follows(rung, rest)
    ensures Continue(rung + 1, e, rest) == Ok(e, rest)
  {
    hide UnaryAt;
  }

  /** Reading on a rung starts with the next rung up. */
  lemma DownRung(ts: seq<Lexeme>, rung: nat, e: Expr, rest: seq<Lexeme>)
    requires rung < 3 && RungAt(rung + 1, ts) == Ok(e, rest)
    requires rung == 2 ==> ts != [] && ts[0].kind != NOT && ts[0].kind != MINUS
    ensures RungAt(rung, ts) == Continue(rung, e, rest)
  {
    hide ExpressionAt, ComparisonAt, UnaryAt, PrimaryAt, ExpressionTail, ComparisonTail;
    if rung == 0 {
      ExpressionIs(ts, e, rest);
    } else if rung == 1 {
      ComparisonIs(ts, e, rest);
    } else {
      UnaryIsPrimary(ts);
    }
  }

  /** On every rung, what is derived is read as its tree: exactly those tokens are taken, and the parser
      goes on from there. */
  lemma {:induction false} ExprReads(rung: nat, ts: seq<Lexeme>, e: Expr, rest: seq<Lexeme>)
    requires rung <= 3 && ExprForm(rung, ts, e) && Follows(rung, rest)
    ensures ts != [] && RungAt(rung, ts + rest) == Continue(rung, e, rest)
    ensures rung == 3 ==> ts[0].kind != NOT && ts[0].kind != MINUS
    decreases |ts|, 4 - rung
  {
    hide RungAt, Continue, PrimaryForm;
    if rung == 3 {
      PrimaryReads(ts, e, rest);
    } else if ExprForm(rung + 1, ts, e) {
      ExprReads(rung + 1, ts, e, rest);
      UpRung(rung, e, rest);
      assert (ts + rest)[0] == ts[0];
      DownRung(ts + rest, rung, e, rest);
    } else if rung == 2 {
      UnaryReads(ts, e, rest);
    } else {
      BinaryReads(rung, ts, e, rest);
    }
  }

  lemma UnaryReads(ts: seq<Lexeme>, e: Expr, rest: seq<Lexeme>)
    requires e.Unary? && ts != [] && (ts[0].kind == NOT || ts[0].kind == MINUS) && ts[0].value == e.op
    requires ExprForm(2, ts[1..], e.operand) && Follows(2, rest)
    ensures RungAt(2, ts + rest) == Continue(2, e, rest)
    decreases |ts|, 1
  {
    hide ExpressionAt, ComparisonAt, UnaryAt, PrimaryAt, ExpressionTail, ComparisonTail, ExprForm;
    ExprReads(2, ts[1..], e.operand, rest);
    UnaryIs(ts[0], ts[1..] + rest, e.operand, rest);
    assert ts + rest == [ts[0]] + (ts[1..] + rest);
  }

  lemma BinaryReads(rung: nat, ts: seq<Lexeme>, e: Expr, rest: seq<Lexeme>)
    requires rung < 2 && e.Binary? && (exists i :: SplitsAt(rung, ts, e, i)) && Follows(rung, rest)
    ensures ts != [] && RungAt(rung, ts + rest) == Continue(rung, e, rest)
    decreases |ts|, 1
  {
    hide RungAt, Continue, ExprForm;
    var i :| SplitsAt(rung, ts, e, i);
    var more := ts[i + 1..] + rest;
    ExprReads(rung, ts[..i], e.left, [ts[i]] + more);
    ExprReads(rung + 1, ts[i + 1..], e.right, rest);
    UpRung(rung, e.right, rest);
    JoinTail(rung, e.left, ts[i], more, e.right, rest);
    assert ts + rest == ts[..i] + ([ts[i]] + more);
  }

  lemma PrimaryReads(ts: seq<Lexeme>, e: Expr, rest: seq<Lexeme>)
    requires PrimaryForm(ts, e) && Follows(3, rest)
    ensures ts != [] && RungAt(3, ts + rest) == Continue(3, e, rest)
    ensures ts[0].kind != NOT && ts[0].kind != MINUS
    decreases |ts|, 0
  {
    hide ExpressionAt, ExprForm;
    if |ts| == 1 {
      assert ts == [ts[0]];
      TokenReads(ts[0], e, rest);
    } else if ts[0].kind == IDENTIFIER {
      assert ts + rest == [ts[0]] + ([ts[1]] + ([ts[2]] + rest));
      DottedReads(ts[0], ts[1], ts[2], rest);
    } else {
      var inner := ts[1..|ts| - 1];
      assert ts == [ts[0]] + inner + [ts[|ts| - 1]];
      GroupReads(ts[0], inner, ts[|ts| - 1], e, rest);
    }
  }

  lemma TokenReads(t: Lexeme, e: Expr, rest: seq<Lexeme>)
    requires PrimaryForm([t], e) && Kind(rest) != DOT
    ensures RungAt(3, [t] + rest) == Ok(e, rest) && t.kind != NOT && t.kind != MINUS
  {
    hide ExpressionAt, ExprForm;
    HeadOf(t, rest);
  }

  lemma DottedReads(t: Lexeme, dot: Lexeme, c: Lexeme, rest: seq<Lexeme>)
    requires t.kind == IDENTIFIER && dot.kind == DOT && c.kind == IDENTIFIER
    ensures RungAt(3, [t] + ([dot] + ([c] + rest))) == Ok(ColumnRef(t.value, c.value), rest)
  {
    hide ExpressionAt;
    HeadOf(t, [dot] + ([c] + rest));
    HeadOf(dot, [c] + rest);
    HeadOf(c, rest);
  }

  lemma GroupReads(open: Lexeme, inner: seq<Lexeme>, close: Lexeme, e: Expr, rest: seq<Lexeme>)
    requires open.kind == LPAREN && close.kind == RPAREN && ExprForm(0, inner, e)
    ensures RungAt(3, [open] + inner + [close] + rest) == Continue(3, e, rest)
    decreases |inner|, 9
  {
    hide ExpressionAt, PrimaryAt, UnaryAt, ComparisonAt, ExpressionTail, ComparisonTail, ExprForm;
    var more := [close] + rest;
    ExprReads(0, inner, e, more);
    ExpressionEnds(e, more);
    GroupIs(open, inner + more, e, close, rest);
    Bracketed([open], inner, [close], rest);
  }

  lemma Bracketed(a: seq<Lexeme>, b: seq<Lexeme>, c: seq<Lexeme>, d: seq<Lexeme>)
    ensures a + b + c + d == a + (b + (c + d))
  {
  }

  lemma GroupIs(open: Lexeme, inner: seq<Lexeme>, e: Expr, close: Lexeme, rest: seq<Lexeme>)
    requires open.kind == LPAREN && close.kind == RPAREN && ExpressionAt(inner) == Ok(e, [close] + rest)
    ensures PrimaryAt([open] + inner) == Ok(e, rest)
  {
    hide ExpressionAt;
    HeadOf(open, inner);
    HeadOf(close, rest);
  }

  lemma ExpressionEnds(e: Expr, rest: seq<Lexeme>)
    requires Stops(rest)
    ensures Continue(0, e, rest) == Ok(e, rest)
  {
  }

  // ----- what is read is derived -----

  /** If something is read, then from a front part of the tokens, and the form relates the two. */
  ghost predicate Derived<T>(ts: seq<Lexeme>, r: Parsed<T>, form: (seq<Lexeme>, T) -> bool) {
    r.Ok? ==> |r.rest| <= |ts| && ts[|ts| - |r.rest|..] == r.rest && form(ts[..|ts| - |r.rest|], r.value)
  }

  ghost predicate DerivedOn(rung: nat, ts: seq<Lexeme>, r: Parsed<Expr>) {
    r.Ok? ==> |r.rest| <= |ts| && ts[|ts| - |r.rest|..] == r.rest && ExprForm(rung, ts[..|ts| - |r.rest|], r.value)
  }

  /** What an operator loop adds to the operand in front of it. */
  ghost predicate Extends(rung: nat, front: seq<Lexeme>, ts: seq<Lexeme>, r: Parsed<Expr>) {
    r.Ok? ==>
      && |r.rest| <= |ts| && ts[|ts| - |r.rest|..] == r.rest && !Joins(rung, Kind(r.rest))
      && ExprForm(rung, front + ts[..|ts| - |r.rest|], r.value)
  }

  lemma {:induction false} ExpressionDerived(ts: seq<Lexeme>)
    ensures DerivedOn(0, ts, ExpressionAt(ts))
    ensures ExpressionAt(ts).Ok? ==> !IsLogical(Kind(ExpressionAt(ts).rest)) && !IsComparison(Kind(ExpressionAt(ts).rest))
    decreases |ts|, 5
  {
    hide ComparisonAt, ExpressionTail, ExprForm;
    ComparisonDerived(ts);
    match ComparisonAt(ts)
    case Err =>
    case Ok(left, rest) =>
      var front := ts[..|ts| - |rest|];
      Lifted(0, front, left);
      LogicalDerived(front, left, rest);
      Joined(0, front, ts, rest, ExpressionTail(left, rest));
  }

  lemma Lifted(rung: nat, ts: seq<Lexeme>, e: Expr)
    requires rung < 3 && ExprForm(rung + 1, ts, e)
    ensures ExprForm(rung, ts, e)
  {
    hide PrimaryForm;
  }

  /** The operand in front and what the loop adds to it are one front part of the tokens. */
  lemma Joined(rung: nat, front: seq<Lexeme>, ts: seq<Lexeme>, rest: seq<Lexeme>, r: Parsed<Expr>)
    requires |rest| <= |ts| && ts == front + rest && Extends(rung, front, rest, r)
    ensures DerivedOn(rung, ts, r)
  {
    hide ExprForm;
    if r.Ok? {
      assert ts[..|ts| - |r.rest|] == front + rest[..|rest| - |r.rest|];
    }
  }

  lemma {:induction false} LogicalDerived(front: seq<Lexeme>, left: Expr, ts: seq<Lexeme>)
    requires ExprForm(0, front, left) && !IsComparison(Kind(ts))
    ensures Extends(0, front, ts, ExpressionTail(left, ts))
    ensures var r := ExpressionTail(left, ts); r.Ok? ==> !IsComparison(Kind(r.rest))
    decreases |ts|, 5
  {
    hide ComparisonAt, ExprForm;
    if ts != [] && IsLogical(ts[0].kind) {
      ComparisonDerived(ts[1..]);
      match ComparisonAt(ts[1..])
      case Err =>
      case Ok(right, rest) =>
        var more := ts[1..][..|ts[1..]| - |rest|];
        Combined(0, front, left, ts[0], more, right);
        LogicalDerived(front + [ts[0]] + more, Binary(ts[0].value, left, right), rest);
        Appended(0, front, ts, more, rest, ExpressionTail(Binary(ts[0].value, left, right), rest));
    } else {
      Unextended(0, front, left, ts);
    }
  }

  lemma Unextended(rung: nat, front: seq<Lexeme>, left: Expr, ts: seq<Lexeme>)
    requires ExprForm(rung, front, left) && !Joins(rung, Kind(ts))
    ensures Extends(rung, front, ts, Ok(left, ts))
  {
    hide ExprForm;
    assert front + ts[..0] == front;
  }

  /** Two operands around an operator. */
  lemma Combined(rung: nat, front: seq<Lexeme>, left: Expr, head: Lexeme, more: seq<Lexeme>, right: Expr)
    requires rung < 2 && ExprForm(rung, front, left) && Joins(rung, head.kind) && ExprForm(rung + 1, more, right)
    ensures ExprForm(rung, front + [head] + more, Binary(head.value, left, right))
  {
    hide PrimaryForm;
    var ts, e := front + [head] + more, Binary(head.value, left, right);
    assert ts[..|front|] == front && ts[|front| + 1..] == more;
    assert SplitsAt(rung, ts, e, |front|);
  }

  lemma Appended(rung: nat, front: seq<Lexeme>, ts: seq<Lexeme>, more: seq<Lexeme>, rest: seq<Lexeme>, r: Parsed<Expr>)
    requires ts != [] && ts[1..] == more + rest && Extends(rung, front + [ts[0]] + more, rest, r)
    ensures Extends(rung, front, ts, r)
  {
    hide ExprForm;
    if r.Ok? {
      assert ts == [ts[0]] + (more + rest);
      assert front + ts[..|ts| - |r.rest|] == front + [ts[0]] + more + rest[..|rest| - |r.rest|];
    }
  }

  lemma {:induction false} ComparisonDerived(ts: seq<Lexeme>)
    ensures DerivedOn(1, ts, ComparisonAt(ts))
    ensures ComparisonAt(ts).Ok? ==> !IsComparison(Kind(ComparisonAt(ts).rest))
    decreases |ts|, 4
  {
    hide UnaryAt, ComparisonTail, ExprForm;
    UnaryDerived(ts);
    match UnaryAt(ts)
    case Err =>
    case Ok(left, rest) =>
      var front := ts[..|ts| - |rest|];
      Lifted(1, front, left);
      ComparingDerived(front, left, rest);
      Joined(1, front, ts, rest, ComparisonTail(left, rest));
  }

  lemma {:induction false} ComparingDerived(front: seq<Lexeme>, left: Expr, ts: seq<Lexeme>)
    requires ExprForm(1, front, left)
    ensures Extends(1, front, ts, ComparisonTail(left, ts))
    decreases |ts|, 4
  {
    hide UnaryAt, ExprForm;
    if ts != [] && IsComparison(ts[0].kind) {
      UnaryDerived(ts[1..]);
      match UnaryAt(ts[1..])
      case Err =>
      case Ok(right, rest) =>
        var more := ts[1..][..|ts[1..]| - |rest|];
        Combined(1, front, left, ts[0], more, right);
        ComparingDerived(front + [ts[0]] + more, Binary(ts[0].value, left, right), rest);
        Appended(1, front, ts, more, rest, ComparisonTail(Binary(ts[0].value, left, right), rest));
    } else {
      Unextended(1, front, left, ts);
    }
  }

  lemma {:induction false} UnaryDerived(ts: seq<Lexeme>)
    ensures DerivedOn(2, ts, UnaryAt(ts))
    decreases |ts|, 3
  {
    hide PrimaryAt, ExprForm;
    if ts != [] && (ts[0].kind == NOT || ts[0].kind == MINUS) {
      UnaryDerived(ts[1..]);
      match UnaryAt(ts[1..])
      case Err =>
      case Ok(operand, rest) => Signed(ts, operand, rest);
    } else {
      PrimaryDerived(ts);
      match PrimaryAt(ts)
      case Err =>
      case Ok(e, rest) => Lifted(2, ts[..|ts| - |rest|], e);
    }
  }

  lemma Signed(ts: seq<Lexeme>, operand: Expr, rest: seq<Lexeme>)
    requires ts != [] && (ts[0].kind == NOT || ts[0].kind == MINUS) && DerivedOn(2, ts[1..], Ok(operand, rest))
    ensures DerivedOn(2, ts, Ok(Unary(ts[0].value, operand), rest))
  {
    hide PrimaryForm;
    var taken := ts[..|ts| - |rest|];
    assert taken[1..] == ts[1..][..|ts[1..]| - |rest|];
  }

  lemma {:induction false} PrimaryDerived(ts: seq<Lexeme>)
    ensures DerivedOn(3, ts, PrimaryAt(ts))
    decreases |ts|, 2
  {
    hide ExpressionAt;
    if ts == [] {
    } else if ts[0].kind == LPAREN {
      ExpressionDerived(ts[1..]);
      GroupDerived(ts);
    } else {
      TokenDerived(ts);
    }
  }

  lemma TokenDerived(ts: seq<Lexeme>)
    requires ts != [] && ts[0].kind != LPAREN
    ensures DerivedOn(3, ts, PrimaryAt(ts))
  {
    hide ExpressionAt;
    var r := PrimaryAt(ts);
    if r.Ok? {
      if ts[0].kind == IDENTIFIER && Kind(ts[1..]) == DOT {
        assert r.rest == ts[3..] && ts[..|ts| - |r.rest|] == ts[..3];
        assert PrimaryForm(ts[..3], r.value);
      } else {
        assert r.rest == ts[1..] && ts[..|ts| - |r.rest|] == ts[..1];
        assert PrimaryForm(ts[..1], r.value);
      }
    }
  }

  lemma GroupDerived(ts: seq<Lexeme>)
    requires ts != [] && ts[0].kind == LPAREN && DerivedOn(0, ts[1..], ExpressionAt(ts[1..]))
    ensures DerivedOn(3, ts, PrimaryAt(ts))
  {
    hide ExpressionAt, ExprForm, PrimaryForm, PrimaryAt;
    match ExpressionAt(ts[1..])
    case Err => GroupFails(ts);
    case Ok(e, more) =>
      if more != [] && more[0].kind == RPAREN {
        var inner := ts[1..][..|ts[1..]| - |more|];
        GroupSplits(ts, inner, more);
        GroupIs(ts[0], ts[1..], e, more[0], more[1..]);
        GroupForm(ts[0], inner, more[0], e);
      } else {
        GroupFails(ts);
      }
  }

  lemma GroupSplits(ts: seq<Lexeme>, inner: seq<Lexeme>, more: seq<Lexeme>)
    requires ts != [] && more != [] && ts[1..] == inner + more
    ensures ts == [ts[0]] + ts[1..] && more == [more[0]] + more[1..]
    ensures |more[1..]| <= |ts| && ts[|ts| - |more[1..]|..] == more[1..]
    ensures ts[..|ts| - |more[1..]|] == [ts[0]] + inner + [more[0]]
  {
    assert ts == [ts[0]] + inner + [more[0]] + more[1..];
  }

  lemma GroupForm(open: Lexeme, inner: seq<Lexeme>, close: Lexeme, e: Expr)
    requires open.kind == LPAREN && close.kind == RPAREN && ExprForm(0, inner, e)
    ensures ExprForm(3, [open] + inner + [close], e)
  {
    var ts := [open] + inner + [close];
    assert ts[1..|ts| - 1] == inner;
    assert PrimaryForm(ts, e);
  }

  lemma GroupFails(ts: seq<Lexeme>)
    requires ts != [] && ts[0].kind == LPAREN
    requires var r := ExpressionAt(ts[1..]); r.Err? || r.rest == [] || r.rest[0].kind != RPAREN
    ensures PrimaryAt(ts) == Err
  {
    hide ExpressionAt;
  }

  // ----- both together -----

  ghost predicate ValueForm(ts: seq<Lexeme>, e: Expr) {
    ExprForm(0, ts, e)
  }

  /** The parser reads the first n tokens as e, and stops there, iff the grammar derives e from them and
      what follows does not go on with an expression. */
  lemma ExpressionIff(ts: seq<Lexeme>, n: nat, e: Expr)
    requires n <= |ts| && Kind(ts[n..]) != DOT
    ensures ExpressionAt(ts) == Ok(e, ts[n..]) <==> ValueForm(ts[..n], e) && Stops(ts[n..])
  {
    hide ExpressionAt, ExprForm, Stops, Kind;
    assert ts[..n] + ts[n..] == ts && ts[..|ts| - |ts[n..]|] == ts[..n];
    if ValueForm(ts[..n], e) && Stops(ts[n..]) {
      ReadExpression(ts[..n], e, ts[n..]);
    }
    ExpressionDerived(ts);
    StopsIs(ts[n..]);
  }

  lemma StopsIs(rest: seq<Lexeme>)
    ensures Stops(rest) <==> Kind(rest) != DOT && !IsComparison(Kind(rest)) && !IsLogical(Kind(rest))
  {
  }

  lemma ReadExpression(ts: seq<Lexeme>, e: Expr, rest: seq<Lexeme>)
    requires ValueForm(ts, e) && Stops(rest)
    ensures ExpressionAt(ts + rest) == Ok(e, rest) && ts != []
  {
    hide ExpressionAt, ExprForm, Continue;
    ExprReads(0, ts, e, rest);
    ExpressionEnds(e, rest);
  }
}
