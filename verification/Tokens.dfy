/** Tokens: what the lexer hands to the parser. */
module Tokens {

  datatype TokenType =
    // keywords
    | SELECT | INSERT | UPDATE | DELETE | CREATE | DROP | TABLE | FROM | WHERE | INTO | VALUES | SET
    | AND | OR | NOT | ORDER | BY | ASC | DESC | LIMIT | JOIN | ON | INNER | LEFT
    // literals
    | IDENTIFIER | NUMBER | STRING | BOOL_TRUE | BOOL_FALSE
    // operators
    | EQ | NEQ | LT | GT | LTE | GTE | PLUS | MINUS | SLASH | STAR
    // punctuation
    | COMMA | SEMICOLON | LPAREN | RPAREN | DOT
    | END_OF_FILE

  datatype Token = Token(kind: TokenType, value: string, line: int, col: int)

  /** A token without its place in the source. */
  datatype Lexeme = Lexeme(kind: TokenType, value: string)

  function LexemesOf(ts: seq<Token>): (ls: seq<Lexeme>)
    ensures |ls| == |ts|
    ensures forall i :: 0 <= i < |ts| ==> ls[i] == Lexeme(ts[i].kind, ts[i].value)
  {
    seq(|ts|, i requires 0 <= i < |ts| => Lexeme(ts[i].kind, ts[i].value))
  }

  const KEYWORDS: map<string, TokenType> := map[
    "SELECT" := SELECT, "INSERT" := INSERT, "UPDATE" := UPDATE, "DELETE" := DELETE, "CREATE" := CREATE,
    "DROP" := DROP, "TABLE" := TABLE, "FROM" := FROM, "WHERE" := WHERE, "INTO" := INTO, "VALUES" := VALUES,
    "SET" := SET, "AND" := AND, "OR" := OR, "NOT" := NOT, "ORDER" := ORDER, "BY" := BY, "ASC" := ASC,
    "DESC" := DESC, "LIMIT" := LIMIT, "JOIN" := JOIN, "ON" := ON, "INNER" := INNER, "LEFT" := LEFT,
    "TRUE" := BOOL_TRUE, "FALSE" := BOOL_FALSE
  ]

  function UpperChar(c: char): char {
    if 'a' <= c <= 'z' then (c as int - 32) as char else c
  }

  function Upper(s: string): (u: string)
    ensures |u| == |s|
  {
    if s == "" then "" else [UpperChar(s[0])] + Upper(s[1..])
  }

  /** Keywords in any case; every other word is an identifier. */
  function ClassifyWord(upper: string): TokenType {
    if upper in KEYWORDS then KEYWORDS[upper] else IDENTIFIER
  }

  /** How many characters at the front satisfy p. */
  function Run(p: char -> bool, s: string): (n: nat)
    ensures n <= |s| && forall i :: 0 <= i < n ==> p(s[i])
    ensures n < |s| ==> !p(s[n])
  {
    if s == "" || !p(s[0]) then 0 else 1 + Run(p, s[1..])
  }

  lemma {:induction false} RunOver(p: char -> bool, a: string, b: string)
    requires forall c :: c in a ==> p(c)
    ensures Run(p, a + b) == |a| + Run(p, b)
  {
    if a == "" {
      assert a + b == b;
    } else {
      RunOver(p, a[1..], b);
      assert (a + b)[1..] == a[1..] + b;
    }
  }
}
