/** Rows as text, "col=val;col=val;": how the log stores the old and the new row. */
module RowText {
  import opened Options
  import opened Rows

  function IndexOf(s: string, c: char): (r: Option<nat>)
    ensures r.None? <==> c !in s
    ensures r.Some? ==> r.value < |s| && s[r.value] == c && c !in s[..r.value]
  {
    if s == "" then None
    else if s[0] == c then Some(0)
    else
      match IndexOf(s[1..], c)
      case None => assert s == [s[0]] + s[1..]; None
      case Some(i) => assert s[..i + 1] == [s[0]] + s[1..][..i]; Some(i + 1)
  }

  lemma {:induction false} IndexOfFirst(a: string, c: char, b: string)
    requires c !in a
    ensures IndexOf(a + [c] + b, c) == Some(|a|)
  {
    if a != "" {
      IndexOfFirst(a[1..], c, b);
      assert (a + [c] + b)[1..] == a[1..] + [c] + b;
    }
  }

  // ----- writing -----

  /** The columns of the row, each once, in the order the hash map happens to give them. */
  ghost predicate Enumerates(cols: seq<string>, row: Row) {
    && (forall c :: c in cols <==> c in row)
    && NoRepeats(cols)
  }

  ghost predicate NoRepeats(cols: seq<string>) {
    cols == [] || (cols[0] !in cols[1..] && NoRepeats(cols[1..]))
  }

  function Piece(row: Row, col: string): string
    requires col in row
  {
    col + "=" + row[col] + ";"
  }

  function Serialized(row: Row, cols: seq<string>): string
    requires forall c :: c in cols ==> c in row
  {
    if cols == [] then "" else Piece(row, cols[0]) + Serialized(row, cols[1..])
  }

  // ----- reading -----

  /** A token without '=' or with nothing before it is passed over. */
  function PutToken(row: Row, token: string): Row {
    match IndexOf(token, '=')
    case None => row
    case Some(eq) => if eq == 0 then row else row[token[..eq] := token[eq + 1..]]
  }

  /** Reading on from here into row; what follows the last ';' is dropped. */
  function ReadOn(row: Row, s: string): Row
    decreases |s|
  {
    match IndexOf(s, ';')
    case None => row
    case Some(end) => ReadOn(PutToken(row, s[..end]), s[end + 1..])
  }

  function Deserialized(s: string): Row {
    ReadOn(map[], s)
  }

  // ----- the round trip -----

  predicate CleanEntry(col: string, val: string) {
    col != "" && '=' !in col && ';' !in col && ';' !in val
  }

  /** No delimiter where it would be misread: values may hold '='. */
  ghost predicate Clean(row: Row) {
    forall c :: c in row ==> CleanEntry(c, row[c])
  }

  lemma ReadPiece(acc: Row, row: Row, col: string, rest: string)
    requires col in row && CleanEntry(col, row[col])
    ensures ReadOn(acc, Piece(row, col) + rest) == ReadOn(acc[col := row[col]], rest)
  {
    hide IndexOf;
    var token := col + "=" + row[col];
    var s := Piece(row, col) + rest;
    assert s == token + [';'] + rest;
    IndexOfFirst(token, ';', rest);
    IndexOfFirst(col, '=', row[col]);
    assert s[..|token|] == token && s[|token| + 1..] == rest;
    assert token[..|col|] == col && token[|col| + 1..] == row[col];
  }

  function Filled(acc: Row, row: Row, cols: seq<string>): Row
    requires forall c :: c in cols ==> c in row
    decreases |cols|
  {
    if cols == [] then acc else Filled(acc[cols[0] := row[cols[0]]], row, cols[1..])
  }

  lemma {:induction false} FilledIs(acc: Row, row: Row, cols: seq<string>)
    requires forall c :: c in cols ==> c in row
    ensures forall c :: c in Filled(acc, row, cols) <==> c in acc || c in cols
    ensures forall c :: c in Filled(acc, row, cols) ==>
                        Filled(acc, row, cols)[c] == if c in cols then row[c] else acc[c]
    decreases |cols|
  {
    if cols != [] {
      FilledIs(acc[cols[0] := row[cols[0]]], row, cols[1..]);
      assert cols == [cols[0]] + cols[1..];
    }
  }

  lemma {:induction false} ReadsFilled(acc: Row, row: Row, cols: seq<string>)
    requires (forall c :: c in cols ==> c in row) && Clean(row)
    ensures ReadOn(acc, Serialized(row, cols)) == Filled(acc, row, cols)
    decreases |cols|
  {
    hide ReadOn;
    if cols == [] {
      ReadNothing(acc);
    } else {
      ReadPiece(acc, row, cols[0], Serialized(row, cols[1..]));
      ReadsFilled(acc[cols[0] := row[cols[0]]], row, cols[1..]);
    }
  }

  lemma ReadNothing(acc: Row)
    ensures ReadOn(acc, "") == acc
  {
  }

  lemma {:induction false} ReadsClean(acc: Row, s: string)
    requires Clean(acc)
    ensures Clean(ReadOn(acc, s))
    decreases |s|
  {
    match IndexOf(s, ';') {
      case None =>
      case Some(end) =>
        TokenClean(acc, s[..end]);
        ReadsClean(PutToken(acc, s[..end]), s[end + 1..]);
    }
  }

  lemma TokenClean(acc: Row, token: string)
    requires Clean(acc) && ';' !in token
    ensures Clean(PutToken(acc, token))
  {
  }

  lemma CleanReadsBack(row: Row, cols: seq<string>)
    requires Enumerates(cols, row) && Clean(row)
    ensures Deserialized(Serialized(row, cols)) == row
  {
    hide ReadOn, Serialized, Filled, Clean, NoRepeats;
    ReadsFilled(map[], row, cols);
    FilledIs(map[], row, cols);
    assert Filled(map[], row, cols).Keys == row.Keys;
  }

  /** Writing a row in any column order and reading it back gives the same row exactly when the
      row is clean. */
  lemma RowRoundTripIff(row: Row, cols: seq<string>)
    requires Enumerates(cols, row)
    ensures Deserialized(Serialized(row, cols)) == row <==> Clean(row)
  {
    hide ReadOn, Serialized, CleanEntry, NoRepeats;
    if Clean(row) {
      CleanReadsBack(row, cols);
    }
    ReadsClean(map[], Serialized(row, cols));
  }
}
