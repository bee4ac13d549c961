/** The comparator that ORDER BY gives to std::sort, and when it is a strict weak order. */
module SortOrder {
  import opened Ast
  import opened Expressions
  import opened KeyOrder
  import opened Options
  import opened Rows

  function KeyOf(row: Row, column: string): string {
    if column in row then row[column] else ""
  }

  predicate Below(x: Number, y: Number) {
    x.At? && y.At? && x.pos < y.pos
  }

  /** As numbers when both sides read as numbers, otherwise as texts: negative, zero or positive. */
  function CompareKeys(stod: Stod, a: string, b: string): int {
    match (stod(a), stod(b))
    case (Some(x), Some(y)) => if Below(x, y) then -1 else if Below(y, x) then 1 else 0
    case _ => if Less(a, b) then -1 else if Less(b, a) then 1 else 0
  }

  /** The first clause whose keys differ decides. */
  predicate Before(stod: Stod, clauses: seq<OrderByClause>, a: Row, b: Row) {
    if clauses == [] then false
    else
      var cmp := CompareKeys(stod, KeyOf(a, clauses[0].column), KeyOf(b, clauses[0].column));
      if cmp != 0 then (if clauses[0].ascending then cmp < 0 else cmp > 0)
      else Before(stod, clauses[1..], a, b)
  }

  /** What one clause says of two rows: negative, zero or positive, whatever its direction. A row
      without the column counts as having the empty text there. */
  function Cmp(stod: Stod, clause: OrderByClause, a: Row, b: Row): int {
    var c := clause.column;
    CompareKeys(stod, if c in a then a[c] else "", if c in b then b[c] else "")
  }

  /** The rows tie on the first i clauses, and clause i puts a first. */
  predicate DecidedAt(stod: Stod, clauses: seq<OrderByClause>, a: Row, b: Row, i: nat)
    requires i < |clauses|
  {
    && (forall j :: 0 <= j < i ==> Cmp(stod, clauses[j], a, b) == 0)
    && (if clauses[i].ascending then Cmp(stod, clauses[i], a, b) < 0 else Cmp(stod, clauses[i], a, b) > 0)
  }

  /** A row comes before another iff some clause puts it there and the rows tie on all earlier ones. */
  lemma {:induction false} BeforeIff(stod: Stod, clauses: seq<OrderByClause>, a: Row, b: Row)
    ensures Before(stod, clauses, a, b) <==> exists i :: 0 <= i < |clauses| && DecidedAt(stod, clauses, a, b, i)
  {
    hide CompareKeys;
    if clauses != [] {
      var rest := clauses[1..];
      BeforeIff(stod, rest, a, b);
      if Cmp(stod, clauses[0], a, b) == 0 {
        if i :| 0 <= i < |rest| && DecidedAt(stod, rest, a, b, i) {
          assert forall j :: 0 <= j < i + 1 ==> clauses[j] == if j == 0 then clauses[0] else rest[j - 1];
          assert DecidedAt(stod, clauses, a, b, i + 1);
        }
        if i :| 0 <= i < |clauses| && DecidedAt(stod, clauses, a, b, i) {
          assert i > 0;
          assert forall j :: 0 <= j < i ==> rest[j] == clauses[j + 1];
          assert DecidedAt(stod, rest, a, b, i - 1);
        }
      } else {
        assert DecidedAt(stod, clauses, a, b, 0) <==> Before(stod, clauses, a, b);
      }
    }
  }

  // ----- what the sign of a comparison means -----

  /** Numbers compare as numbers, a NaN ties with each of them, and anything else compares as texts. */
  lemma SignMeans(stod: Stod, a: string, b: string)
    ensures stod(a).None? || stod(b).None? ==>
      && (CompareKeys(stod, a, b) < 0 <==> a < b || exists i :: DiffersUp(a, b, i))
      && (CompareKeys(stod, a, b) == 0 <==> a == b)
    ensures forall x, y :: stod(a) == Some(At(x)) && stod(b) == Some(At(y)) ==>
      && (CompareKeys(stod, a, b) < 0 <==> x < y)
      && (CompareKeys(stod, a, b) == 0 <==> x == y)
    ensures NaNMeets(stod, a, b) ==> CompareKeys(stod, a, b) == 0
  {
    hide Rank;
    LessIff(a, b);
    LessIsRank(a, b);
    LessIsRank(b, a);
  }

  /** A NaN next to a number. */
  predicate NaNMeets(stod: Stod, a: string, b: string) {
    stod(a).Some? && stod(b).Some? && (stod(a) == Some(NaN) || stod(b) == Some(NaN))
  }

  // ----- strict weak orders -----

  /** What std::sort asks of its comparator on three elements of the range. */
  predicate WeakTriple(ab: bool, ba: bool, bc: bool, cb: bool, ac: bool, ca: bool) {
    && !(ab && ba)
    && (ab && bc ==> ac)
    && (!ab && !ba && !bc && !cb ==> !ac && !ca)
  }

  ghost predicate StrictWeakOn(stod: Stod, clauses: seq<OrderByClause>, rows: seq<Row>) {
    forall a, b, c :: a in rows && b in rows && c in rows ==> TripleOk(stod, clauses, a, b, c)
  }

  predicate TripleOk(stod: Stod, clauses: seq<OrderByClause>, a: Row, b: Row, c: Row) {
    && !Before(stod, clauses, a, a)
    && WeakTriple(Before(stod, clauses, a, b), Before(stod, clauses, b, a), Before(stod, clauses, b, c),
                  Before(stod, clauses, c, b), Before(stod, clauses, a, c), Before(stod, clauses, c, a))
  }

  predicate KeyTripleOk(stod: Stod, a: string, b: string, c: string) {
    WeakTriple(CompareKeys(stod, a, b) < 0, CompareKeys(stod, b, a) < 0, CompareKeys(stod, b, c) < 0,
               CompareKeys(stod, c, b) < 0, CompareKeys(stod, a, c) < 0, CompareKeys(stod, c, a) < 0)
  }

  ghost predicate KeysStrictWeak(stod: Stod, keys: set<string>) {
    forall a, b, c :: a in keys && b in keys && c in keys ==> KeyTripleOk(stod, a, b, c)
  }

  // ----- the exact condition on a column -----

  /** A NaN ties with every number, so next to one all numbers must be equal. */
  predicate NaNFits(stod: Stod, n: string, x: string, y: string) {
    stod(n) == Some(NaN) && stod(x).Some? && stod(y).Some? ==> !Below(stod(x).value, stod(y).value)
  }

  /** A text that sorts between two numerals, as texts, asks that they be in that order as numbers. */
  predicate TextFits(stod: Stod, t: string, x: string, y: string) {
    stod(t).None? && stod(x).Some? && stod(y).Some? && Less(x, t) && Less(t, y) ==> Below(stod(x).value, stod(y).value)
  }

  ghost predicate Comparable(stod: Stod, keys: set<string>) {
    forall k, x, y :: k in keys && x in keys && y in keys ==> Fitting(stod, k, x, y)
  }

  predicate Fitting(stod: Stod, k: string, x: string, y: string) {
    NaNFits(stod, k, x, y) && TextFits(stod, k, x, y)
  }

  lemma CompareFlips(stod: Stod, a: string, b: string)
    ensures CompareKeys(stod, b, a) == -CompareKeys(stod, a, b)
    ensures CompareKeys(stod, a, a) == 0
  {
    hide Less, Rank;
    LessIsRank(a, b);
    LessIsRank(b, a);
    LessIsRank(a, a);
  }

  /** A column of keys is strictly weakly ordered exactly when it is comparable. All texts, or
      all numbers without a NaN, are the plain cases. */
  lemma KeysStrictWeakIff(stod: Stod, keys: set<string>)
    ensures KeysStrictWeak(stod, keys) <==> Comparable(stod, keys)
  {
    hide KeyTripleOk, Fitting;
    if KeysStrictWeak(stod, keys) {
      forall k, x, y | k in keys && x in keys && y in keys ensures Fitting(stod, k, x, y) {
        assert KeyTripleOk(stod, x, k, y) && KeyTripleOk(stod, x, y, k) && KeyTripleOk(stod, y, x, k);
        TripleFits(stod, k, x, y);
      }
    }
    if Comparable(stod, keys) {
      forall a, b, c | a in keys && b in keys && c in keys ensures KeyTripleOk(stod, a, b, c) {
        AllFitting(stod, keys, a, b, c);
        FitsTriple(stod, a, b, c);
      }
    }
  }

  lemma TripleFits(stod: Stod, k: string, x: string, y: string)
    requires KeyTripleOk(stod, x, k, y) && KeyTripleOk(stod, x, y, k) && KeyTripleOk(stod, y, x, k)
    ensures Fitting(stod, k, x, y)
  {
    hide Less, Rank;
    LessIsRank(x, k);
    LessIsRank(k, x);
    LessIsRank(k, y);
    LessIsRank(y, k);
  }

  ghost predicate SixFit(stod: Stod, a: string, b: string, c: string) {
    && Fitting(stod, a, b, c) && Fitting(stod, a, c, b) && Fitting(stod, b, a, c)
    && Fitting(stod, b, c, a) && Fitting(stod, c, a, b) && Fitting(stod, c, b, a)
  }

  lemma AllFitting(stod: Stod, keys: set<string>, a: string, b: string, c: string)
    requires Comparable(stod, keys) && a in keys && b in keys && c in keys
    ensures SixFit(stod, a, b, c)
  {
    hide Fitting;
  }

  lemma FitsTriple(stod: Stod, a: string, b: string, c: string)
    requires SixFit(stod, a, b, c)
    ensures KeyTripleOk(stod, a, b, c)
  {
    hide Less, Rank;
    LessIsRank(a, b);
    LessIsRank(b, a);
    LessIsRank(b, c);
    LessIsRank(c, b);
    LessIsRank(a, c);
    LessIsRank(c, a);
  }

  // ----- from keys to rows -----

  function Column(rows: seq<Row>, column: string): set<string> {
    set row | row in rows :: KeyOf(row, column)
  }

  lemma {:induction false} TripleByClauses(stod: Stod, clauses: seq<OrderByClause>, a: Row, b: Row, c: Row)
    requires forall cl :: cl in clauses ==> SixOk(stod, KeyOf(a, cl.column), KeyOf(b, cl.column), KeyOf(c, cl.column))
    ensures TripleOk(stod, clauses, a, b, c)
    decreases |clauses|
  {
    hide CompareKeys;
    if clauses != [] {
      TripleByClauses(stod, clauses[1..], a, b, c);
      assert SixOk(stod, KeyOf(a, clauses[0].column), KeyOf(b, clauses[0].column), KeyOf(c, clauses[0].column));
      var x, y, z := KeyOf(a, clauses[0].column), KeyOf(b, clauses[0].column), KeyOf(c, clauses[0].column);
      CompareFlips(stod, x, y);
      CompareFlips(stod, y, z);
      CompareFlips(stod, x, z);
    }
  }

  ghost predicate SixOk(stod: Stod, a: string, b: string, c: string) {
    && KeyTripleOk(stod, a, b, c) && KeyTripleOk(stod, a, c, b) && KeyTripleOk(stod, b, a, c)
    && KeyTripleOk(stod, b, c, a) && KeyTripleOk(stod, c, a, b) && KeyTripleOk(stod, c, b, a)
  }

  /** If every ORDER BY column is comparable, the comparator is a strict weak order on the rows. */
  lemma RowsStrictWeak(stod: Stod, clauses: seq<OrderByClause>, rows: seq<Row>)
    requires forall cl :: cl in clauses ==> Comparable(stod, Column(rows, cl.column))
    ensures StrictWeakOn(stod, clauses, rows)
  {
    hide Comparable, KeyTripleOk, TripleOk;
    forall a, b, c | a in rows && b in rows && c in rows ensures TripleOk(stod, clauses, a, b, c) {
      forall cl | cl in clauses ensures SixOk(stod, KeyOf(a, cl.column), KeyOf(b, cl.column), KeyOf(c, cl.column)) {
        KeysStrictWeakIff(stod, Column(rows, cl.column));
      }
      TripleByClauses(stod, clauses, a, b, c);
    }
  }

  /** For one clause, in either direction, that is also necessary. */
  lemma OneClauseIff(stod: Stod, clause: OrderByClause, rows: seq<Row>)
    ensures StrictWeakOn(stod, [clause], rows) <==> Comparable(stod, Column(rows, clause.column))
  {
    hide Comparable, KeyTripleOk, TripleOk;
    if Comparable(stod, Column(rows, clause.column)) {
      RowsStrictWeak(stod, [clause], rows);
    }
    if StrictWeakOn(stod, [clause], rows) {
      var keys := Column(rows, clause.column);
      forall x, y, z | x in keys && y in keys && z in keys ensures KeyTripleOk(stod, x, y, z) {
        var a :| a in rows && KeyOf(a, clause.column) == x;
        var b :| b in rows && KeyOf(b, clause.column) == y;
        var c :| c in rows && KeyOf(c, clause.column) == z;
        assert TripleOk(stod, [clause], a, b, c) && TripleOk(stod, [clause], c, b, a);
        OneClauseTriple(stod, clause, a, b, c);
      }
      KeysStrictWeakIff(stod, keys);
    }
  }

  lemma OneClauseTriple(stod: Stod, clause: OrderByClause, a: Row, b: Row, c: Row)
    requires TripleOk(stod, [clause], a, b, c) && TripleOk(stod, [clause], c, b, a)
    ensures KeyTripleOk(stod, KeyOf(a, clause.column), KeyOf(b, clause.column), KeyOf(c, clause.column))
  {
    hide CompareKeys, Before;
    var x, y, z := KeyOf(a, clause.column), KeyOf(b, clause.column), KeyOf(c, clause.column);
    CompareFlips(stod, x, y);
    CompareFlips(stod, y, z);
    CompareFlips(stod, x, z);
    BeforeOne(stod, clause, a, b);
    BeforeOne(stod, clause, b, a);
    BeforeOne(stod, clause, b, c);
    BeforeOne(stod, clause, c, b);
    BeforeOne(stod, clause, a, c);
    BeforeOne(stod, clause, c, a);
  }

  lemma BeforeOne(stod: Stod, clause: OrderByClause, a: Row, b: Row)
    ensures var cmp := CompareKeys(stod, KeyOf(a, clause.column), KeyOf(b, clause.column));
            Before(stod, [clause], a, b) == if clause.ascending then cmp < 0 else cmp > 0
  {
    hide CompareKeys;
  }

  /** The plain cases: all numbers and no NaN, or all texts. */
  lemma UniformIsComparable(stod: Stod, keys: set<string>)
    requires Uniform(stod, keys)
    ensures Comparable(stod, keys)
  {
    forall k, x, y | k in keys && x in keys && y in keys ensures Fitting(stod, k, x, y) {
      assert stod(k).None? || IsNumber(stod, k);
      assert stod(x).None? || IsNumber(stod, x);
    }
  }

  ghost predicate Uniform(stod: Stod, keys: set<string>) {
    (forall k :: k in keys ==> IsNumber(stod, k)) || (forall k :: k in keys ==> stod(k).None?)
  }

  predicate IsNumber(stod: Stod, k: string) {
    stod(k).Some? && stod(k).value.At?
  }

  /** A mixed column that is not: the text "," sorts between "+7" and "2", but 2 < 7. */
  lemma MixedColumnFails(stod: Stod)
    requires stod("+7") == Some(At(7.0)) && stod("2") == Some(At(2.0)) && stod(",").None?
    ensures !KeysStrictWeak(stod, {"+7", ",", "2"})
  {
    assert Less("+7", ",") && Less(",", "2");
    assert !Fitting(stod, ",", "+7", "2");
    KeysStrictWeakIff(stod, {"+7", ",", "2"});
  }

  /** WHERE and ORDER BY agree on what is smaller; equal keys tie, and a tie without a NaN next to
      a number is an equality. */
  lemma FilterAgreesWithSort(stod: Stod, l: string, r: string)
    ensures CompareValues(stod, l, "<", r) <==> CompareKeys(stod, l, r) < 0
    ensures CompareValues(stod, l, ">", r) <==> CompareKeys(stod, l, r) > 0
    ensures CompareValues(stod, l, "=", r) ==> CompareKeys(stod, l, r) == 0
    ensures CompareKeys(stod, l, r) == 0 && !CompareValues(stod, l, "=", r) <==>
            stod(l).Some? && stod(r).Some? && (stod(l) == Some(NaN) || stod(r) == Some(NaN))
  {
    hide Less, Rank;
    LessIsRank(l, r);
    LessIsRank(r, l);
  }
}
