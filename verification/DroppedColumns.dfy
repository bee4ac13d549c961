/** ORDER BY a column that the projection drops. The plan projects before it sorts, so the sort has
    nothing to go by: exactly when its result is still a right answer. */
module DroppedColumns {
  import opened Ast
  import opened Expressions
  import opened Options
  import opened Queries
  import opened Rows
  import opened SortOrder

  predicate Drops(columns: seq<string>, clause: OrderByClause) {
    columns != ["*"] && clause.column !in columns
  }

  /** Every two projected rows tie. */
  lemma ProjectedTie(stod: Stod, clause: OrderByClause, columns: seq<string>, rows: seq<Row>, a: Row, b: Row)
    requires Drops(columns, clause) && a in Projected(columns, rows) && b in Projected(columns, rows)
    ensures !Before(stod, [clause], a, b)
  {
    hide CompareKeys;
    var p := Projected(columns, rows);
    var i :| 0 <= i < |p| && p[i] == a;
    var j :| 0 <= j < |p| && p[j] == b;
    ProjectedAt(columns, rows, i);
    ProjectedAt(columns, rows, j);
    CompareFlips(stod, "", "");
    BeforeOne(stod, clause, a, b);
  }

  /** So every order of them counts as sorted. */
  lemma AnyOrderSorts(stod: Stod, clause: OrderByClause, columns: seq<string>, rows: seq<Row>, out: seq<Row>)
    requires Drops(columns, clause) && multiset(out) == multiset(Projected(columns, rows))
    ensures IsSortOf(stod, [clause], Projected(columns, rows), out)
  {
    hide Before, Projected;
    forall i, j | 0 <= i < j < |out|
      ensures !Before(stod, [clause], out[j], out[i])
    {
      assert out[i] in multiset(out) && out[j] in multiset(out);
      ProjectedTie(stod, clause, columns, rows, out[j], out[i]);
    }
  }

  // ----- the rows that sort before a given one -----

  function Smaller(stod: Stod, clause: OrderByClause, rows: seq<Row>, b: Row): seq<Row> {
    if rows == [] then []
    else (if Before(stod, [clause], rows[0], b) then [rows[0]] else []) + Smaller(stod, clause, rows[1..], b)
  }

  lemma {:induction false} SmallerCount(stod: Stod, clause: OrderByClause, rows: seq<Row>, b: Row, x: Row)
    ensures multiset(Smaller(stod, clause, rows, b))[x] ==
            if Before(stod, [clause], x, b) then multiset(rows)[x] else 0
  {
    hide Before;
    if rows != [] {
      SmallerCount(stod, clause, rows[1..], b, x);
      assert rows == [rows[0]] + rows[1..];
      var rest := Smaller(stod, clause, rows[1..], b);
      assert multiset([rows[0]] + rest) == multiset{rows[0]} + multiset(rest);
      assert [] + rest == rest;
    }
  }

  lemma SmallerSame(stod: Stod, clause: OrderByClause, rows: seq<Row>, other: seq<Row>, b: Row)
    requires multiset(rows) == multiset(other)
    ensures multiset(Smaller(stod, clause, rows, b)) == multiset(Smaller(stod, clause, other, b))
  {
    hide Before, Smaller;
    var s, t := multiset(Smaller(stod, clause, rows, b)), multiset(Smaller(stod, clause, other, b));
    forall x
      ensures s[x] == t[x]
    {
      SmallerCount(stod, clause, rows, b, x);
      SmallerCount(stod, clause, other, b, x);
    }
  }

  lemma {:induction false} SmallerNone(stod: Stod, clause: OrderByClause, rows: seq<Row>, b: Row)
    requires forall x :: x in rows ==> !Before(stod, [clause], x, b)
    ensures Smaller(stod, clause, rows, b) == []
  {
    hide Before;
    if rows != [] {
      SmallerNone(stod, clause, rows[1..], b);
    }
  }

  lemma SmallerCons(stod: Stod, clause: OrderByClause, row: Row, rest: seq<Row>, b: Row)
    ensures Smaller(stod, clause, [row] + rest, b) ==
            (if Before(stod, [clause], row, b) then [row] else []) + Smaller(stod, clause, rest, b)
  {
    hide Before;
    assert ([row] + rest)[1..] == rest;
  }

  lemma TailInOrder(stod: Stod, clause: OrderByClause, q: seq<Row>)
    requires q != [] && InOrder(stod, [clause], q)
    ensures InOrder(stod, [clause], q[1..])
    ensures forall x :: x in q ==> x == q[0] || !Before(stod, [clause], x, q[0])
  {
    hide Before;
    forall x | x in q
      ensures x == q[0] || !Before(stod, [clause], x, q[0])
    {
      var j :| 0 <= j < |q| && q[j] == x;
    }
  }

  /** In a sorted list they come first. */
  lemma {:induction false} SmallerFirst(stod: Stod, clause: OrderByClause, q: seq<Row>, b: Row)
    requires InOrder(stod, [clause], q) && Triples(stod, clause, q + [b])
    ensures var s := Smaller(stod, clause, q, b); |s| <= |q| && s == q[..|s|]
    decreases |q|
  {
    hide Before, TripleOk, Smaller, InOrder;
    if q == [] {
      SmallerNone(stod, clause, q, b);
    } else {
      TailInOrder(stod, clause, q);
      if Before(stod, [clause], q[0], b) {
        assert forall x :: x in q[1..] + [b] ==> x in q + [b];
        SmallerFirst(stod, clause, q[1..], b);
        SmallerCons(stod, clause, q[0], q[1..], b);
        assert q == [q[0]] + q[1..];
      } else {
        forall x | x in q
          ensures !Before(stod, [clause], x, b)
        {
          NotLater(stod, clause, q, b, x);
        }
        SmallerNone(stod, clause, q, b);
      }
    }
  }

  ghost predicate Triples(stod: Stod, clause: OrderByClause, rows: seq<Row>) {
    forall x, y, z :: x in rows && y in rows && z in rows ==> TripleOk(stod, [clause], x, y, z)
  }

  /** What is not before the first of a sorted list is not before anything that the first is not before. */
  lemma NotLater(stod: Stod, clause: OrderByClause, q: seq<Row>, b: Row, x: Row)
    requires q != [] && x in q && Triples(stod, clause, q + [b])
    requires !Before(stod, [clause], q[0], b) && (x == q[0] || !Before(stod, [clause], x, q[0]))
    ensures !Before(stod, [clause], x, b)
  {
    hide Before;
    assert x in q + [b] && q[0] in q + [b] && b in q + [b];
    assert TripleOk(stod, [clause], x, q[0], b) && TripleOk(stod, [clause], q[0], x, b) && TripleOk(stod, [clause], b, q[0], x)
        && TripleOk(stod, [clause], q[0], b, x) && TripleOk(stod, [clause], b, x, q[0]) && TripleOk(stod, [clause], x, b, q[0]);
  }

  // ----- the projection of those rows -----

  lemma OneOut(columns: seq<string>, rows: seq<Row>, i: nat)
    requires i < |rows|
    ensures multiset(Projected(columns, rows)) ==
            multiset(Projected(columns, rows[..i] + rows[i + 1..])) + multiset{ProjectRow(columns, rows[i])}
  {
    hide ProjectRow, Projected;
    DropBoth(columns, rows, i);
    ProjectedAt(columns, rows, i);
    var p := Projected(columns, rows);
    assert p[i] in multiset(p);
  }

  lemma RowOut(rows: seq<Row>, i: nat)
    requires i < |rows|
    ensures multiset(rows[..i] + rows[i + 1..]) == multiset(rows) - multiset{rows[i]}
  {
    assert rows == rows[..i] + [rows[i]] + rows[i + 1..];
  }

  lemma {:induction false} ProjectedSame(columns: seq<string>, a: seq<Row>, b: seq<Row>)
    requires multiset(a) == multiset(b)
    ensures multiset(Projected(columns, a)) == multiset(Projected(columns, b))
    decreases |a|
  {
    hide ProjectRow, Projected;
    MultisetSize(a, b);
    if a == [] {
      assert a == b;
    } else {
      assert a[0] in multiset(b);
      var i :| 0 <= i < |b| && b[i] == a[0];
      OneOut(columns, a, 0);
      OneOut(columns, b, i);
      RowOut(a, 0);
      RowOut(b, i);
      var rest, left := a[..0] + a[1..], b[..i] + b[i + 1..];
      assert multiset(rest) == multiset(left);
      ProjectedSame(columns, rest, left);
    }
  }

  lemma ProjectedFront(columns: seq<string>, rows: seq<Row>, m: nat)
    requires m <= |rows|
    ensures Projected(columns, rows[..m]) == Projected(columns, rows)[..m]
  {
    hide ProjectRow, Projected;
    assert rows == rows[..m] + rows[m..];
    ProjectedConcat(columns, rows[..m], rows[m..]);
  }

  /** However the rows are sorted, their projections start with the same ones, in some order. */
  lemma FixedFront(stod: Stod, clause: OrderByClause, columns: seq<string>, rows: seq<Row>, q: seq<Row>, b: Row)
    requires StrictWeakOn(stod, [clause], rows) && IsSortOf(stod, [clause], rows, q) && b in rows
    ensures var m := |Smaller(stod, clause, rows, b)|;
      m <= |q| && multiset(Projected(columns, q)[..m]) == multiset(Projected(columns, Smaller(stod, clause, rows, b)))
  {
    hide Before, Projected, TripleOk, Smaller;
    forall x | x in q + [b]
      ensures x in rows
    {
      assert x in q ==> x in multiset(q);
      assert x in multiset(rows);
    }
    SmallerFirst(stod, clause, q, b);
    SmallerSame(stod, clause, rows, q, b);
    var s, t := Smaller(stod, clause, rows, b), Smaller(stod, clause, q, b);
    MultisetSize(s, t);
    ProjectedFront(columns, q, |t|);
    ProjectedSame(columns, s, t);
  }

  // ----- the theorem -----

  ghost predicate AllTie(stod: Stod, clause: OrderByClause, rows: seq<Row>) {
    forall a, b :: a in rows && b in rows ==> !Before(stod, [clause], a, b)
  }

  ghost predicate AllAlike(columns: seq<string>, rows: seq<Row>) {
    forall a, b :: a in rows && b in rows ==> ProjectRow(columns, a) == ProjectRow(columns, b)
  }

  /** The list is the projection of the rows in an order that ORDER BY allows. */
  ghost predicate RightOrder(stod: Stod, clause: OrderByClause, columns: seq<string>, rows: seq<Row>, out: seq<Row>) {
    exists q :: IsSortOf(stod, [clause], rows, q) && Projected(columns, q) == out
  }

  /** The sort may deliver any order of the projected rows, and each of them is right, iff all rows tie
      on the dropped column or all have the same projection. */
  lemma DroppedColumnIff(e: Engine, clause: OrderByClause, columns: seq<string>, rows: seq<Row>)
    requires SortWorks(e) && Drops(columns, clause) && Comparable(e.stod, Column(rows, clause.column))
    ensures (forall out :: IsSortOf(e.stod, [clause], Projected(columns, rows), out) ==>
               RightOrder(e.stod, clause, columns, rows, out))
            <==> AllTie(e.stod, clause, rows) || AllAlike(columns, rows)
  {
    hide Before, Projected, TripleOk, ProjectRow, Comparable, StrictWeakOn, IsSortOf, RightOrder, AllTie, AllAlike;
    OneClauseIff(e.stod, clause, rows);
    if AllTie(e.stod, clause, rows) {
      forall out | IsSortOf(e.stod, [clause], Projected(columns, rows), out)
        ensures RightOrder(e.stod, clause, columns, rows, out)
      {
        TieIsRight(e.stod, clause, columns, rows, out);
      }
    } else if AllAlike(columns, rows) {
      forall out | IsSortOf(e.stod, [clause], Projected(columns, rows), out)
        ensures RightOrder(e.stod, clause, columns, rows, out)
      {
        AlikeIsRight(e, clause, columns, rows, out);
      }
    } else {
      var out := WrongOrder(e, clause, columns, rows);
    }
  }

  lemma TieIsRight(stod: Stod, clause: OrderByClause, columns: seq<string>, rows: seq<Row>, out: seq<Row>)
    requires AllTie(stod, clause, rows) && IsSortOf(stod, [clause], Projected(columns, rows), out)
    ensures RightOrder(stod, clause, columns, rows, out)
  {
    hide Before, Projected;
    var q := Unproject(columns, rows, out);
    forall i, j | 0 <= i < j < |q|
      ensures !Before(stod, [clause], q[j], q[i])
    {
      assert q[i] in multiset(q) && q[j] in multiset(q);
    }
    assert IsSortOf(stod, [clause], rows, q);
  }

  lemma AlikeIsRight(e: Engine, clause: OrderByClause, columns: seq<string>, rows: seq<Row>, out: seq<Row>)
    requires SortWorks(e) && StrictWeakOn(e.stod, [clause], rows)
    requires AllAlike(columns, rows) && IsSortOf(e.stod, [clause], Projected(columns, rows), out)
    ensures RightOrder(e.stod, clause, columns, rows, out)
  {
    hide Before, Projected, TripleOk, ProjectRow, StrictWeakOn;
    var q := e.sort([clause], rows);
    assert IsSortOf(e.stod, [clause], rows, q);
    var p := Projected(columns, q);
    MultisetSize(q, rows);
    MultisetSize(out, Projected(columns, rows));
    forall i | 0 <= i < |out|
      ensures out[i] == p[i]
    {
      assert out[i] in multiset(out);
      var k :| 0 <= k < |rows| && Projected(columns, rows)[k] == out[i];
      ProjectedAt(columns, rows, k);
      ProjectedAt(columns, q, i);
      assert q[i] in multiset(q);
    }
    assert out == p;
  }

  /** A sorted order with two unlike projections swapped across the border between a smaller and a
      greater row. */
  lemma WrongOrder(e: Engine, clause: OrderByClause, columns: seq<string>, rows: seq<Row>) returns (out: seq<Row>)
    requires SortWorks(e) && Drops(columns, clause) && StrictWeakOn(e.stod, [clause], rows)
    requires !AllTie(e.stod, clause, rows) && !AllAlike(columns, rows)
    ensures IsSortOf(e.stod, [clause], Projected(columns, rows), out)
    ensures !RightOrder(e.stod, clause, columns, rows, out)
  {
    hide Before, Projected, TripleOk, ProjectRow, Smaller;
    var a, b :| a in rows && b in rows && Before(e.stod, [clause], a, b);
    var q := e.sort([clause], rows);
    var p := Projected(columns, q);
    var m := |Smaller(e.stod, clause, rows, b)|;
    FixedFront(e.stod, clause, columns, rows, q, b);
    MultisetSize(q, rows);
    ProjectedSame(columns, rows, q);
    BorderInside(e.stod, clause, rows, a, b);
    var i, j := Unlike(columns, rows, q, m);
    out := p[i := p[j]][j := p[i]];
    SwapKeeps(p, i, j);
    AnyOrderSorts(e.stod, clause, columns, rows, out);
    forall r | IsSortOf(e.stod, [clause], rows, r)
      ensures Projected(columns, r) != out
    {
      FixedFront(e.stod, clause, columns, rows, r, b);
      assert out[..m] == p[..m][i := p[j]];
      ChangedFront(p[..m], i, p[j]);
    }
  }

  lemma BorderInside(stod: Stod, clause: OrderByClause, rows: seq<Row>, a: Row, b: Row)
    requires StrictWeakOn(stod, [clause], rows) && a in rows && b in rows && Before(stod, [clause], a, b)
    ensures 0 < |Smaller(stod, clause, rows, b)| < |rows|
  {
    hide Before;
    var s := Smaller(stod, clause, rows, b);
    assert TripleOk(stod, [clause], b, b, b);
    SmallerCount(stod, clause, rows, b, a);
    SmallerCount(stod, clause, rows, b, b);
    assert a in multiset(rows) && b in multiset(rows);
    assert a in multiset(s);
    var others := multiset(rows) - multiset{b};
    forall x
      ensures multiset(s)[x] <= others[x]
    {
      SmallerCount(stod, clause, rows, b, x);
    }
    assert others == multiset(s) + (others - multiset(s));
    assert multiset(rows) == others + multiset{b};
    assert |multiset(rows)| == |rows| && |multiset(s)| == |s|;
  }

  /** Two unlike projections, one on each side of a border. */
  lemma Unlike(columns: seq<string>, rows: seq<Row>, q: seq<Row>, m: nat) returns (i: nat, j: nat)
    requires multiset(q) == multiset(rows) && !AllAlike(columns, rows) && 0 < m < |q|
    ensures i < m <= j < |q| && Projected(columns, q)[i] != Projected(columns, q)[j]
  {
    hide ProjectRow, Projected;
    var a, b :| a in rows && b in rows && ProjectRow(columns, a) != ProjectRow(columns, b);
    assert a in multiset(rows) && b in multiset(rows);
    var x :| 0 <= x < |q| && q[x] == a;
    var y :| 0 <= y < |q| && q[y] == b;
    ProjectedAt(columns, q, x);
    ProjectedAt(columns, q, y);
    var p := Projected(columns, q);
    if x < m {
      i := x;
      j := if y >= m then y else if p[m] != p[x] then m else m;
      if y < m && p[m] == p[x] {
        i := y;
      }
    } else {
      j := x;
      i := if y < m then y else 0;
      if y >= m && p[0] == p[x] {
        j := y;
      }
    }
  }

  lemma SwapKeeps(p: seq<Row>, i: nat, j: nat)
    requires i < j < |p|
    ensures multiset(p[i := p[j]][j := p[i]]) == multiset(p)
  {
  }

  lemma ChangedFront(p: seq<Row>, i: nat, row: Row)
    requires i < |p| && p[i] != row
    ensures multiset(p[i := row]) != multiset(p)
  {
    assert multiset(p[i := row])[row] == multiset(p)[row] + 1;
  }

  /** ORDER BY name over the rows (1, b) and (2, a), with only id selected: the order 1, 2 is a sorted
      order of the projected rows, and not a right answer. */
  lemma DroppedColumnFails(stod: Stod)
    requires stod("a").None? && stod("b").None?
    ensures var rows := [map["id" := "1", "name" := "b"], map["id" := "2", "name" := "a"]];
            var out := [map["id" := "1"], map["id" := "2"]];
            var clause := OrderByClause("name", true);
            && IsSortOf(stod, [clause], Projected(["id"], rows), out)
            && !RightOrder(stod, clause, ["id"], rows, out)
  {
    hide Before, ProjectRow, Projected, InOrder, KeyOf;
    var first, second: Row := map["id" := "1", "name" := "b"], map["id" := "2", "name" := "a"];
    var rows, clause := [first, second], OrderByClause("name", true);
    IdAndName("1", "b");
    IdAndName("2", "a");
    ProjectedAt(["id"], rows, 0);
    ProjectedAt(["id"], rows, 1);
    assert Projected(["id"], rows) == [map["id" := "1"], map["id" := "2"]];
    AnyOrderSorts(stod, clause, ["id"], rows, Projected(["id"], rows));
    assert map["id" := "1"]["id"] != map["id" := "2"]["id"];
    forall q | IsSortOf(stod, [clause], rows, q)
      ensures Projected(["id"], q) != [map["id" := "1"], map["id" := "2"]]
    {
      SecondFirst(stod, clause, first, second, q);
      ProjectedAt(["id"], q, 0);
    }
  }

  /** Whatever sorts two rows with different names has the smaller name in front. */
  lemma SecondFirst(stod: Stod, clause: OrderByClause, first: Row, second: Row, q: seq<Row>)
    requires IsSortOf(stod, [clause], [first, second], q) && first != second
    requires stod("a").None? && stod("b").None? && clause == OrderByClause("name", true)
    requires KeyOf(first, "name") == "b" && KeyOf(second, "name") == "a"
    ensures |q| == 2 && q[0] == second
  {
    hide Before, KeyOf;
    MultisetSize(q, [first, second]);
    assert q[0] in multiset(q) && q[1] in multiset(q);
    assert q == [q[0], q[1]] && multiset(q)[second] == 1;
    assert q[0] == first ==> q[1] == second;
    NamesOrder(stod, clause, second, first);
  }

  lemma IdAndName(id: string, name: string)
    ensures var row: Row := map["id" := id, "name" := name];
      ProjectRow(["id"], row) == map["id" := id] && KeyOf(row, "name") == name
  {
  }

  lemma NamesOrder(stod: Stod, clause: OrderByClause, a: Row, b: Row)
    requires stod("a").None? && stod("b").None? && clause == OrderByClause("name", true)
    requires KeyOf(a, "name") == "a" && KeyOf(b, "name") == "b"
    ensures Before(stod, [clause], a, b)
  {
    BeforeOne(stod, clause, a, b);
  }
}
