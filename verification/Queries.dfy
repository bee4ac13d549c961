/** What filtering, projecting, sorting, limiting and joining mean on lists of rows. */
module Queries {
  import opened Ast
  import opened Expressions
  import opened Options
  import opened Rows
  import opened SortOrder

  /** std::stod and std::sort, as functions. */
  datatype Engine = Engine(stod: Stod, sort: (seq<OrderByClause>, seq<Row>) -> seq<Row>)

  function Kept(stod: Stod, predicate_: Expr, rows: seq<Row>): seq<Row> {
    if rows == [] then []
    else if Evaluate(stod, predicate_, rows[0]) then [rows[0]] + Kept(stod, predicate_, rows[1..])
    else Kept(stod, predicate_, rows[1..])
  }

  /** "*" alone keeps the row; otherwise the listed columns that the row has. */
  function ProjectRow(columns: seq<string>, row: Row): Row {
    if columns == ["*"] then row else map c | c in columns && c in row :: row[c]
  }

  function Projected(columns: seq<string>, rows: seq<Row>): (r: seq<Row>)
    ensures |r| == |rows|
  {
    if rows == [] then [] else [ProjectRow(columns, rows[0])] + Projected(columns, rows[1..])
  }

  /** The first n rows, none when n is negative. */
  function Limited(rows: seq<Row>, n: int): seq<Row> {
    if n <= 0 then [] else if n < |rows| then rows[..n] else rows
  }

  // ----- joins -----

  predicate Agree(buildKey: string, b: Row, probeKey: string, p: Row) {
    buildKey in b && probeKey in p && b[buildKey] == p[probeKey]
  }

  /** The inner loop: build rows in order; on a clash of names the probe row's value stays. */
  function MatchesOf(build: seq<Row>, buildKey: string, probeKey: string, p: Row): seq<Row> {
    if build == [] then []
    else if Agree(buildKey, build[0], probeKey, p) then
      [build[0] + p] + MatchesOf(build[1..], buildKey, probeKey, p)
    else MatchesOf(build[1..], buildKey, probeKey, p)
  }

  /** The outer loop: probe rows in order. */
  function NestedLoop(build: seq<Row>, probe: seq<Row>, buildKey: string, probeKey: string): seq<Row> {
    if probe == [] then []
    else MatchesOf(build, buildKey, probeKey, probe[0]) + NestedLoop(build, probe[1..], buildKey, probeKey)
  }

  // ----- sorting -----

  ghost predicate InOrder(stod: Stod, clauses: seq<OrderByClause>, rows: seq<Row>) {
    forall i, j :: 0 <= i < j < |rows| ==> !Before(stod, clauses, rows[j], rows[i])
  }

  ghost predicate IsSortOf(stod: Stod, clauses: seq<OrderByClause>, rows: seq<Row>, out: seq<Row>) {
    multiset(out) == multiset(rows) && InOrder(stod, clauses, out)
  }

  /** std::sort's promise: given a strict weak order, some sorted permutation. */
  ghost predicate SortWorks(e: Engine) {
    forall clauses, rows {:trigger e.sort(clauses, rows)} ::
      StrictWeakOn(e.stod, clauses, rows) ==> IsSortOf(e.stod, clauses, rows, e.sort(clauses, rows))
  }

  /** In a sorted list rows that tie on the first i columns stand in the direction of clause i. */
  lemma InDirection(stod: Stod, clauses: seq<OrderByClause>, rows: seq<Row>, p: nat, q: nat, i: nat)
    requires InOrder(stod, clauses, rows) && p < q < |rows| && i < |clauses|
    requires forall j :: 0 <= j < i ==> Cmp(stod, clauses[j], rows[p], rows[q]) == 0
    ensures if clauses[i].ascending then Cmp(stod, clauses[i], rows[p], rows[q]) <= 0
            else Cmp(stod, clauses[i], rows[p], rows[q]) >= 0
  {
    hide CompareKeys, Before;
    forall j | 0 <= j <= i
      ensures Cmp(stod, clauses[j], rows[q], rows[p]) == -Cmp(stod, clauses[j], rows[p], rows[q])
    {
      CompareFlips(stod, KeyOf(rows[p], clauses[j].column), KeyOf(rows[q], clauses[j].column));
    }
    BeforeIff(stod, clauses, rows[q], rows[p]);
    assert !DecidedAt(stod, clauses, rows[q], rows[p], i);
  }

  // ----- which rows, which columns -----

  /** A filter keeps the order of the rows it lets through. */
  lemma {:induction false} KeptConcat(stod: Stod, c: Expr, a: seq<Row>, b: seq<Row>)
    ensures Kept(stod, c, a + b) == Kept(stod, c, a) + Kept(stod, c, b)
  {
    hide Evaluate;
    if a == [] {
      assert a + b == b;
    } else {
      KeptConcat(stod, c, a[1..], b);
      assert (a + b)[1..] == a[1..] + b;
    }
  }

  /** And keeps each row as often as it was there, or not at all. */
  lemma {:induction false} KeptCount(stod: Stod, c: Expr, rows: seq<Row>, row: Row)
    ensures multiset(Kept(stod, c, rows))[row] == if Evaluate(stod, c, row) then multiset(rows)[row] else 0
  {
    hide Evaluate;
    if rows != [] {
      KeptCount(stod, c, rows[1..], row);
      assert rows == [rows[0]] + rows[1..];
    }
  }

  /** A listed column other than "*" is in the projected row iff the row has it, with its value. */
  lemma ProjectedColumn(columns: seq<string>, row: Row, c: string)
    requires columns != ["*"]
    ensures c in ProjectRow(columns, row) <==> c in columns && c in row
    ensures c in ProjectRow(columns, row) ==> ProjectRow(columns, row)[c] == row[c]
    ensures ProjectRow(["*"], row) == row
  {
  }

  /** LIMIT n delivers the first rows, as many as there are up to n. */
  lemma LimitedFirst(rows: seq<Row>, n: int)
    ensures Limited(rows, n) <= rows
    ensures |Limited(rows, n)| == if n <= 0 then 0 else if n < |rows| then n else |rows|
  {
  }

  /** The joined row has the columns of both, and the probe row's value where both have one. */
  ghost predicate Joins(joined: Row, b: Row, p: Row) {
    && (forall c :: c in joined <==> c in b || c in p)
    && (forall c :: c in p ==> c in joined && joined[c] == p[c])
    && (forall c :: c in b && c !in p ==> c in joined && joined[c] == b[c])
  }

  /** The matches of one probe row, in build order: each build row that agrees on the keys, joined
      with it, and no other. */
  lemma {:induction false} MatchesExactly(a: seq<Row>, b: seq<Row>, buildKey: string, probeKey: string, p: Row)
    ensures MatchesOf(a + b, buildKey, probeKey, p) ==
            MatchesOf(a, buildKey, probeKey, p) + MatchesOf(b, buildKey, probeKey, p)
    ensures |a| == 1 ==>
      var hits := MatchesOf(a, buildKey, probeKey, p);
      if buildKey in a[0] && probeKey in p && a[0][buildKey] == p[probeKey]
      then |hits| == 1 && Joins(hits[0], a[0], p)
      else hits == []
  {
    if a == [] {
      assert a + b == b;
    } else {
      MatchesExactly(a[1..], b, buildKey, probeKey, p);
      assert (a + b)[1..] == a[1..] + b;
    }
  }

  /** The join takes the probe rows in order. */
  lemma {:induction false} JoinExactly(build: seq<Row>, a: seq<Row>, b: seq<Row>, buildKey: string, probeKey: string)
    ensures NestedLoop(build, a + b, buildKey, probeKey) ==
            NestedLoop(build, a, buildKey, probeKey) + NestedLoop(build, b, buildKey, probeKey)
    ensures |a| == 1 ==> NestedLoop(build, a, buildKey, probeKey) == MatchesOf(build, buildKey, probeKey, a[0])
  {
    hide MatchesOf;
    if a == [] {
      assert a + b == b;
    } else {
      JoinExactly(build, a[1..], b, buildKey, probeKey);
      assert (a + b)[1..] == a[1..] + b;
    }
  }

  /** So a row is in the join iff it joins a build row and a probe row that agree on the keys. */
  lemma {:induction false} JoinedIff(build: seq<Row>, probe: seq<Row>, buildKey: string, probeKey: string, r: Row)
    ensures r in NestedLoop(build, probe, buildKey, probeKey) <==>
            exists i, j :: 0 <= i < |build| && 0 <= j < |probe| && Pairs(build[i], buildKey, probe[j], probeKey, r)
  {
    hide MatchesOf, Pairs;
    if probe != [] {
      var rest := probe[1..];
      JoinedIff(build, rest, buildKey, probeKey, r);
      MatchedIff(build, buildKey, probeKey, probe[0], r);
      if i, j :| 0 <= i < |build| && 0 <= j < |rest| && Pairs(build[i], buildKey, rest[j], probeKey, r) {
        assert Pairs(build[i], buildKey, probe[j + 1], probeKey, r);
      }
      if i, j :| 0 <= i < |build| && 0 <= j < |probe| && Pairs(build[i], buildKey, probe[j], probeKey, r) {
        if j > 0 {
          assert Pairs(build[i], buildKey, rest[j - 1], probeKey, r);
        }
      }
    }
  }

  ghost predicate Pairs(b: Row, buildKey: string, p: Row, probeKey: string, r: Row) {
    buildKey in b && probeKey in p && b[buildKey] == p[probeKey] && Joins(r, b, p)
  }

  lemma {:induction false} MatchedIff(build: seq<Row>, buildKey: string, probeKey: string, p: Row, r: Row)
    ensures r in MatchesOf(build, buildKey, probeKey, p) <==>
            exists i :: 0 <= i < |build| && Pairs(build[i], buildKey, p, probeKey, r)
  {
    hide Pairs;
    if build != [] {
      var rest := build[1..];
      MatchedIff(rest, buildKey, probeKey, p, r);
      FirstMatched(build[0], rest, buildKey, probeKey, p, r);
      if i :| 0 <= i < |rest| && Pairs(rest[i], buildKey, p, probeKey, r) {
        assert Pairs(build[i + 1], buildKey, p, probeKey, r);
      }
      if i :| 0 <= i < |build| && Pairs(build[i], buildKey, p, probeKey, r) {
        if i > 0 {
          assert Pairs(rest[i - 1], buildKey, p, probeKey, r);
        }
      }
    }
  }

  lemma FirstMatched(b: Row, rest: seq<Row>, buildKey: string, probeKey: string, p: Row, r: Row)
    ensures r in MatchesOf([b] + rest, buildKey, probeKey, p) <==>
            Pairs(b, buildKey, p, probeKey, r) || r in MatchesOf(rest, buildKey, probeKey, p)
  {
    assert ([b] + rest)[1..] == rest;
    if Pairs(b, buildKey, p, probeKey, r) {
      assert r == b + p;
    }
  }

  // ----- sorting after projecting -----

  predicate Keeps(columns: seq<string>, clauses: seq<OrderByClause>) {
    columns == ["*"] || forall cl :: cl in clauses ==> cl.column in columns
  }

  lemma {:induction false} ProjectedAt(columns: seq<string>, rows: seq<Row>, i: nat)
    requires i < |rows|
    ensures Projected(columns, rows)[i] == ProjectRow(columns, rows[i])
  {
    hide ProjectRow;
    if i > 0 {
      ProjectedAt(columns, rows[1..], i - 1);
    }
  }

  /** A projection that keeps the ORDER BY columns keeps the comparator's verdict. */
  lemma {:induction false} ProjectionKeepsOrder(stod: Stod, columns: seq<string>, clauses: seq<OrderByClause>, a: Row, b: Row)
    requires Keeps(columns, clauses)
    ensures Before(stod, clauses, ProjectRow(columns, a), ProjectRow(columns, b)) == Before(stod, clauses, a, b)
    decreases |clauses|
  {
    hide CompareKeys;
    if clauses != [] {
      ProjectionKeepsOrder(stod, columns, clauses[1..], a, b);
      assert columns == ["*"] || clauses[0].column in columns;
    }
  }

  /** Any reordering of the projected rows comes from a reordering of the rows. */
  lemma {:induction false} Unproject(columns: seq<string>, rows: seq<Row>, out: seq<Row>) returns (q: seq<Row>)
    requires multiset(out) == multiset(Projected(columns, rows))
    ensures multiset(q) == multiset(rows) && Projected(columns, q) == out
    decreases |out|
  {
    hide ProjectRow, Projected;
    var p := Projected(columns, rows);
    MultisetSize(out, p);
    if out == [] {
      q := [];
      assert Projected(columns, q) == [];
    } else {
      assert out[0] in multiset(p);
      var i :| 0 <= i < |p| && p[i] == out[0];
      ProjectedAt(columns, rows, i);
      DropBoth(columns, rows, i);
      WithoutFirst(out);
      var rest := Unproject(columns, rows[..i] + rows[i + 1..], out[1..]);
      q := [rows[i]] + rest;
      ProjectedCons(columns, rows[i], rest);
      PutBack(rows, i, rest);
      assert out == [out[0]] + out[1..];
    }
  }

  lemma WithoutFirst(out: seq<Row>)
    requires out != []
    ensures multiset(out[1..]) == multiset(out) - multiset{out[0]}
  {
    assert out == [out[0]] + out[1..];
  }

  lemma PutBack(rows: seq<Row>, i: nat, rest: seq<Row>)
    requires i < |rows| && multiset(rest) == multiset(rows[..i] + rows[i + 1..])
    ensures multiset([rows[i]] + rest) == multiset(rows)
  {
    assert rows == rows[..i] + [rows[i]] + rows[i + 1..];
  }

  lemma MultisetSize(a: seq<Row>, b: seq<Row>)
    requires multiset(a) == multiset(b)
    ensures |a| == |b|
  {
    assert |a| == |multiset(a)| && |b| == |multiset(b)|;
  }

  lemma ProjectedCons(columns: seq<string>, row: Row, rest: seq<Row>)
    ensures Projected(columns, [row] + rest) == [ProjectRow(columns, row)] + Projected(columns, rest)
  {
    assert ([row] + rest)[1..] == rest;
  }

  lemma {:induction false} ProjectedConcat(columns: seq<string>, a: seq<Row>, b: seq<Row>)
    ensures Projected(columns, a + b) == Projected(columns, a) + Projected(columns, b)
  {
    hide ProjectRow, Projected;
    if a == [] {
      assert a + b == b && Projected(columns, a) == [];
    } else {
      ProjectedConcat(columns, a[1..], b);
      ProjectedCons(columns, a[0], a[1..]);
      ProjectedCons(columns, a[0], a[1..] + b);
      assert a == [a[0]] + a[1..] && a + b == [a[0]] + (a[1..] + b);
    }
  }

  lemma DropBoth(columns: seq<string>, rows: seq<Row>, i: nat)
    requires i < |rows|
    ensures multiset(Projected(columns, rows[..i] + rows[i + 1..])) ==
            multiset(Projected(columns, rows)) - multiset{ProjectRow(columns, rows[i])}
  {
    hide ProjectRow;
    var a, b := rows[..i], rows[i + 1..];
    assert rows == a + ([rows[i]] + b);
    ProjectedConcat(columns, a, [rows[i]] + b);
    ProjectedConcat(columns, [rows[i]], b);
    ProjectedConcat(columns, a, b);
    assert [rows[i]][1..] == [];
    assert Projected(columns, [rows[i]]) == [ProjectRow(columns, rows[i])];
  }

  /** The rows in answer to filter, sort, project, limit, in the order SQL gives them. */
  ghost predicate Answers(stod: Stod, filtered: seq<Row>, clauses: seq<OrderByClause>, columns: seq<string>, n: int,
                          result: seq<Row>) {
    exists q :: IsSortOf(stod, clauses, filtered, q) && result == Limited(Projected(columns, q), n)
  }

  lemma ColumnOfProjected(columns: seq<string>, rows: seq<Row>, column: string)
    requires columns == ["*"] || column in columns
    ensures Column(Projected(columns, rows), column) == Column(rows, column)
  {
    var p := Projected(columns, rows);
    forall k ensures k in Column(p, column) <==> k in Column(rows, column) {
      if k in Column(p, column) {
        var row :| row in p && KeyOf(row, column) == k;
        var i :| 0 <= i < |p| && p[i] == row;
        ProjectedAt(columns, rows, i);
        assert rows[i] in rows;
      }
      if k in Column(rows, column) {
        var row :| row in rows && KeyOf(row, column) == k;
        var i :| 0 <= i < |rows| && rows[i] == row;
        ProjectedAt(columns, rows, i);
        assert p[i] in p;
      }
    }
  }

  /** Sorting the projected rows answers the query when the projection keeps the ORDER BY
      columns and each of them is comparable. */
  lemma SortAfterProject(e: Engine, filtered: seq<Row>, clauses: seq<OrderByClause>, columns: seq<string>, n: int)
    requires SortWorks(e) && Keeps(columns, clauses)
    requires forall cl :: cl in clauses ==> Comparable(e.stod, Column(filtered, cl.column))
    ensures Answers(e.stod, filtered, clauses, columns, n, Limited(e.sort(clauses, Projected(columns, filtered)), n))
  {
    hide Comparable, Limited, ProjectRow, StrictWeakOn, Before;
    var p := Projected(columns, filtered);
    forall cl | cl in clauses ensures Comparable(e.stod, Column(p, cl.column)) {
      ColumnOfProjected(columns, filtered, cl.column);
    }
    RowsStrictWeak(e.stod, clauses, p);
    var out := e.sort(clauses, p);
    var q := Unproject(columns, filtered, out);
    forall i, j | 0 <= i < j < |q| ensures !Before(e.stod, clauses, q[j], q[i]) {
      ProjectedAt(columns, q, i);
      ProjectedAt(columns, q, j);
      ProjectionKeepsOrder(e.stod, columns, clauses, q[j], q[i]);
    }
    assert IsSortOf(e.stod, clauses, filtered, q);
  }
}
