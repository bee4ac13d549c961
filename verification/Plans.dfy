/** Lowering a SELECT: from the statement to a logical plan, from there to a physical one. */
module Plans {
  import opened Ast
  import opened Expressions
  import opened HashJoins
  import opened Options
  import opened Queries
  import opened Rows
  import opened SortOrder

  datatype LogicalPlan =
    | Scan(table: string)
    | Filter(child: LogicalPlan, condition: Expr)
    | Projection(child: LogicalPlan, columns: seq<string>)
    | Sort(child: LogicalPlan, orderBy: seq<OrderByClause>)
    | Limit(child: LogicalPlan, count: int)
    | Join(left: LogicalPlan, right: LogicalPlan, leftKey: string, rightKey: string)

  datatype PhysicalPlan =
    | SeqScan(table: string)
    | PhysicalFilter(child: PhysicalPlan, condition: Expr)
    | PhysicalProjection(child: PhysicalPlan, columns: seq<string>)
    | PhysicalSort(child: PhysicalPlan, orderBy: seq<OrderByClause>)
    | PhysicalLimit(child: PhysicalPlan, count: int)
    | HashJoin(build: PhysicalPlan, probe: PhysicalPlan, buildKey: string, probeKey: string)

  // ----- meanings -----

  /** Relational algebra on lists; a table that is not there makes the query an error. */
  function LogicalRows(e: Engine, tables: Tables, p: LogicalPlan): Option<seq<Row>> {
    match p
    case Scan(t) => if t in tables then Some(tables[t]) else None
    case Filter(c, condition) => Mapped(LogicalRows(e, tables, c), rows => Kept(e.stod, condition, rows))
    case Projection(c, columns) => Mapped(LogicalRows(e, tables, c), rows => Projected(columns, rows))
    case Sort(c, orderBy) => Mapped(LogicalRows(e, tables, c), rows => e.sort(orderBy, rows))
    case Limit(c, n) => Mapped(LogicalRows(e, tables, c), rows => Limited(rows, n))
    case Join(l, r, leftKey, rightKey) =>
      match (LogicalRows(e, tables, l), LogicalRows(e, tables, r))
      case (Some(build), Some(probe)) => Some(NestedLoop(build, probe, leftKey, rightKey))
      case _ => None
  }

  function Mapped(rows: Option<seq<Row>>, f: seq<Row> -> seq<Row>): Option<seq<Row>> {
    match rows
    case None => None
    case Some(rs) => Some(f(rs))
  }

  /** What the operators of a physical plan deliver. */
  function PhysicalRows(e: Engine, tables: Tables, p: PhysicalPlan): Option<seq<Row>> {
    match p
    case SeqScan(t) => if t in tables then Some(tables[t]) else None
    case PhysicalFilter(c, condition) => Mapped(PhysicalRows(e, tables, c), rows => Kept(e.stod, condition, rows))
    case PhysicalProjection(c, columns) => Mapped(PhysicalRows(e, tables, c), rows => Projected(columns, rows))
    case PhysicalSort(c, orderBy) => Mapped(PhysicalRows(e, tables, c), rows => e.sort(orderBy, rows))
    case PhysicalLimit(c, n) => Mapped(PhysicalRows(e, tables, c), rows => Limited(rows, n))
    case HashJoin(b, p, buildKey, probeKey) =>
      match (PhysicalRows(e, tables, b), PhysicalRows(e, tables, p))
      case (Some(build), Some(probe)) => Some(HashJoined(Grouped(build, buildKey), probe, probeKey))
      case _ => None
  }

  // ----- lowering -----

  /** Scan, then the filter, the projection, the sort and the limit, as far as there are any. */
  method BuildSelect(stmt: SelectStatement) returns (cur: LogicalPlan)
    ensures cur == SelectPlan(stmt)
  {
    cur := Scan(stmt.table);
    if stmt.where_.Some? {
      cur := Filter(cur, stmt.where_.value);
    }
    cur := Projection(cur, stmt.columns);
    if stmt.orderBy != [] {
      cur := Sort(cur, stmt.orderBy);
    }
    if stmt.limit.Some? {
      cur := Limit(cur, stmt.limit.value);
    }
  }

  function SelectPlan(stmt: SelectStatement): LogicalPlan {
    var scan := Scan(stmt.table);
    var filtered := if stmt.where_.Some? then Filter(scan, stmt.where_.value) else scan;
    var projected := Projection(filtered, stmt.columns);
    var sorted := if stmt.orderBy != [] then Sort(projected, stmt.orderBy) else projected;
    if stmt.limit.Some? then Limit(sorted, stmt.limit.value) else sorted
  }

  function BuildPhysical(p: LogicalPlan): PhysicalPlan {
    match p
    case Scan(t) => SeqScan(t)
    case Filter(c, condition) => PhysicalFilter(BuildPhysical(c), condition)
    case Projection(c, columns) => PhysicalProjection(BuildPhysical(c), columns)
    case Sort(c, orderBy) => PhysicalSort(BuildPhysical(c), orderBy)
    case Limit(c, n) => PhysicalLimit(BuildPhysical(c), n)
    case Join(l, r, leftKey, rightKey) => HashJoin(BuildPhysical(l), BuildPhysical(r), leftKey, rightKey)
  }

  /** Choosing physical operators keeps the meaning, hash joins included. */
  lemma {:induction false} LoweringKeepsMeaning(e: Engine, tables: Tables, p: LogicalPlan)
    ensures PhysicalRows(e, tables, BuildPhysical(p)) == LogicalRows(e, tables, p)
  {
    match p
    case Scan(t) =>
    case Filter(c, condition) => LoweringKeepsMeaning(e, tables, c);
    case Projection(c, columns) => LoweringKeepsMeaning(e, tables, c);
    case Sort(c, orderBy) => LoweringKeepsMeaning(e, tables, c);
    case Limit(c, n) => LoweringKeepsMeaning(e, tables, c);
    case Join(l, r, leftKey, rightKey) =>
      LoweringKeepsMeaning(e, tables, l);
      LoweringKeepsMeaning(e, tables, r);
      var build, probe := LogicalRows(e, tables, l), LogicalRows(e, tables, r);
      if build.Some? && probe.Some? {
        HashJoinIsNestedLoop(build.value, probe.value, leftKey, rightKey);
      }
  }

  /** What a join plan delivers: every left row joined with every right row that agrees with it on the
      keys, and no other row. */
  lemma JoinDelivers(e: Engine, tables: Tables, l: PhysicalPlan, r: PhysicalPlan, leftKey: string, rightKey: string,
                     row: Row)
    ensures var rows := PhysicalRows(e, tables, HashJoin(l, r, leftKey, rightKey));
      var left, right := PhysicalRows(e, tables, l), PhysicalRows(e, tables, r);
      && (rows.Some? <==> left.Some? && right.Some?)
      && (rows.Some? ==>
            (row in rows.value <==>
             exists i, j :: 0 <= i < |left.value| && 0 <= j < |right.value| &&
                            Pairs(left.value[i], leftKey, right.value[j], rightKey, row)))
  {
    hide Pairs, NestedLoop, HashJoined, Grouped;
    var left, right := PhysicalRows(e, tables, l), PhysicalRows(e, tables, r);
    if left.Some? && right.Some? {
      HashJoinIsNestedLoop(left.value, right.value, leftKey, rightKey);
      JoinedIff(left.value, right.value, leftKey, rightKey, row);
    }
  }

  // ----- what a SELECT answers -----

  function WhereRows(e: Engine, stmt: SelectStatement, rows: seq<Row>): seq<Row> {
    if stmt.where_.Some? then Kept(e.stod, stmt.where_.value, rows) else rows
  }

  function LimitOr(stmt: SelectStatement, rows: seq<Row>): seq<Row> {
    if stmt.limit.Some? then Limited(rows, stmt.limit.value) else rows
  }

  /** Lowering twice: the rows are limit(sort(project(filter(rows)))). */
  lemma SelectIsPipeline(e: Engine, tables: Tables, stmt: SelectStatement)
    ensures PhysicalRows(e, tables, BuildPhysical(SelectPlan(stmt))) ==
      if stmt.table !in tables then None
      else
        var projected := Projected(stmt.columns, WhereRows(e, stmt, tables[stmt.table]));
        Some(LimitOr(stmt, if stmt.orderBy == [] then projected else e.sort(stmt.orderBy, projected)))
  {
    hide Kept, Projected, Limited, PhysicalRows;
    LoweringKeepsMeaning(e, tables, SelectPlan(stmt));
    var scan := Scan(stmt.table);
    var filtered := if stmt.where_.Some? then Filter(scan, stmt.where_.value) else scan;
    var projected := Projection(filtered, stmt.columns);
    assert LogicalRows(e, tables, filtered) ==
           if stmt.table in tables then Some(WhereRows(e, stmt, tables[stmt.table])) else None;
    assert LogicalRows(e, tables, projected) ==
           Mapped(LogicalRows(e, tables, filtered), rows => Projected(stmt.columns, rows));
    if stmt.orderBy != [] {
      assert LogicalRows(e, tables, Sort(projected, stmt.orderBy)) ==
             Mapped(LogicalRows(e, tables, projected), rows => e.sort(stmt.orderBy, rows));
    }
  }

  /** When the ORDER BY columns are kept by the projection and comparable, the result is a right
      answer under filter, sort, project, limit, although the plan projects before it sorts. */
  lemma SelectAnswers(e: Engine, tables: Tables, stmt: SelectStatement)
    requires stmt.table in tables && SortWorks(e)
    requires stmt.orderBy != [] && Keeps(stmt.columns, stmt.orderBy)
    requires forall cl :: cl in stmt.orderBy ==>
               Comparable(e.stod, Column(WhereRows(e, stmt, tables[stmt.table]), cl.column))
    ensures var rows := PhysicalRows(e, tables, BuildPhysical(SelectPlan(stmt)));
            rows.Some? && Answers(e.stod, WhereRows(e, stmt, tables[stmt.table]), stmt.orderBy, stmt.columns,
                                  if stmt.limit.Some? then stmt.limit.value else |tables[stmt.table]|, rows.value)
  {
    hide Kept, Projected, Comparable, Answers, Evaluate, Before, SelectPlan, BuildPhysical, PhysicalRows;
    SelectIsPipeline(e, tables, stmt);
    var filtered := WhereRows(e, stmt, tables[stmt.table]);
    var n := if stmt.limit.Some? then stmt.limit.value else |tables[stmt.table]|;
    SortAfterProject(e, filtered, stmt.orderBy, stmt.columns, n);
    if stmt.limit.None? {
      KeptShorter(e, stmt, tables[stmt.table]);
      SortedLength(e, filtered, stmt.orderBy, stmt.columns);
    }
  }

  /** In the plain cases, each ORDER BY column all numbers without NaN or all texts that are none, that
      is always so. */
  lemma UniformAnswers(e: Engine, tables: Tables, stmt: SelectStatement)
    requires stmt.table in tables && SortWorks(e)
    requires stmt.orderBy != [] && Keeps(stmt.columns, stmt.orderBy)
    requires forall cl :: cl in stmt.orderBy ==> Uniform(e.stod, Column(WhereRows(e, stmt, tables[stmt.table]), cl.column))
    ensures var rows := PhysicalRows(e, tables, BuildPhysical(SelectPlan(stmt)));
            rows.Some? && Answers(e.stod, WhereRows(e, stmt, tables[stmt.table]), stmt.orderBy, stmt.columns,
                                  if stmt.limit.Some? then stmt.limit.value else |tables[stmt.table]|, rows.value)
  {
    hide Comparable, Uniform, Answers, SelectPlan, BuildPhysical, PhysicalRows, WhereRows, Column;
    forall cl | cl in stmt.orderBy
      ensures Comparable(e.stod, Column(WhereRows(e, stmt, tables[stmt.table]), cl.column))
    {
      UniformIsComparable(e.stod, Column(WhereRows(e, stmt, tables[stmt.table]), cl.column));
    }
    SelectAnswers(e, tables, stmt);
  }

  lemma {:induction false} KeptLength(stod: Stod, condition: Expr, rows: seq<Row>)
    ensures |Kept(stod, condition, rows)| <= |rows|
  {
    hide Evaluate;
    if rows != [] {
      KeptLength(stod, condition, rows[1..]);
    }
  }

  lemma KeptShorter(e: Engine, stmt: SelectStatement, rows: seq<Row>)
    ensures |WhereRows(e, stmt, rows)| <= |rows|
  {
    if stmt.where_.Some? {
      KeptLength(e.stod, stmt.where_.value, rows);
    }
  }

  lemma SortedLength(e: Engine, filtered: seq<Row>, clauses: seq<OrderByClause>, columns: seq<string>)
    requires SortWorks(e) && Keeps(columns, clauses)
    requires forall cl :: cl in clauses ==> Comparable(e.stod, Column(filtered, cl.column))
    ensures |e.sort(clauses, Projected(columns, filtered))| == |filtered|
  {
    hide Comparable, ProjectRow, StrictWeakOn, Before, InOrder;
    var p := Projected(columns, filtered);
    forall cl | cl in clauses ensures Comparable(e.stod, Column(p, cl.column)) {
      ColumnOfProjected(columns, filtered, cl.column);
    }
    RowsStrictWeak(e.stod, clauses, p);
    assert IsSortOf(e.stod, clauses, p, e.sort(clauses, p));
    MultisetSize(e.sort(clauses, p), p);
  }
}
