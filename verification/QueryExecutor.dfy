/** Running a SELECT: building the operators of a physical plan and draining them. */
module QueryExecutor {
  import opened Ast
  import opened Expressions
  import opened HashJoins
  import opened Operators
  import opened Options
  import opened Plans
  import opened Queries
  import opened Rows

  /** The operator tree has the plan's shape and reads the plan's tables. */
  ghost predicate Mirrors(e: Engine, tables: Tables, plan: PhysicalPlan, op: OperatorRef)
    requires Wired(op)
    decreases plan
  {
    match plan
    case SeqScan(t) => op.ScanRef? && t in tables && op.scan.rows == tables[t]
    case PhysicalFilter(c, condition) =>
      op.FilterRef? && op.filter.e == e && op.filter.condition == condition && Mirrors(e, tables, c, op.filter.child)
    case PhysicalProjection(c, columns) =>
      op.ProjectionRef? && op.projection.columns == columns && Mirrors(e, tables, c, op.projection.child)
    case PhysicalSort(c, orderBy) =>
      op.SortRef? && op.sort.e == e && op.sort.orderBy == orderBy && Mirrors(e, tables, c, op.sort.child)
    case PhysicalLimit(c, n) => op.LimitRef? && op.limit.count == n && Mirrors(e, tables, c, op.limit.child)
    case HashJoin(b, p, buildKey, probeKey) =>
      && op.JoinRef? && op.join.buildKey == buildKey && op.join.probeKey == probeKey
      && Mirrors(e, tables, b, op.join.build) && Mirrors(e, tables, p, op.join.probe)
  }

  lemma {:induction false} MirrorsDelivers(e: Engine, tables: Tables, plan: PhysicalPlan, op: OperatorRef)
    requires Wired(op) && Mirrors(e, tables, plan, op)
    ensures PhysicalRows(e, tables, plan) == Some(All(op))
    decreases plan
  {
    match plan
    case SeqScan(_) =>
    case PhysicalFilter(c, _) => MirrorsDelivers(e, tables, c, op.filter.child);
    case PhysicalProjection(c, _) => MirrorsDelivers(e, tables, c, op.projection.child);
    case PhysicalSort(c, _) => MirrorsDelivers(e, tables, c, op.sort.child);
    case PhysicalLimit(c, _) => MirrorsDelivers(e, tables, c, op.limit.child);
    case HashJoin(b, p, _, _) =>
      MirrorsDelivers(e, tables, b, op.join.build);
      MirrorsDelivers(e, tables, p, op.join.probe);
  }

  class Executor {
    const storage: TableStorage
    const e: Engine

    constructor (storage: TableStorage, e: Engine)
      ensures this.storage == storage && this.e == e
    {
      this.storage := storage;
      this.e := e;
    }

    /** Operators all the way down; no result when a table is not there. */
    method Build(plan: PhysicalPlan) returns (op: Option<OperatorRef>)
      ensures op.Some? <==> PhysicalRows(e, storage.tables, plan).Some?
      ensures op.Some? ==> Wired(op.value) && fresh(Repr(op.value)) && Mirrors(e, storage.tables, plan, op.value)
      decreases plan
    {
      match plan
      case SeqScan(t) =>
        if t !in storage.tables {
          return None;
        }
        var scan := new Operators.SeqScan(storage.tables[t]);
        return Some(ScanRef(scan));
      case HashJoin(b, p, buildKey, probeKey) =>
        op := BuildJoin(b, p, buildKey, probeKey);
      case _ =>
        var child := Build(plan.child);
        if child.None? {
          return None;
        }
        op := BuildOver(plan, child.value);
    }

    /** An operator with one child. */
    method BuildOver(plan: PhysicalPlan, child: OperatorRef) returns (op: Option<OperatorRef>)
      requires !plan.SeqScan? && !plan.HashJoin?
      requires Wired(child) && Mirrors(e, storage.tables, plan.child, child)
      ensures op.Some? && Wired(op.value) && fresh(Repr(op.value) - Repr(child))
      ensures Mirrors(e, storage.tables, plan, op.value)
    {
      hide Wired;
      match plan
      case PhysicalFilter(_, condition) =>
        var filter := new Operators.Filter(e, child, condition);
        op := Some(FilterRef(filter));
      case PhysicalProjection(_, columns) =>
        var projection := new Operators.Projection(child, columns);
        op := Some(ProjectionRef(projection));
      case PhysicalSort(_, orderBy) =>
        var sort := new Operators.Sort(e, child, orderBy);
        op := Some(SortRef(sort));
      case PhysicalLimit(_, n) =>
        var limit := new Operators.Limit(child, n);
        op := Some(LimitRef(limit));
    }

    method BuildJoin(b: PhysicalPlan, p: PhysicalPlan, buildKey: string, probeKey: string) returns (op: Option<OperatorRef>)
      ensures op.Some? <==> PhysicalRows(e, storage.tables, HashJoin(b, p, buildKey, probeKey)).Some?
      ensures op.Some? ==> Wired(op.value) && fresh(Repr(op.value))
      ensures op.Some? ==> Mirrors(e, storage.tables, HashJoin(b, p, buildKey, probeKey), op.value)
      decreases HashJoin(b, p, buildKey, probeKey), 0
    {
      hide Wired;
      var build := Build(b);
      if build.None? {
        return None;
      }
      var probe := Build(p);
      if probe.None? {
        return None;
      }
      var join := new Operators.HashJoin(build.value, probe.value, buildKey, probeKey);
      return Some(JoinRef(join));
    }

    /** Builds, opens and drains: the rows the plan stands for, or an error when a table is not
        there. A limit over a chain leaves the scan just past the last row it needed. */
    method Execute(plan: PhysicalPlan) returns (results: Option<seq<Row>>, ghost root: Option<OperatorRef>)
      ensures results == PhysicalRows(e, storage.tables, plan)
      ensures root.Some? <==> results.Some?
      ensures root.Some? ==> Wired(root.value) && Mirrors(e, storage.tables, plan, root.value)
      ensures root.Some? && LimitedChain(root.value) ==>
        var child := root.value.limit.child;
        Spot(root.value) == PastNth(child, Source(child), root.value.limit.count)
    {
      hide Wired, Mirrors, PhysicalRows, LimitedChain, Spot, PastNth, Source;
      var op := Build(plan);
      root := op;
      if op.None? {
        return None, None;
      }
      MirrorsDelivers(e, storage.tables, plan, op.value);
      Start(op.value);
      var rows := Drain(op.value);
      return Some(rows), op;
    }

    /** toLogical, toPhysical, execute. */
    method RunSelect(stmt: SelectStatement) returns (results: Option<seq<Row>>)
      ensures results.Some? <==> stmt.table in storage.tables
      ensures results.Some? ==>
        var projected := Projected(stmt.columns, WhereRows(e, stmt, storage.tables[stmt.table]));
        results.value == LimitOr(stmt, if stmt.orderBy == [] then projected else e.sort(stmt.orderBy, projected))
    {
      hide PhysicalRows, BuildPhysical, SelectPlan;
      var plan := BuildSelect(stmt);
      SelectIsPipeline(e, storage.tables, stmt);
      ghost var root;
      results, root := Execute(BuildPhysical(plan));
    }
  }

  // ----- how far a LIMIT reads -----

  /** The table rows a SELECT without ORDER BY still has before it after its limit is full. */
  ghost function AfterLimit(e: Engine, tables: Tables, stmt: SelectStatement, op: OperatorRef): seq<Row>
    requires stmt.limit.Some? && stmt.orderBy == []
    requires Wired(op) && Mirrors(e, tables, BuildPhysical(SelectPlan(stmt)), op)
  {
    SelectIsChain(e, tables, stmt, op);
    PastNth(op.limit.child, Source(op.limit.child), op.limit.count)
  }

  lemma SelectIsChain(e: Engine, tables: Tables, stmt: SelectStatement, op: OperatorRef)
    requires stmt.limit.Some? && stmt.orderBy == []
    requires Wired(op) && Mirrors(e, tables, BuildPhysical(SelectPlan(stmt)), op)
    ensures LimitedChain(op) && op.limit.count == stmt.limit.value && Wired(op.limit.child) && Chain(op.limit.child)
    ensures stmt.table in tables && Source(op.limit.child) == tables[stmt.table]
    ensures forall row :: Through(op.limit.child, row).Some? <==> Matches(e.stod, stmt.where_, row)
  {
    hide Evaluate, BuildPhysical, SelectPlan;
    SelectShape(stmt);
    var scan := SeqScan(stmt.table);
    var below := if stmt.where_.Some? then PhysicalFilter(scan, stmt.where_.value) else scan;
    var projection := op.limit.child;
    assert Mirrors(e, tables, PhysicalProjection(below, stmt.columns), projection);
    var filtered := projection.projection.child;
    assert Mirrors(e, tables, below, filtered);
    if stmt.where_.Some? {
      assert filtered.FilterRef? && Wired(filtered);
      var bottom := filtered.filter.child;
      assert Wired(bottom);
      assert Mirrors(e, tables, scan, bottom);
      assert Source(bottom) == tables[stmt.table] && Chain(bottom);
    }
    assert Chain(filtered) && Source(filtered) == tables[stmt.table];
    assert forall row :: Through(filtered, row).Some? <==> Matches(e.stod, stmt.where_, row);
  }

  lemma SelectShape(stmt: SelectStatement)
    requires stmt.limit.Some? && stmt.orderBy == []
    ensures var scan := SeqScan(stmt.table);
            var below := if stmt.where_.Some? then PhysicalFilter(scan, stmt.where_.value) else scan;
            BuildPhysical(SelectPlan(stmt)) == PhysicalLimit(PhysicalProjection(below, stmt.columns), stmt.limit.value)
  {
    var scan := Scan(stmt.table);
    var below := if stmt.where_.Some? then Filter(scan, stmt.where_.value) else scan;
    var projected := Projection(below, stmt.columns);
    assert SelectPlan(stmt) == Limit(projected, stmt.limit.value);
    assert BuildPhysical(Limit(projected, stmt.limit.value)) == PhysicalLimit(BuildPhysical(projected), stmt.limit.value);
    assert BuildPhysical(projected) == PhysicalProjection(BuildPhysical(below), stmt.columns);
    assert BuildPhysical(scan) == SeqScan(stmt.table);
  }

  lemma WhereStep(e: Engine, stmt: SelectStatement, rows: seq<Row>)
    ensures rows == [] ==> WhereRows(e, stmt, rows) == []
    ensures rows != [] ==>
      WhereRows(e, stmt, rows) ==
      (if Matches(e.stod, stmt.where_, rows[0]) then [rows[0]] else []) + WhereRows(e, stmt, rows[1..])
  {
  }

  lemma {:induction false} DeliveredCount(op: OperatorRef, e: Engine, stmt: SelectStatement, rows: seq<Row>)
    requires Wired(op) && Chain(op) && forall row :: Through(op, row).Some? <==> Matches(e.stod, stmt.where_, row)
    ensures |Delivered(op, rows)| == |WhereRows(e, stmt, rows)|
    decreases |rows|
  {
    hide Wired, Chain, Through, Matches, WhereRows;
    WhereStep(e, stmt, rows);
    if rows != [] {
      DeliveredCount(op, e, stmt, rows[1..]);
    }
  }

  /** Without ORDER BY: LIMIT 0 (or less) reads nothing, a limit that is filled stops just past
      the row that fills it, and one that is not reads the whole table. */
  lemma LimitReads(e: Engine, tables: Tables, stmt: SelectStatement, op: OperatorRef) returns (k: nat)
    requires stmt.limit.Some? && stmt.orderBy == [] && stmt.table in tables
    requires Wired(op) && Mirrors(e, tables, BuildPhysical(SelectPlan(stmt)), op)
    ensures var rows, n := tables[stmt.table], stmt.limit.value;
            && k <= |rows| && AfterLimit(e, tables, stmt, op) == rows[k..]
            && (n <= 0 ==> k == 0)
            && (0 < n <= |WhereRows(e, stmt, rows)| ==>
                  && 0 < k && Matches(e.stod, stmt.where_, rows[k - 1])
                  && |WhereRows(e, stmt, rows[..k])| == n)
            && (n > |WhereRows(e, stmt, rows)| ==> k == |rows|)
  {
    hide Wired, Chain, Through, Matches, Mirrors, Delivered, WhereRows, PastFirst, BuildPhysical, SelectPlan, Source;
    SelectIsChain(e, tables, stmt, op);
    var rows, n, child := tables[stmt.table], stmt.limit.value, op.limit.child;
    DeliveredCount(child, e, stmt, rows);
    if n <= 0 {
      k := 0;
    } else if n <= |WhereRows(e, stmt, rows)| {
      k := PastNthIs(child, rows, n);
      DeliveredCount(child, e, stmt, rows[..k]);
    } else {
      k := |rows|;
      TooFew(child, rows, n);
    }
  }

  lemma {:induction false} TooFew(op: OperatorRef, rows: seq<Row>, n: nat)
    requires Wired(op) && Chain(op) && n > |Delivered(op, rows)|
    ensures PastNth(op, rows, n) == []
    decreases n
  {
    hide Wired, Chain, PastFirst, Delivered;
    if Delivered(op, rows) == [] {
      NothingDelivered(op, rows);
      PastNthOfNone(op, n - 1);
    } else {
      var k := PastFirstIs(op, rows);
      TooFew(op, rows[k..], n - 1);
    }
  }
}
