/** Pull-based operators. Each is an object that owns its child; open starts it, next hands out
    one row at a time. */
module Operators {
  import opened Ast
  import opened Expressions
  import opened HashJoins
  import opened Options
  import opened Queries
  import opened Rows

  datatype OperatorRef =
    | ScanRef(scan: SeqScan)
    | FilterRef(filter: Filter)
    | ProjectionRef(projection: Projection)
    | SortRef(sort: Sort)
    | LimitRef(limit: Limit)
    | JoinRef(join: HashJoin)

  // ----- the tree of operators -----

  ghost function Height(op: OperatorRef): nat {
    match op
    case ScanRef(_) => 0
    case FilterRef(f) => f.height
    case ProjectionRef(p) => p.height
    case SortRef(s) => s.height
    case LimitRef(l) => l.height
    case JoinRef(j) => j.height
  }

  ghost function Repr(op: OperatorRef): set<object> {
    match op
    case ScanRef(s) => {s}
    case FilterRef(f) => f.repr
    case ProjectionRef(p) => p.repr
    case SortRef(s) => s.repr
    case LimitRef(l) => l.repr
    case JoinRef(j) => j.repr
  }

  ghost predicate Owns(parent: object, repr: set<object>, height: nat, child: OperatorRef) {
    height > Height(child) && repr == {parent} + Repr(child) && parent !in Repr(child)
  }

  /** Every operator owns its children and shares nothing with them. */
  ghost predicate Wired(op: OperatorRef)
    decreases Height(op)
  {
    match op
    case ScanRef(_) => true
    case FilterRef(f) => Owns(f, f.repr, f.height, f.child) && Wired(f.child)
    case ProjectionRef(p) => Owns(p, p.repr, p.height, p.child) && Wired(p.child)
    case SortRef(s) => Owns(s, s.repr, s.height, s.child) && Wired(s.child)
    case LimitRef(l) => Owns(l, l.repr, l.height, l.child) && Wired(l.child)
    case JoinRef(j) =>
      && j.height > Height(j.build) && j.height > Height(j.probe)
      && j.repr == {j} + Repr(j.build) + Repr(j.probe)
      && j !in Repr(j.build) && j !in Repr(j.probe) && Repr(j.build) !! Repr(j.probe)
      && Wired(j.build) && Wired(j.probe)
  }

  /** All rows of a full run. */
  ghost function All(op: OperatorRef): seq<Row>
    requires Wired(op)
    decreases Height(op)
  {
    match op
    case ScanRef(s) => s.rows
    case FilterRef(f) => Kept(f.e.stod, f.condition, All(f.child))
    case ProjectionRef(p) => Projected(p.columns, All(p.child))
    case SortRef(s) => s.e.sort(s.orderBy, All(s.child))
    case LimitRef(l) => Limited(All(l.child), l.count)
    case JoinRef(j) => HashJoined(Grouped(All(j.build), j.buildKey), All(j.probe), j.probeKey)
  }

  function From(rows: seq<Row>, cursor: nat): seq<Row> {
    if cursor <= |rows| then rows[cursor..] else []
  }

  /** The rows still to come. */
  ghost function Remaining(op: OperatorRef): seq<Row>
    requires Wired(op)
    reads Repr(op)
    decreases Height(op)
  {
    match op
    case ScanRef(s) => From(s.rows, s.cursor)
    case FilterRef(f) => Kept(f.e.stod, f.condition, Remaining(f.child))
    case ProjectionRef(p) => Projected(p.columns, Remaining(p.child))
    case SortRef(s) => From(s.buffered, s.cursor)
    case LimitRef(l) => Limited(Remaining(l.child), l.count - l.seen)
    case JoinRef(j) =>
      Merged(From(j.currentMatches, j.probeCursor), j.probeRow) +
      HashJoined(j.hashTable, Remaining(j.probe), j.probeKey)
  }

  /** One row of rows, leaving rest; none when there are none. */
  ghost predicate Took(row: Option<Row>, rows: seq<Row>, rest: seq<Row>) {
    match row
    case None => rows == [] && rest == []
    case Some(r) => rows == [r] + rest
  }

  // ----- how far the scan has been read -----

  /** A scan under filters and projections only. */
  ghost predicate Chain(op: OperatorRef)
    requires Wired(op)
    decreases Height(op)
  {
    match op
    case ScanRef(_) => true
    case FilterRef(f) => Chain(f.child)
    case ProjectionRef(p) => Chain(p.child)
    case _ => false
  }

  /** The table rows that the scan of a chain has not handed out. */
  ghost function Unread(op: OperatorRef): seq<Row>
    requires Wired(op) && Chain(op)
    reads Repr(op)
    decreases Height(op)
  {
    match op
    case ScanRef(s) => From(s.rows, s.cursor)
    case FilterRef(f) => Unread(f.child)
    case ProjectionRef(p) => Unread(p.child)
  }

  /** All the table rows under a chain. */
  ghost function Source(op: OperatorRef): seq<Row>
    requires Wired(op) && Chain(op)
    decreases Height(op)
  {
    match op
    case ScanRef(s) => s.rows
    case FilterRef(f) => Source(f.child)
    case ProjectionRef(p) => Source(p.child)
  }

  /** What a chain makes of one table row. */
  ghost function Through(op: OperatorRef, row: Row): Option<Row>
    requires Wired(op) && Chain(op)
    decreases Height(op)
  {
    match op
    case ScanRef(_) => Some(row)
    case FilterRef(f) =>
      var r := Through(f.child, row);
      if r.Some? && Evaluate(f.e.stod, f.condition, r.value) then r else None
    case ProjectionRef(p) =>
      var r := Through(p.child, row);
      if r.Some? then Some(ProjectRow(p.columns, r.value)) else None
  }

  /** What is left after the first table row that gets through. */
  ghost function PastFirst(op: OperatorRef, rows: seq<Row>): seq<Row>
    requires Wired(op) && Chain(op)
    decreases |rows|
  {
    if rows == [] then [] else if Through(op, rows[0]).Some? then rows[1..] else PastFirst(op, rows[1..])
  }

  /** What a chain delivers from these table rows. */
  ghost function Delivered(op: OperatorRef, rows: seq<Row>): seq<Row>
    requires Wired(op) && Chain(op)
    decreases |rows|
  {
    if rows == [] then []
    else
      match Through(op, rows[0])
      case None => Delivered(op, rows[1..])
      case Some(r) => [r] + Delivered(op, rows[1..])
  }

  /** What is left after n table rows have got through. */
  ghost function PastNth(op: OperatorRef, rows: seq<Row>, n: int): seq<Row>
    requires Wired(op) && Chain(op)
    decreases n
  {
    if n <= 0 then rows else PastNth(op, PastFirst(op, rows), n - 1)
  }

  /** A limit right above a chain. */
  ghost predicate LimitedChain(op: OperatorRef)
    requires Wired(op)
  {
    op.LimitRef? && Chain(op.limit.child)
  }

  /** Where the scan under a limit will stand when the limit has handed out everything. */
  ghost function Final(op: OperatorRef): seq<Row>
    requires Wired(op) && LimitedChain(op)
    reads Repr(op)
  {
    PastNth(op.limit.child, Unread(op.limit.child), op.limit.count - op.limit.seen)
  }

  /** Where that scan stands now. */
  ghost function Spot(op: OperatorRef): seq<Row>
    requires Wired(op) && LimitedChain(op)
    reads Repr(op)
  {
    Unread(op.limit.child)
  }

  lemma {:induction false} FilterPastFirst(f: Filter, rows: seq<Row>)
    requires Wired(FilterRef(f)) && Chain(FilterRef(f))
    ensures var op, before := FilterRef(f), Delivered(f.child, rows);
            && Delivered(op, rows) == Kept(f.e.stod, f.condition, before)
            && (before == [] ==> PastFirst(op, rows) == [] == PastFirst(f.child, rows))
            && (before != [] && Evaluate(f.e.stod, f.condition, before[0]) ==>
                  PastFirst(op, rows) == PastFirst(f.child, rows))
            && (before != [] && !Evaluate(f.e.stod, f.condition, before[0]) ==>
                  PastFirst(op, rows) == PastFirst(op, PastFirst(f.child, rows)))
    decreases |rows|
  {
    hide Evaluate, Wired;
    if rows != [] {
      FilterPastFirst(f, rows[1..]);
    }
  }

  lemma {:induction false} ProjectionPastFirst(p: Projection, rows: seq<Row>)
    requires Wired(ProjectionRef(p)) && Chain(ProjectionRef(p))
    ensures Delivered(ProjectionRef(p), rows) == Projected(p.columns, Delivered(p.child, rows))
    ensures PastFirst(ProjectionRef(p), rows) == PastFirst(p.child, rows)
    decreases |rows|
  {
    hide Wired, ProjectRow;
    if rows != [] {
      ProjectionPastFirst(p, rows[1..]);
    }
  }

  lemma {:induction false} ScanDelivers(s: SeqScan, rows: seq<Row>)
    ensures Delivered(ScanRef(s), rows) == rows
    ensures PastFirst(ScanRef(s), rows) == if rows == [] then [] else rows[1..]
    decreases |rows|
  {
    if rows != [] {
      ScanDelivers(s, rows[1..]);
    }
  }

  /** A chain delivers what it makes of the table rows it has not read. */
  lemma {:induction false} ChainDelivers(op: OperatorRef)
    requires Wired(op) && Chain(op)
    ensures Remaining(op) == Delivered(op, Unread(op))
    decreases Height(op)
  {
    match op
    case ScanRef(s) => ScanDelivers(s, Unread(op));
    case FilterRef(f) =>
      ChainDelivers(f.child);
      FilterPastFirst(f, Unread(op));
    case ProjectionRef(p) =>
      ChainDelivers(p.child);
      ProjectionPastFirst(p, Unread(op));
  }

  lemma {:induction false} NothingDelivered(op: OperatorRef, rows: seq<Row>)
    requires Wired(op) && Chain(op) && Delivered(op, rows) == []
    ensures PastFirst(op, rows) == []
    decreases |rows|
  {
    hide Wired, Chain, Through;
    if rows != [] && Through(op, rows[0]).None? {
      NothingDelivered(op, rows[1..]);
    }
  }

  lemma {:induction false} PastNthOfNone(op: OperatorRef, n: int)
    requires Wired(op) && Chain(op)
    ensures PastNth(op, [], n) == []
    decreases n
  {
    hide Wired, Chain;
    if n > 0 {
      PastNthOfNone(op, n - 1);
    }
  }

  lemma {:induction false} PastFirstIs(op: OperatorRef, rows: seq<Row>) returns (k: nat)
    requires Wired(op) && Chain(op) && Delivered(op, rows) != []
    ensures 0 < k <= |rows| && PastFirst(op, rows) == rows[k..] && Through(op, rows[k - 1]).Some?
    ensures Delivered(op, rows[..k]) == Delivered(op, rows)[..1]
    ensures Delivered(op, rows[k..]) == Delivered(op, rows)[1..]
    decreases |rows|
  {
    hide Wired, Chain, Through;
    if Through(op, rows[0]).Some? {
      k := 1;
      assert rows[..1] == [rows[0]] && rows[..1][1..] == [];
    } else {
      var j := PastFirstIs(op, rows[1..]);
      k := j + 1;
      assert rows[k..] == rows[1..][j..] && rows[..k][1..] == rows[1..][..j];
    }
  }

  /** The n-th row that gets through is the last one read. */
  lemma {:induction false} PastNthIs(op: OperatorRef, rows: seq<Row>, n: nat) returns (k: nat)
    requires Wired(op) && Chain(op) && n <= |Delivered(op, rows)|
    ensures k <= |rows| && PastNth(op, rows, n) == rows[k..]
    ensures Delivered(op, rows[..k]) == Delivered(op, rows)[..n]
    ensures if n == 0 then k == 0 else k > 0 && Through(op, rows[k - 1]).Some?
    decreases n
  {
    hide Wired, Chain, Through, Delivered, PastFirst;
    if n == 0 {
      k := 0;
      assert rows[..0] == [] && Delivered(op, rows)[..0] == [];
      DeliveredNone(op);
    } else {
      var j := PastFirstIs(op, rows);
      var i := PastNthIs(op, rows[j..], n - 1);
      k := j + i;
      assert rows[j..][i..] == rows[k..];
      assert rows[..k] == rows[..j] + rows[j..][..i];
      DeliveredConcat(op, rows[..j], rows[j..][..i]);
      assert i > 0 ==> rows[j..][i - 1] == rows[k - 1];
      var all := Delivered(op, rows);
      assert all[..1] + all[1..][..n - 1] == all[..n];
    }
  }

  lemma DeliveredNone(op: OperatorRef)
    requires Wired(op) && Chain(op)
    ensures Delivered(op, []) == []
  {
  }

  lemma {:induction false} DeliveredConcat(op: OperatorRef, a: seq<Row>, b: seq<Row>)
    requires Wired(op) && Chain(op)
    ensures Delivered(op, a + b) == Delivered(op, a) + Delivered(op, b)
    decreases |a|
  {
    hide Wired, Chain, Through;
    if a == [] {
      assert a + b == b;
    } else {
      DeliveredConcat(op, a[1..], b);
      assert (a + b)[1..] == a[1..] + b;
    }
  }

  // ----- dispatch -----

  method Start(op: OperatorRef)
    requires Wired(op)
    modifies Repr(op)
    ensures Remaining(op) == All(op)
    ensures Chain(op) ==> Unread(op) == Source(op)
    ensures LimitedChain(op) ==> Final(op) == PastNth(op.limit.child, Source(op.limit.child), op.limit.count)
    decreases Height(op), 1
  {
    match op
    case ScanRef(s) => s.Open();
    case FilterRef(f) => f.Open();
    case ProjectionRef(p) => p.Open();
    case SortRef(s) => s.Open();
    case LimitRef(l) => l.Open();
    case JoinRef(j) => j.Open();
  }

  method Pull(op: OperatorRef) returns (row: Option<Row>)
    requires Wired(op)
    modifies Repr(op)
    ensures Took(row, old(Remaining(op)), Remaining(op))
    ensures Chain(op) ==> Unread(op) == PastFirst(op, old(Unread(op)))
    ensures LimitedChain(op) ==> Final(op) == old(Final(op)) && (row.None? ==> Spot(op) == Final(op))
    decreases Height(op), 1
  {
    match op
    case ScanRef(s) => row := s.Next();
    case FilterRef(f) => row := f.Next();
    case ProjectionRef(p) => row := p.Next();
    case SortRef(s) => row := s.Next();
    case LimitRef(l) => row := l.Next();
    case JoinRef(j) => row := j.Next();
  }

  ghost function Coming(row: Option<Row>, rest: seq<Row>): seq<Row> {
    if row.Some? then [row.value] + rest else []
  }

  lemma LoopStep(done: seq<Row>, v: Row, rest: seq<Row>, row: Option<Row>, after: seq<Row>)
    requires Took(row, rest, after)
    ensures done + Coming(Some(v), rest) == (done + [v]) + Coming(row, after)
    ensures if row.Some? then |after| < |rest| else after == []
  {
  }

  lemma LoopStart(rest: seq<Row>, row: Option<Row>, after: seq<Row>)
    requires Took(row, rest, after)
    ensures rest == [] + Coming(row, after)
    ensures row.None? ==> after == []
  {
  }

  /** Pulls until nothing comes. */
  method Drain(op: OperatorRef) returns (rows: seq<Row>)
    requires Wired(op)
    modifies Repr(op)
    ensures rows == old(Remaining(op)) && Remaining(op) == []
    ensures LimitedChain(op) ==> Spot(op) == old(Final(op))
    decreases Height(op), 2
  {
    hide Wired, Remaining, Height, Repr, Took, Spot, Final, LimitedChain;
    ghost var all := Remaining(op);
    rows := [];
    var row := Pull(op);
    LoopStart(all, row, Remaining(op));
    while row.Some?
      invariant all == rows + Coming(row, Remaining(op))
      invariant row.None? ==> Remaining(op) == []
      invariant LimitedChain(op) ==> Final(op) == old(Final(op)) && (row.None? ==> Spot(op) == Final(op))
      decreases row.Some?, |Remaining(op)|
    {
      ghost var v, rest := row.value, Remaining(op);
      rows := rows + [row.value];
      row := Pull(op);
      LoopStep(rows[..|rows| - 1], v, rest, row, Remaining(op));
    }
  }

  /** The build phase's loop: rows with a key go into its bucket, in order. */
  method GroupRows(op: OperatorRef, key: string) returns (table: HashTable)
    requires Wired(op)
    modifies Repr(op)
    ensures table == Grouped(old(Remaining(op)), key)
    decreases Height(op), 2
  {
    hide Wired, Remaining, Height, Repr, Took, Grouped;
    ghost var all := Remaining(op);
    table := map[];
    ghost var done: seq<Row> := [];
    GroupNone(key);
    var row := Pull(op);
    LoopStart(all, row, Remaining(op));
    while row.Some?
      invariant all == done + Coming(row, Remaining(op))
      invariant table == Grouped(done, key)
      decreases row.Some?, |Remaining(op)|
    {
      ghost var v, rest := row.value, Remaining(op);
      GroupOne(done, v, key);
      if key in row.value {
        var k := row.value[key];
        table := table[k := Bucket(table, k) + [row.value]];
      }
      row := Pull(op);
      LoopStep(done, v, rest, row, Remaining(op));
      done := done + [v];
    }
    assert done + [] == done;
  }

  lemma GroupNone(key: string)
    ensures Grouped([], key) == map[]
  {
  }

  lemma GroupOne(done: seq<Row>, v: Row, key: string)
    ensures Grouped(done + [v], key) == PutRow(Grouped(done, key), key, v)
  {
    assert (done + [v])[..|done|] == done;
  }

  // ----- the operators -----

  class SeqScan {
    const rows: seq<Row>
    var cursor: nat

    constructor (rows: seq<Row>)
      ensures this.rows == rows && cursor == 0
    {
      this.rows := rows;
      cursor := 0;
    }

    method Open()
      modifies this
      ensures Remaining(ScanRef(this)) == rows && Unread(ScanRef(this)) == rows
    {
      cursor := 0;
    }

    method Next() returns (row: Option<Row>)
      modifies this
      ensures Took(row, old(Remaining(ScanRef(this))), Remaining(ScanRef(this)))
      ensures Unread(ScanRef(this)) == PastFirst(ScanRef(this), old(Unread(ScanRef(this))))
    {
      ScanDelivers(this, Unread(ScanRef(this)));
      if cursor >= |rows| {
        return None;
      }
      row := Some(rows[cursor]);
      cursor := cursor + 1;
    }
  }

  class Filter {
    const e: Engine
    const child: OperatorRef
    const condition: Expr
    ghost const height: nat
    ghost const repr: set<object>

    constructor (e: Engine, child: OperatorRef, condition: Expr)
      requires Wired(child)
      ensures this.e == e && this.child == child && this.condition == condition
      ensures Wired(FilterRef(this)) && repr == {this} + Repr(child)
    {
      this.e := e;
      this.child := child;
      this.condition := condition;
      height := Height(child) + 1;
      repr := {this} + Repr(child);
    }

    method Open()
      requires Wired(FilterRef(this))
      modifies repr
      ensures Remaining(FilterRef(this)) == All(FilterRef(this))
      ensures Chain(FilterRef(this)) ==> Unread(FilterRef(this)) == Source(FilterRef(this))
      decreases height, 0
    {
      Start(child);
    }

    /** Pulls until a row matches. */
    method Next() returns (row: Option<Row>)
      requires Wired(FilterRef(this))
      modifies repr
      ensures Took(row, old(Remaining(FilterRef(this))), Remaining(FilterRef(this)))
      ensures Chain(FilterRef(this)) ==> Unread(FilterRef(this)) == PastFirst(FilterRef(this), old(Unread(FilterRef(this))))
      decreases height, 0
    {
      while true
        invariant Remaining(FilterRef(this)) == old(Remaining(FilterRef(this)))
        invariant Chain(child) ==> PastFirst(FilterRef(this), Unread(child)) == PastFirst(FilterRef(this), old(Unread(child)))
        decreases |Remaining(child)|
      {
        if Chain(child) {
          ChainDelivers(child);
          FilterPastFirst(this, Unread(child));
        }
        row := Pull(child);
        if row.None? || Evaluate(e.stod, condition, row.value) {
          return;
        }
      }
    }
  }

  class Projection {
    const child: OperatorRef
    const columns: seq<string>
    ghost const height: nat
    ghost const repr: set<object>

    constructor (child: OperatorRef, columns: seq<string>)
      requires Wired(child)
      ensures this.child == child && this.columns == columns
      ensures Wired(ProjectionRef(this)) && repr == {this} + Repr(child)
    {
      this.child := child;
      this.columns := columns;
      height := Height(child) + 1;
      repr := {this} + Repr(child);
    }

    method Open()
      requires Wired(ProjectionRef(this))
      modifies repr
      ensures Remaining(ProjectionRef(this)) == All(ProjectionRef(this))
      ensures Chain(ProjectionRef(this)) ==> Unread(ProjectionRef(this)) == Source(ProjectionRef(this))
      decreases height, 0
    {
      Start(child);
    }

    method Next() returns (row: Option<Row>)
      requires Wired(ProjectionRef(this))
      modifies repr
      ensures Took(row, old(Remaining(ProjectionRef(this))), Remaining(ProjectionRef(this)))
      ensures Chain(ProjectionRef(this)) ==> Unread(ProjectionRef(this)) == PastFirst(ProjectionRef(this), old(Unread(ProjectionRef(this))))
      decreases height, 0
    {
      if Chain(child) {
        ProjectionPastFirst(this, Unread(child));
      }
      row := Pull(child);
      if row.Some? {
        var projected := Project(row.value);
        row := Some(projected);
      }
    }

    method Project(row: Row) returns (projected: Row)
      ensures projected == ProjectRow(columns, row)
    {
      if columns == ["*"] {
        return row;
      }
      projected := map[];
      for i := 0 to |columns|
        invariant projected == map c | c in columns[..i] && c in row :: row[c]
      {
        assert columns[..i + 1] == columns[..i] + [columns[i]];
        if columns[i] in row {
          projected := projected[columns[i] := row[columns[i]]];
        }
      }
      assert columns[..|columns|] == columns;
    }
  }

  class Sort {
    const e: Engine
    const child: OperatorRef
    const orderBy: seq<OrderByClause>
    var buffered: seq<Row>
    var cursor: nat
    ghost const height: nat
    ghost const repr: set<object>

    constructor (e: Engine, child: OperatorRef, orderBy: seq<OrderByClause>)
      requires Wired(child)
      ensures this.e == e && this.child == child && this.orderBy == orderBy
      ensures Wired(SortRef(this)) && repr == {this} + Repr(child)
    {
      this.e := e;
      this.child := child;
      this.orderBy := orderBy;
      buffered := [];
      cursor := 0;
      height := Height(child) + 1;
      repr := {this} + Repr(child);
    }

    /** Drains the child and sorts what came. */
    method Open()
      requires Wired(SortRef(this))
      modifies repr
      ensures Remaining(SortRef(this)) == All(SortRef(this))
      decreases height, 0
    {
      Start(child);
      buffered := Drain(child);
      buffered := e.sort(orderBy, buffered);
      cursor := 0;
    }

    method Next() returns (row: Option<Row>)
      requires Wired(SortRef(this))
      modifies repr
      ensures Took(row, old(Remaining(SortRef(this))), Remaining(SortRef(this)))
    {
      if cursor >= |buffered| {
        return None;
      }
      row := Some(buffered[cursor]);
      cursor := cursor + 1;
    }
  }

  class Limit {
    const child: OperatorRef
    const count: int
    var seen: int
    ghost const height: nat
    ghost const repr: set<object>

    constructor (child: OperatorRef, count: int)
      requires Wired(child)
      ensures this.child == child && this.count == count
      ensures Wired(LimitRef(this)) && repr == {this} + Repr(child)
    {
      this.child := child;
      this.count := count;
      seen := 0;
      height := Height(child) + 1;
      repr := {this} + Repr(child);
    }

    method Open()
      requires Wired(LimitRef(this))
      modifies repr
      ensures Remaining(LimitRef(this)) == All(LimitRef(this))
      ensures Chain(child) ==> Final(LimitRef(this)) == PastNth(child, Source(child), count)
      decreases height, 0
    {
      Start(child);
      seen := 0;
    }

    /** Once count rows have gone out the child is not asked again. */
    method Next() returns (row: Option<Row>)
      requires Wired(LimitRef(this))
      modifies repr
      ensures Took(row, old(Remaining(LimitRef(this))), Remaining(LimitRef(this)))
      ensures Chain(child) ==>
        Final(LimitRef(this)) == old(Final(LimitRef(this))) && (row.None? ==> Unread(child) == Final(LimitRef(this)))
      decreases height, 0
    {
      hide Remaining, Wired, Chain, Unread, Final, Spot, Height, Repr, Limited, PastFirst;
      WiredLimit(this);
      LimitIs(this);
      ghost var rest := Remaining(child);
      LimitStep(rest, count - seen);
      if seen >= count {
        return None;
      }
      ghost var unread := if Chain(child) then Unread(child) else [];
      row := Pull(child);
      if Chain(child) {
        LimitLeft(child, unread, count - seen);
      }
      if row.Some? {
        seen := seen + 1;
      }
      LimitIs(this);
    }
  }

  lemma WiredLimit(l: Limit)
    requires Wired(LimitRef(l))
    ensures Wired(l.child) && l !in Repr(l.child) && l.height > Height(l.child) && l in l.repr && Repr(l.child) <= l.repr
    ensures Repr(LimitRef(l)) == l.repr
  {
  }

  lemma LimitIs(l: Limit)
    requires Wired(LimitRef(l)) && Wired(l.child)
    ensures Remaining(LimitRef(l)) == Limited(Remaining(l.child), l.count - l.seen)
    ensures LimitedChain(LimitRef(l)) <==> Chain(l.child)
    ensures Chain(l.child) ==>
      && Remaining(l.child) == Delivered(l.child, Unread(l.child))
      && Final(LimitRef(l)) == PastNth(l.child, Unread(l.child), l.count - l.seen)
  {
    hide Limited, PastNth;
    if Chain(l.child) {
      ChainDelivers(l.child);
    }
  }

  lemma LimitStep(rest: seq<Row>, n: int)
    ensures n <= 0 ==> Limited(rest, n) == []
    ensures rest == [] ==> Limited(rest, n) == []
    ensures n > 0 && rest != [] ==> Limited(rest, n) == [rest[0]] + Limited(rest[1..], n - 1)
  {
  }

  lemma LimitLeft(op: OperatorRef, unread: seq<Row>, n: int)
    requires Wired(op) && Chain(op) && n > 0
    ensures PastNth(op, unread, n) == PastNth(op, PastFirst(op, unread), n - 1)
    ensures Delivered(op, unread) == [] ==> PastFirst(op, unread) == [] == PastNth(op, unread, n) == PastNth(op, [], n)
  {
    hide Wired, Chain, PastFirst, Delivered;
    if Delivered(op, unread) == [] {
      NothingDelivered(op, unread);
      PastNthOfNone(op, n);
      PastNthOfNone(op, n - 1);
    }
  }

  class HashJoin {
    const build: OperatorRef
    const probe: OperatorRef
    const buildKey: string
    const probeKey: string
    var hashTable: HashTable
    var currentMatches: seq<Row>
    var probeRow: Row
    var probeCursor: nat
    ghost const height: nat
    ghost const repr: set<object>

    constructor (build: OperatorRef, probe: OperatorRef, buildKey: string, probeKey: string)
      requires Wired(build) && Wired(probe) && Repr(build) !! Repr(probe)
      ensures this.build == build && this.probe == probe && this.buildKey == buildKey && this.probeKey == probeKey
      ensures Wired(JoinRef(this)) && repr == {this} + Repr(build) + Repr(probe)
    {
      this.build := build;
      this.probe := probe;
      this.buildKey := buildKey;
      this.probeKey := probeKey;
      hashTable := map[];
      currentMatches := [];
      probeRow := map[];
      probeCursor := 0;
      height := Height(build) + Height(probe) + 1;
      repr := {this} + Repr(build) + Repr(probe);
    }

    /** Opens both children and runs the build phase. */
    method Open()
      requires Wired(JoinRef(this))
      modifies repr
      ensures Remaining(JoinRef(this)) == All(JoinRef(this))
      decreases height, 0
    {
      hide Remaining, All, Wired, Grouped, HashJoined, Repr, Height, HashJoin.Pending, Chain, LimitedChain, Unread,
        Final;
      WiredJoin(this);
      AllOf(this);
      Start(build);
      Start(probe);
      hashTable := GroupRows(build, buildKey);
      probeCursor := 0;
      currentMatches := [];
      RemainingOf(this);
      NonePending(this);
    }

    /** What is left of the current probe row's matches. */
    ghost function Pending(): seq<Row>
      reads this
    {
      Merged(From(currentMatches, probeCursor), probeRow)
    }

    /** The probe phase: what is left of the current matches, then the next probe row with any. */
    method Next() returns (row: Option<Row>)
      requires Wired(JoinRef(this))
      modifies repr
      ensures Took(row, old(Remaining(JoinRef(this))), Remaining(JoinRef(this)))
      decreases height, 0
    {
      hide Remaining, Wired, HitsOf, HashJoined, Repr, Height, HashJoin.Pending;
      WiredJoin(this);
      RemainingOf(this);
      ghost var all := Remaining(JoinRef(this));
      while true
        invariant all == Pending() + HashJoined(hashTable, Remaining(probe), probeKey)
        decreases |Remaining(probe)|
      {
        if probeCursor < |currentMatches| {
          var joined := TakePending();
          RemainingOf(this);
          return Some(joined);
        }
        ghost var before := Remaining(probe);
        NonePending(this);
        var next := Pull(probe);
        if next.None? {
          JoinNone(hashTable, probeKey);
          RemainingOf(this);
          return None;
        }
        JoinStep(hashTable, next.value, Remaining(probe), probeKey);
        Probe(next.value);
      }
    }

    method TakePending() returns (joined: Row)
      requires probeCursor < |currentMatches|
      modifies this`probeCursor
      ensures old(Pending()) == [joined] + Pending()
    {
      joined := Merge(currentMatches[probeCursor], probeRow);
      probeCursor := probeCursor + 1;
    }

    /** Looks a probe row up in the table. */
    method Probe(row: Row)
      requires Pending() == []
      modifies this`probeRow, this`currentMatches, this`probeCursor
      ensures Pending() == HitsOf(hashTable, probeKey, row)
    {
      if probeKey in row && row[probeKey] in hashTable {
        probeRow := row;
        currentMatches := hashTable[row[probeKey]];
        probeCursor := 0;
      }
    }

    /** The probe row, with the columns of the match that it does not have. */
    static method Merge(match_: Row, probeRow: Row) returns (joined: Row)
      ensures joined == match_ + probeRow
    {
      joined := probeRow;
      var rest := match_.Keys;
      while rest != {}
        invariant rest <= match_.Keys
        invariant joined.Keys == probeRow.Keys + (match_.Keys - rest)
        invariant forall k :: k in joined ==> joined[k] == if k in probeRow then probeRow[k] else match_[k]
        decreases |rest|
      {
        var k :| k in rest;
        if k !in joined {
          joined := joined[k := match_[k]];
        }
        rest := rest - {k};
      }
    }
  }

  lemma WiredJoin(j: HashJoin)
    requires Wired(JoinRef(j))
    ensures Wired(j.build) && Wired(j.probe) && j !in Repr(j.probe) && j.height > Height(j.probe)
    ensures j !in Repr(j.build) && j.height > Height(j.build) && Repr(j.build) !! Repr(j.probe)
    ensures j in j.repr && Repr(j.probe) <= j.repr && Repr(j.build) <= j.repr
  {
  }

  lemma AllOf(j: HashJoin)
    requires Wired(JoinRef(j)) && Wired(j.build) && Wired(j.probe)
    ensures All(JoinRef(j)) == HashJoined(Grouped(All(j.build), j.buildKey), All(j.probe), j.probeKey)
  {
  }

  lemma RemainingOf(j: HashJoin)
    requires Wired(JoinRef(j)) && Wired(j.probe)
    ensures Remaining(JoinRef(j)) == j.Pending() + HashJoined(j.hashTable, Remaining(j.probe), j.probeKey)
  {
    hide HashJoined, Merged;
  }

  lemma NonePending(j: HashJoin)
    requires j.probeCursor >= |j.currentMatches|
    ensures j.Pending() == []
  {
  }

  lemma JoinNone(table: HashTable, probeKey: string)
    ensures HashJoined(table, [], probeKey) == []
  {
  }

  lemma JoinStep(table: HashTable, p: Row, rest: seq<Row>, probeKey: string)
    ensures HashJoined(table, [p] + rest, probeKey) == HitsOf(table, probeKey, p) + HashJoined(table, rest, probeKey)
  {
    assert ([p] + rest)[1..] == rest;
  }
}
