/** INSERT, UPDATE and DELETE on the in-memory tables, with the write log they leave in a
    running transaction. */
module Dml {
  import opened Ast
  import opened Expressions
  import opened Options
  import opened Rollbacks
  import opened Rows

  // ----- what one statement does -----

  function LiteralText(e: Expr): string {
    if e.Literal? then e.value else ""
  }

  /** The row of an INSERT: a column named twice keeps its last value. */
  function InsertedRow(columns: seq<string>, values: seq<Expr>): Row
    requires |columns| <= |values|
    decreases |columns|
  {
    if columns == [] then map[]
    else
      var n := |columns| - 1;
      InsertedRow(columns[..n], values)[columns[n] := LiteralText(values[n])]
  }

  function InsertRecord(table: string, row: Row): WriteRecord {
    WriteRecord(Insert, table, IdOf(row), map[], row)
  }

  /** The assignments of an UPDATE in order; later ones see what earlier ones wrote. */
  function Assigned(row: Row, assignments: seq<Assignment>): Row
    decreases |assignments|
  {
    if assignments == [] then row
    else Assigned(row[assignments[0].column := ResolveExpr(assignments[0].value, row)], assignments[1..])
  }

  function UpdatedRow(stod: Stod, stmt: UpdateStatement, row: Row): Row {
    if Matches(stod, stmt.where_, row) then Assigned(row, stmt.assignments) else row
  }

  function UpdatedRows(stod: Stod, stmt: UpdateStatement, rows: seq<Row>): (r: seq<Row>)
    ensures |r| == |rows|
    ensures forall i :: 0 <= i < |rows| ==> r[i] == UpdatedRow(stod, stmt, rows[i])
  {
    seq(|rows|, i requires 0 <= i < |rows| => UpdatedRow(stod, stmt, rows[i]))
  }

  function UpdateRecord(stod: Stod, stmt: UpdateStatement, row: Row): seq<WriteRecord> {
    if Matches(stod, stmt.where_, row) then
      var changed := Assigned(row, stmt.assignments);
      [WriteRecord(Update, stmt.table, IdOf(changed), row, changed)]
    else []
  }

  function UpdateLog(stod: Stod, stmt: UpdateStatement, rows: seq<Row>): seq<WriteRecord> {
    if rows == [] then []
    else UpdateLog(stod, stmt, rows[..|rows| - 1]) + UpdateRecord(stod, stmt, rows[|rows| - 1])
  }

  function KeptRows(stod: Stod, stmt: DeleteStatement, rows: seq<Row>): seq<Row> {
    if rows == [] then []
    else
      KeptRows(stod, stmt, rows[..|rows| - 1]) +
      (if Matches(stod, stmt.where_, rows[|rows| - 1]) then [] else [rows[|rows| - 1]])
  }

  function DeleteLog(stod: Stod, stmt: DeleteStatement, rows: seq<Row>): seq<WriteRecord> {
    if rows == [] then []
    else
      var row := rows[|rows| - 1];
      DeleteLog(stod, stmt, rows[..|rows| - 1]) +
      (if Matches(stod, stmt.where_, row) then [WriteRecord(Delete, stmt.table, IdOf(row), row, map[])] else [])
  }

  // ----- a run of statements -----

  datatype Change = Put(insert: InsertStatement) | Set(update: UpdateStatement) | Drop(delete: DeleteStatement)

  function TableName(c: Change): string {
    match c
    case Put(stmt) => stmt.table
    case Set(stmt) => stmt.table
    case Drop(stmt) => stmt.table
  }

  predicate Runnable(c: Change) {
    c.Put? ==> |c.insert.columns| <= |c.insert.values|
  }

  /** A statement on a table that is not there throws and changes nothing. */
  function After(stod: Stod, tables: Tables, c: Change): Tables
    requires Runnable(c)
  {
    if TableName(c) !in tables then tables
    else
      var rows := tables[TableName(c)];
      match c
      case Put(stmt) => tables[stmt.table := rows + [InsertedRow(stmt.columns, stmt.values)]]
      case Set(stmt) => tables[stmt.table := UpdatedRows(stod, stmt, rows)]
      case Drop(stmt) => tables[stmt.table := KeptRows(stod, stmt, rows)]
  }

  function Logged(stod: Stod, tables: Tables, c: Change): seq<WriteRecord>
    requires Runnable(c)
  {
    if TableName(c) !in tables then []
    else
      match c
      case Put(stmt) => [InsertRecord(stmt.table, InsertedRow(stmt.columns, stmt.values))]
      case Set(stmt) => UpdateLog(stod, stmt, tables[stmt.table])
      case Drop(stmt) => DeleteLog(stod, stmt, tables[stmt.table])
  }

  function AfterAll(stod: Stod, tables: Tables, cs: seq<Change>): Tables
    requires forall c :: c in cs ==> Runnable(c)
  {
    if cs == [] then tables else AfterAll(stod, After(stod, tables, cs[0]), cs[1..])
  }

  function LoggedAll(stod: Stod, tables: Tables, cs: seq<Change>): seq<WriteRecord>
    requires forall c :: c in cs ==> Runnable(c)
  {
    if cs == [] then []
    else Logged(stod, tables, cs[0]) + LoggedAll(stod, After(stod, tables, cs[0]), cs[1..])
  }

  /** The table while an UPDATE is under way: the first i rows are done. */
  function Midway(stod: Stod, stmt: UpdateStatement, rows: seq<Row>, i: nat): seq<Row>
    requires i <= |rows|
  {
    UpdatedRows(stod, stmt, rows[..i]) + rows[i..]
  }

  /** Ids are present and unique after every single row write of the statement. */
  ghost predicate KeepsIds(stod: Stod, tables: Tables, c: Change)
    requires Runnable(c)
  {
    TableName(c) in tables ==>
      match c
      case Put(stmt) => UniqueIds(After(stod, tables, c)[stmt.table])
      case Set(stmt) =>
        forall i :: 0 <= i <= |tables[stmt.table]| ==> UniqueIds(Midway(stod, stmt, tables[stmt.table], i))
      case Drop(stmt) => UniqueIds(tables[stmt.table])
  }

  ghost predicate AllKeepIds(stod: Stod, tables: Tables, cs: seq<Change>)
    requires forall c :: c in cs ==> Runnable(c)
  {
    cs == [] || (KeepsIds(stod, tables, cs[0]) && AllKeepIds(stod, After(stod, tables, cs[0]), cs[1..]))
  }

  // ----- the log is a run of fitting row writes -----

  lemma InsertFits(rows: seq<Row>, w: WriteRecord)
    requires w.kind == Insert && w.key == IdOf(w.newRow)
    requires UniqueIds(rows + [w.newRow])
    ensures FitsRows(rows, w)
  {
    var after := rows + [w.newRow];
    assert after[|rows|] == w.newRow;
    assert forall i :: 0 <= i < |rows| ==> after[i] == rows[i];
  }

  lemma UpdateFits(rows: seq<Row>, i: nat, w: WriteRecord)
    requires i < |rows| && w.kind == Update && w.oldRow == rows[i] && w.key == IdOf(w.newRow)
    requires UniqueIds(rows) && UniqueIds(rows[i := w.newRow])
    ensures FitsRows(rows, w) && ApplyRows(rows, w) == rows[i := w.newRow]
  {
    var after := rows[i := w.newRow];
    assert after[i] == w.newRow;
    assert forall j :: 0 <= j < |rows| && j != i ==> after[j] == rows[j];
    ReplaceIs(rows, i, IdOf(w.oldRow), w.newRow);
  }

  lemma MidwayStep(stod: Stod, stmt: UpdateStatement, rows: seq<Row>, i: nat)
    requires i < |rows|
    ensures |Midway(stod, stmt, rows, i)| == |rows| && Midway(stod, stmt, rows, i)[i] == rows[i]
    ensures Midway(stod, stmt, rows, i + 1) == Midway(stod, stmt, rows, i)[i := UpdatedRow(stod, stmt, rows[i])]
  {
    hide UpdatedRow;
    assert rows[..i + 1][i] == rows[i];
  }

  lemma UpdateLogStep(stod: Stod, stmt: UpdateStatement, rows: seq<Row>, i: nat)
    requires i < |rows|
    ensures UpdateLog(stod, stmt, rows[..i + 1]) ==
            UpdateLog(stod, stmt, rows[..i]) + UpdateRecord(stod, stmt, rows[i])
  {
    hide UpdateRecord;
    assert rows[..i + 1][..i] == rows[..i];
  }

  /** The log of the first i rows, applied to the table, gives the table midway. */
  lemma {:induction false} UpdateIsRun(stod: Stod, stmt: UpdateStatement, tables: Tables, i: nat)
    requires stmt.table in tables && i <= |tables[stmt.table]| && KeepsIds(stod, tables, Set(stmt))
    ensures var log := UpdateLog(stod, stmt, tables[stmt.table][..i]);
            FitsAll(tables, log) && ApplyAll(tables, log) == tables[stmt.table := Midway(stod, stmt, tables[stmt.table], i)]
  {
    hide UniqueIds, Matches, Assigned, FitsRows, ApplyRows, FitsAll, ApplyAll, Midway, UpdateLog;
    var rows := tables[stmt.table];
    if i == 0 {
      UpdateStart(stod, stmt, rows);
      RunNone(tables);
    } else {
      UpdateIsRun(stod, stmt, tables, i - 1);
      UpdateLogStep(stod, stmt, rows, i - 1);
      MidwayStep(stod, stmt, rows, i - 1);
      var log := UpdateLog(stod, stmt, rows[..i - 1]);
      var here := Midway(stod, stmt, rows, i - 1);
      if Matches(stod, stmt.where_, rows[i - 1]) {
        var changed := Assigned(rows[i - 1], stmt.assignments);
        var w := WriteRecord(Update, stmt.table, IdOf(changed), rows[i - 1], changed);
        assert UpdatedRow(stod, stmt, rows[i - 1]) == changed;
        UpdateFits(here, i - 1, w);
        assert Fits(tables[stmt.table := here], w);
        assert UpdateRecord(stod, stmt, rows[i - 1]) == [w];
        RunSnoc(tables, log, w);
      } else {
        assert log + [] == log;
        assert here[i - 1 := rows[i - 1]] == here;
      }
    }
  }

  lemma UpdateStart(stod: Stod, stmt: UpdateStatement, rows: seq<Row>)
    ensures UpdateLog(stod, stmt, rows[..0]) == [] && Midway(stod, stmt, rows, 0) == rows
  {
  }

  /** The table while a DELETE is under way: the first i rows are dealt with. */
  function Pruned(stod: Stod, stmt: DeleteStatement, rows: seq<Row>, i: nat): seq<Row>
    requires i <= |rows|
  {
    KeptRows(stod, stmt, rows[..i]) + rows[i..]
  }

  lemma PruneStep(stod: Stod, stmt: DeleteStatement, rows: seq<Row>, i: nat)
    requires i < |rows| && UniqueIds(rows)
    ensures var here, row := Pruned(stod, stmt, rows, i), rows[i];
      && row in here && ID in row
      && Pruned(stod, stmt, rows, i + 1) ==
         if Matches(stod, stmt.where_, row) then RemoveId(here, row[ID]) else here
  {
    hide Matches;
    var kept, row, rest := KeptRows(stod, stmt, rows[..i]), rows[i], rows[i + 1..];
    assert rows[..i + 1][..i] == rows[..i] && rows[..i + 1][i] == row;
    assert rows[i..] == [row] + rest;
    assert Pruned(stod, stmt, rows, i) == kept + [row] + rest;
    KeptAreRows(stod, stmt, rows[..i]);
    RemoveConcat(kept + [row], rest, row[ID]);
    RemoveConcat(kept, [row], row[ID]);
    OnlyAt(rows, kept, i);
    RemoveAbsent(kept, row[ID]);
    RemoveAbsent(rest, row[ID]);
    assert [row][1..] == [];
    assert kept + [] == kept;
  }

  lemma OnlyAt(rows: seq<Row>, kept: seq<Row>, i: nat)
    requires i < |rows| && UniqueIds(rows) && forall row :: row in kept ==> row in rows[..i]
    ensures !HasRow(kept, rows[i][ID]) && !HasRow(rows[i + 1..], rows[i][ID])
  {
    forall j | 0 <= j < |kept|
      ensures !HasId(kept[j], rows[i][ID])
    {
      assert kept[j] in rows[..i];
    }
  }

  lemma {:induction false} KeptAreRows(stod: Stod, stmt: DeleteStatement, rows: seq<Row>)
    ensures forall row :: row in KeptRows(stod, stmt, rows) ==> row in rows
    decreases |rows|
  {
    hide Matches;
    if rows != [] {
      KeptAreRows(stod, stmt, rows[..|rows| - 1]);
    }
  }

  lemma DeleteLogStep(stod: Stod, stmt: DeleteStatement, rows: seq<Row>, i: nat)
    requires i < |rows|
    ensures DeleteLog(stod, stmt, rows[..i + 1]) ==
            DeleteLog(stod, stmt, rows[..i]) +
            (if Matches(stod, stmt.where_, rows[i]) then [WriteRecord(Delete, stmt.table, IdOf(rows[i]), rows[i], map[])] else [])
  {
    hide Matches;
    assert rows[..i + 1][..i] == rows[..i];
  }

  lemma PruneStart(stod: Stod, stmt: DeleteStatement, rows: seq<Row>)
    ensures DeleteLog(stod, stmt, rows[..0]) == [] && Pruned(stod, stmt, rows, 0) == rows
    ensures Pruned(stod, stmt, rows, |rows|) == KeptRows(stod, stmt, rows)
  {
    assert rows[..|rows|] == rows;
  }

  /** The log of the first i rows, applied to the table, removes their matches. */
  lemma {:induction false} DeleteIsRun(stod: Stod, stmt: DeleteStatement, tables: Tables, i: nat)
    requires stmt.table in tables && i <= |tables[stmt.table]| && UniqueIds(tables[stmt.table])
    ensures var log := DeleteLog(stod, stmt, tables[stmt.table][..i]);
            FitsAll(tables, log) && ApplyAll(tables, log) == tables[stmt.table := Pruned(stod, stmt, tables[stmt.table], i)]
  {
    hide UniqueIds, Matches, FitsAll, ApplyAll, Pruned, DeleteLog, RemoveId;
    var rows := tables[stmt.table];
    PruneStart(stod, stmt, rows);
    if i == 0 {
      RunNone(tables);
    } else {
      DeleteIsRun(stod, stmt, tables, i - 1);
      DeleteLogStep(stod, stmt, rows, i - 1);
      PruneStep(stod, stmt, rows, i - 1);
      var log := DeleteLog(stod, stmt, rows[..i - 1]);
      if Matches(stod, stmt.where_, rows[i - 1]) {
        RunSnoc(tables, log, WriteRecord(Delete, stmt.table, IdOf(rows[i - 1]), rows[i - 1], map[]));
      } else {
        assert log + [] == log;
      }
    }
  }

  lemma ChangeIsRun(stod: Stod, tables: Tables, c: Change)
    requires Runnable(c) && KeepsIds(stod, tables, c)
    ensures FitsAll(tables, Logged(stod, tables, c))
    ensures ApplyAll(tables, Logged(stod, tables, c)) == After(stod, tables, c)
  {
    hide UniqueIds, Matches, Assigned, FitsRows;
    if TableName(c) in tables {
      var rows := tables[TableName(c)];
      match c {
        case Put(stmt) =>
          var w := InsertRecord(stmt.table, InsertedRow(stmt.columns, stmt.values));
          InsertFits(rows, w);
          assert [w][..0] == [];
        case Set(stmt) =>
          UpdateIsRun(stod, stmt, tables, |rows|);
          assert rows[..|rows|] == rows;
          assert Midway(stod, stmt, rows, |rows|) == UpdatedRows(stod, stmt, rows);
        case Drop(stmt) =>
          DeleteIsRun(stod, stmt, tables, |rows|);
          PruneStart(stod, stmt, rows);
          assert rows[..|rows|] == rows;
      }
    }
  }

  /** What a run of statements logs is a run of fitting row writes that leads to the
      very tables the statements leave. */
  lemma {:induction false} StatementsAreRun(stod: Stod, tables: Tables, cs: seq<Change>)
    requires (forall c :: c in cs ==> Runnable(c)) && AllKeepIds(stod, tables, cs)
    ensures FitsAll(tables, LoggedAll(stod, tables, cs))
    ensures ApplyAll(tables, LoggedAll(stod, tables, cs)) == AfterAll(stod, tables, cs)
    decreases |cs|
  {
    hide KeepsIds, After, Logged, FitsAll, ApplyAll;
    if cs == [] {
      RunNone(tables);
    } else {
      ChangeIsRun(stod, tables, cs[0]);
      var next := After(stod, tables, cs[0]);
      StatementsAreRun(stod, next, cs[1..]);
      ApplyAllConcat(tables, Logged(stod, tables, cs[0]), LoggedAll(stod, next, cs[1..]));
    }
  }

  /** Serial rollback, after any run of statements that keeps ids: every table comes back, row lists
      in order, less the rows it started with that a DELETE took; so it is an exact inverse iff no
      such row was deleted. */
  lemma SerialRollback(stod: Stod, tables: Tables, cs: seq<Change>)
    requires AllUnique(tables) && (forall c :: c in cs ==> Runnable(c)) && AllKeepIds(stod, tables, cs)
    ensures var log := LoggedAll(stod, tables, cs);
      && UndoAll(AfterAll(stod, tables, cs), log) == Lessened(tables, LostAll(tables, log))
      && (UndoAll(AfterAll(stod, tables, cs), log) == tables <==> forall t :: t in tables ==> Lost(log, t) == {})
  {
    hide AllKeepIds, AfterAll, LoggedAll, FitsAll, ApplyAll, UndoAll, AllUnique, Lost, Lessened;
    StatementsAreRun(stod, tables, cs);
    ApplyAllUndone(tables, LoggedAll(stod, tables, cs));
    UndoneIff(tables, LoggedAll(stod, tables, cs));
  }

  /** INSERTs and UPDATEs, id-changing ones included, are always taken back. */
  lemma SerialRestores(stod: Stod, tables: Tables, cs: seq<Change>)
    requires AllUnique(tables) && (forall c :: c in cs ==> Runnable(c) && !c.Drop?) && AllKeepIds(stod, tables, cs)
    ensures UndoAll(AfterAll(stod, tables, cs), LoggedAll(stod, tables, cs)) == tables
  {
    hide AllKeepIds, AfterAll, LoggedAll, UndoAll, AllUnique, Lost, Lessened;
    SerialRollback(stod, tables, cs);
    NoDropLogged(stod, tables, cs);
    forall t | t in tables
      ensures Lost(LoggedAll(stod, tables, cs), t) == {}
    {
      NothingLost(LoggedAll(stod, tables, cs), t);
    }
  }

  lemma {:induction false} UpdatesLogged(stod: Stod, stmt: UpdateStatement, rows: seq<Row>)
    ensures NoDeletes(UpdateLog(stod, stmt, rows))
    decreases |rows|
  {
    hide Matches, Assigned;
    if rows != [] {
      UpdatesLogged(stod, stmt, rows[..|rows| - 1]);
    }
  }

  lemma {:induction false} NoDropLogged(stod: Stod, tables: Tables, cs: seq<Change>)
    requires forall c :: c in cs ==> Runnable(c) && !c.Drop?
    ensures NoDeletes(LoggedAll(stod, tables, cs))
    decreases |cs|
  {
    hide After, UpdateLog;
    if cs != [] {
      NoDropLogged(stod, After(stod, tables, cs[0]), cs[1..]);
      if cs[0].Set? && TableName(cs[0]) in tables {
        UpdatesLogged(stod, cs[0].update, tables[cs[0].update.table]);
      }
    }
  }

  // ----- what the statements mean, column by column and row by row -----

  /** An UPDATE gives a column the value of its last assignment, a literal's text or what another
      column holds in the row as it is by then, and leaves the other columns alone. */
  lemma {:induction false} AssignedColumn(row: Row, assignments: seq<Assignment>, c: string, i: nat)
    requires i <= |assignments|
    requires i < |assignments| ==> assignments[i].column == c
    requires forall j :: (if i < |assignments| then i + 1 else 0) <= j < |assignments| ==> assignments[j].column != c
    ensures c in Assigned(row, assignments) <==> i < |assignments| || c in row
    ensures i == |assignments| && c in row ==> Assigned(row, assignments)[c] == row[c]
    ensures i < |assignments| ==>
      var soFar := Assigned(row, assignments[..i]);
      Assigned(row, assignments)[c] ==
        match assignments[i].value
        case Literal(_, text) => text
        case ColumnRef(_, d) => if d in soFar then soFar[d] else ""
        case _ => ""
    decreases |assignments|
  {
    if assignments != [] {
      var next := row[assignments[0].column := ResolveExpr(assignments[0].value, row)];
      if i == 0 {
        assert assignments[..0] == [];
        AssignedColumn(next, assignments[1..], c, |assignments[1..]|);
      } else {
        AssignedColumn(next, assignments[1..], c, i - 1);
        if i < |assignments| {
          assert assignments[..i][0] == assignments[0] && assignments[..i][1..] == assignments[1..][..i - 1];
        }
      }
    }
  }

  /** An INSERT gives exactly the listed columns, each the text of the literal at its last place in the
      list, whatever its kind, and the empty text for anything but a literal. */
  lemma {:induction false} InsertedColumn(columns: seq<string>, values: seq<Expr>, i: nat)
    requires i < |columns| <= |values| && forall j :: i < j < |columns| ==> columns[j] != columns[i]
    ensures forall c :: c in InsertedRow(columns, values) <==> c in columns
    ensures InsertedRow(columns, values)[columns[i]] ==
      match values[i]
      case Literal(_, text) => text
      case _ => ""
    decreases |columns|
  {
    var n := |columns| - 1;
    InsertedColumns(columns, values);
    if i < n {
      InsertedColumn(columns[..n], values, i);
    }
  }

  lemma {:induction false} InsertedColumns(columns: seq<string>, values: seq<Expr>)
    requires |columns| <= |values|
    ensures forall c :: c in InsertedRow(columns, values) <==> c in columns
    decreases |columns|
  {
    hide LiteralText;
    if columns != [] {
      var n := |columns| - 1;
      InsertedColumns(columns[..n], values);
      assert columns == columns[..n] + [columns[n]];
    }
  }

  /** What the three statements do to the rows of their table: INSERT adds one at the end, UPDATE
      changes the rows that meet its condition and those only, each where it stands, and DELETE takes
      out the rows that meet its own; without a condition all rows do. No other table changes. */
  lemma StatementRows(stod: Stod, tables: Tables, c: Change)
    requires Runnable(c) && TableName(c) in tables
    ensures var before, after := tables[TableName(c)], After(stod, tables, c);
      && after.Keys == tables.Keys && (forall t :: t in tables && t != TableName(c) ==> after[t] == tables[t])
      && match c
         case Put(stmt) => after[stmt.table] == before + [InsertedRow(stmt.columns, stmt.values)]
         case Set(stmt) =>
           && |after[stmt.table]| == |before|
           && (forall i :: 0 <= i < |before| ==>
                 after[stmt.table][i] ==
                 (if stmt.where_.None? || Evaluate(stod, stmt.where_.value, before[i])
                  then Assigned(before[i], stmt.assignments) else before[i]))
         case Drop(stmt) =>
           if stmt.where_.None? then after[stmt.table] == []
           else (forall row :: multiset(after[stmt.table])[row] ==
                   (if Evaluate(stod, stmt.where_.value, row) then 0 else multiset(before)[row]))
  {
    hide Evaluate, Assigned, InsertedRow;
    if c.Drop? {
      KeptRowsAre(stod, c.delete, tables[c.delete.table]);
    }
  }

  lemma {:induction false} KeptRowsAre(stod: Stod, stmt: DeleteStatement, rows: seq<Row>)
    ensures stmt.where_.None? ==> KeptRows(stod, stmt, rows) == []
    ensures stmt.where_.Some? ==>
      forall row :: multiset(KeptRows(stod, stmt, rows))[row] ==
        (if Evaluate(stod, stmt.where_.value, row) then 0 else multiset(rows)[row])
    decreases |rows|
  {
    hide Evaluate;
    if rows != [] {
      KeptRowsAre(stod, stmt, rows[..|rows| - 1]);
      assert rows == rows[..|rows| - 1] + [rows[|rows| - 1]];
    }
  }

  /** A logged insert has no old row, and a logged delete no new one. */
  lemma {:induction false} LoggedSides(stod: Stod, tables: Tables, c: Change)
    requires Runnable(c)
    ensures forall w :: w in Logged(stod, tables, c) ==>
      && w.table == TableName(c)
      && (c.Put? ==> w.kind == Insert && w.oldRow == map[])
      && (c.Set? ==> w.kind == Update)
      && (c.Drop? ==> w.kind == Delete && w.newRow == map[])
  {
    if TableName(c) in tables {
      match c
      case Put(_) =>
      case Set(stmt) => UpdateSides(stod, stmt, tables[stmt.table]);
      case Drop(stmt) => DeleteSides(stod, stmt, tables[stmt.table]);
    }
  }

  lemma {:induction false} UpdateSides(stod: Stod, stmt: UpdateStatement, rows: seq<Row>)
    ensures forall w :: w in UpdateLog(stod, stmt, rows) ==> w.table == stmt.table && w.kind == Update
    decreases |rows|
  {
    hide Matches, Assigned;
    if rows != [] {
      UpdateSides(stod, stmt, rows[..|rows| - 1]);
    }
  }

  lemma {:induction false} DeleteSides(stod: Stod, stmt: DeleteStatement, rows: seq<Row>)
    ensures forall w :: w in DeleteLog(stod, stmt, rows) ==> w.table == stmt.table && w.kind == Delete && w.newRow == map[]
    decreases |rows|
  {
    hide Matches;
    if rows != [] {
      DeleteSides(stod, stmt, rows[..|rows| - 1]);
    }
  }

  function RemovedRows(log: seq<WriteRecord>): seq<Row> {
    if log == [] then [] else RemovedRows(log[..|log| - 1]) + [log[|log| - 1].oldRow]
  }

  /** A DELETE splits the rows: those it keeps do not match, those it logs do, and none is lost. */
  lemma {:induction false} DeletePartition(stod: Stod, stmt: DeleteStatement, rows: seq<Row>)
    ensures var kept, removed := KeptRows(stod, stmt, rows), RemovedRows(DeleteLog(stod, stmt, rows));
            && multiset(kept) + multiset(removed) == multiset(rows)
            && (forall row :: row in kept ==> !Matches(stod, stmt.where_, row))
            && (forall row :: row in removed ==> Matches(stod, stmt.where_, row))
    decreases |rows|
  {
    hide Matches, KeptRows, DeleteLog, RemovedRows;
    if rows == [] {
      DeleteNone(stod, stmt);
    } else {
      var front, row := rows[..|rows| - 1], rows[|rows| - 1];
      DeletePartition(stod, stmt, front);
      DeleteOne(stod, stmt, front, row);
      assert rows == front + [row];
    }
  }

  lemma DeleteNone(stod: Stod, stmt: DeleteStatement)
    ensures KeptRows(stod, stmt, []) == [] && RemovedRows(DeleteLog(stod, stmt, [])) == []
  {
  }

  lemma DeleteOne(stod: Stod, stmt: DeleteStatement, front: seq<Row>, row: Row)
    ensures KeptRows(stod, stmt, front + [row]) ==
            KeptRows(stod, stmt, front) + (if Matches(stod, stmt.where_, row) then [] else [row])
    ensures RemovedRows(DeleteLog(stod, stmt, front + [row])) ==
            RemovedRows(DeleteLog(stod, stmt, front)) + (if Matches(stod, stmt.where_, row) then [row] else [])
  {
    hide Matches;
    assert (front + [row])[..|front|] == front;
    var log := DeleteLog(stod, stmt, front);
    if Matches(stod, stmt.where_, row) {
      var w := WriteRecord(Delete, stmt.table, IdOf(row), row, map[]);
      assert (log + [w])[..|log|] == log;
    } else {
      assert log + [] == log;
    }
  }
}
