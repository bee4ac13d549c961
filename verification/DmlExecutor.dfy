/** The executor's INSERT, UPDATE and DELETE: loops over the rows of one table, with the write
    log of the running transaction, if there is one. */
module DmlExecutor {
  import opened Ast
  import opened Dml
  import opened Expressions
  import opened Options
  import opened Rows
  import opened Transactions

  datatype InsertOutcome = Inserted | NoTable | PastTheEnd

  class Executor {
    const storage: TableStorage
    const stod: Stod

    constructor (storage: TableStorage, stod: Stod)
      ensures this.storage == storage && this.stod == stod
    {
      this.storage := storage;
      this.stod := stod;
    }

    /** What the transaction's log should be after the statement. */
    twostate predicate Logs(txn: Transaction?, records: seq<WriteRecord>)
      reads txn
    {
      txn == null ||
      (txn.status == old(txn.status) &&
       txn.writeLog == old(txn.writeLog) + (if old(txn.status) == Active then records else []))
    }

    /** With fewer values than columns the source reads past the end of the values, which C++ leaves
        undefined: up to there nothing has changed. */
    method ExecuteInsert(stmt: InsertStatement, txn: Transaction?) returns (r: InsertOutcome)
      modifies storage, txn
      ensures r == if stmt.table !in old(storage.tables) then NoTable
                   else if Runnable(Put(stmt)) then Inserted else PastTheEnd
      ensures r.Inserted? ==> storage.tables == After(stod, old(storage.tables), Put(stmt))
      ensures r.Inserted? ==> Logs(txn, Logged(stod, old(storage.tables), Put(stmt)))
      ensures !r.Inserted? ==> storage.tables == old(storage.tables) && Logs(txn, [])
    {
      if stmt.table !in storage.tables {
        return NoTable;
      }
      var row: Row := map[];
      for i := 0 to |stmt.columns|
        invariant i <= |stmt.values|
        invariant row == InsertedRow(stmt.columns[..i], stmt.values)
      {
        if i == |stmt.values| {
          return PastTheEnd;
        }
        assert stmt.columns[..i + 1][..i] == stmt.columns[..i];
        row := row[stmt.columns[i] := LiteralText(stmt.values[i])];
      }
      assert stmt.columns[..|stmt.columns|] == stmt.columns;
      if txn != null && txn.IsActive() {
        txn.LogWrite(InsertRecord(stmt.table, row));
      }
      storage.tables := storage.tables[stmt.table := storage.tables[stmt.table] + [row]];
      return Inserted;
    }

    /** Row by row, in place; each changed row is logged with the id it has afterwards. */
    method ExecuteUpdate(stmt: UpdateStatement, txn: Transaction?) returns (ok: bool)
      modifies storage, txn
      ensures ok == (stmt.table in old(storage.tables))
      ensures storage.tables == After(stod, old(storage.tables), Set(stmt))
      ensures Logs(txn, Logged(stod, old(storage.tables), Set(stmt)))
    {
      hide Matches, Assigned, Midway, UpdateLog, UpdatedRow;
      if stmt.table !in storage.tables {
        return false;
      }
      var n := |storage.tables[stmt.table]|;
      ghost var rows := storage.tables[stmt.table];
      ghost var active := txn != null && txn.IsActive();
      UpdateStart(stod, stmt, rows);
      for i := 0 to n
        invariant storage.tables == old(storage.tables)[stmt.table := Midway(stod, stmt, rows, i)]
        invariant |Midway(stod, stmt, rows, i)| == n
        invariant Logs(txn, UpdateLog(stod, stmt, rows[..i]))
      {
        MidwayStep(stod, stmt, rows, i);
        UpdateLogStep(stod, stmt, rows, i);
        var row := storage.tables[stmt.table][i];
        var matches := Matches(stod, stmt.where_, row);
        var changed := row;
        if matches {
          changed := Assign(row, stmt.assignments);
          var record := WriteRecord(Update, stmt.table, IdOf(changed), row, changed);
          if txn != null && txn.IsActive() {
            txn.LogWrite(record);
          }
        }
        UpdatedRowIs(stod, stmt, row);
        storage.tables := storage.tables[stmt.table := storage.tables[stmt.table][i := changed]];
      }
      UpdateEnd(stod, stmt, rows);
      return true;
    }

    static method Assign(row: Row, assignments: seq<Assignment>) returns (changed: Row)
      ensures changed == Assigned(row, assignments)
    {
      hide ResolveExpr;
      changed := row;
      for i := 0 to |assignments|
        invariant Assigned(changed, assignments[i..]) == Assigned(row, assignments)
      {
        var a := assignments[i];
        assert assignments[i..][0] == a && assignments[i..][1..] == assignments[i + 1..];
        changed := changed[a.column := ResolveExpr(a.value, changed)];
      }
    }

    /** erase(remove_if(…)), whose test also logs what it removes. */
    method ExecuteDelete(stmt: DeleteStatement, txn: Transaction?) returns (ok: bool)
      modifies storage, txn
      ensures ok == (stmt.table in old(storage.tables))
      ensures ok ==>
        storage.tables == old(storage.tables)[stmt.table := KeptRows(stod, stmt, old(storage.tables)[stmt.table])]
      ensures !ok ==> storage.tables == old(storage.tables)
      ensures Logs(txn, if ok then DeleteLog(stod, stmt, old(storage.tables)[stmt.table]) else [])
    {
      hide Matches;
      if stmt.table !in storage.tables {
        return false;
      }
      var rows := storage.tables[stmt.table];
      var kept: seq<Row> := [];
      for i := 0 to |rows|
        invariant kept == KeptRows(stod, stmt, rows[..i])
        invariant Logs(txn, DeleteLog(stod, stmt, rows[..i]))
        invariant storage.tables == old(storage.tables)
      {
        assert rows[..i + 1][..i] == rows[..i];
        var row := rows[i];
        if Matches(stod, stmt.where_, row) {
          if txn != null && txn.IsActive() {
            txn.LogWrite(WriteRecord(Delete, stmt.table, IdOf(row), row, map[]));
          }
        } else {
          kept := kept + [row];
        }
      }
      assert rows[..|rows|] == rows;
      storage.tables := storage.tables[stmt.table := kept];
      return true;
    }
  }

  lemma UpdatedRowIs(stod: Stod, stmt: UpdateStatement, row: Row)
    ensures UpdatedRow(stod, stmt, row) == if Matches(stod, stmt.where_, row) then Assigned(row, stmt.assignments) else row
  {
  }

  lemma UpdateEnd(stod: Stod, stmt: UpdateStatement, rows: seq<Row>)
    ensures Midway(stod, stmt, rows, |rows|) == UpdatedRows(stod, stmt, rows)
    ensures UpdateLog(stod, stmt, rows[..|rows|]) == UpdateLog(stod, stmt, rows)
  {
    assert rows[..|rows|] == rows;
  }
}
