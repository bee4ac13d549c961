/** begin, commit and rollback, with the log records they append and the locks they let go. */
module TransactionManagers {
  import C = CrashAtomicity
  import LockManagers
  import Locks
  import opened Rows
  import opened RowText
  import opened Transactions
  import opened Wal
  import opened WalCodec

  datatype Outcome = Done | NotFound | NotActive

  /** A record that begin, commit and rollback fill in; prevLsn is left as it comes. */
  function Blank(txn: nat, kind: LogKind): LogRecord {
    LogRecord(0, 0, txn, kind, "", "", "", "")
  }

  /** The record writes w up: its rows are in it as texts. */
  ghost predicate WritesUp(r: LogRecord, txn: nat, w: WriteRecord) {
    && r.txnId == txn && r.kind == C.KindFor(w.kind) && r.table == w.table && r.key == w.key
    && TextOfRow(r.oldValue, w.oldRow) && TextOfRow(r.newValue, w.newRow)
  }

  /** One record for each write in order, then the closing one. */
  ghost predicate WritesUpAll(rs: seq<LogRecord>, txn: nat, log: seq<WriteRecord>, closing: LogKind) {
    && |rs| == |log| + 1
    && (forall i :: 0 <= i < |log| ==> WritesUp(rs[i], txn, log[i]))
    && rs[|log|].kind == closing && rs[|log|].txnId == txn
  }

  ghost predicate CleanLog(log: seq<WriteRecord>) {
    forall w :: w in log ==> Clean(w.oldRow) && Clean(w.newRow)
  }

  /** What commit appends is a faithful account of the write log when its rows are clean. */
  lemma CommitIsFaithful(rs: seq<LogRecord>, txn: nat, log: seq<WriteRecord>)
    requires WritesUpAll(rs, txn, log, Commit) && CleanLog(log)
    ensures C.Faithful(C.Chunk(C.Committed(txn, log), rs))
  {
    forall i | 0 <= i < |log| ensures C.Shows(rs[i], txn, log[i]) {
      assert WritesUp(rs[i], txn, log[i]);
      TextReads(rs[i].oldValue, log[i].oldRow);
      TextReads(rs[i].newValue, log[i].newRow);
    }
  }

  /** And so it is for what rollback appends. */
  lemma RollbackIsFaithful(rs: seq<LogRecord>, txn: nat, log: seq<WriteRecord>)
    requires WritesUpAll(rs, txn, log, Abort) && CleanLog(log)
    ensures C.Faithful(C.Chunk(C.Aborted(txn, log), rs))
  {
    forall i | 0 <= i < |log| ensures C.Shows(rs[i], txn, log[i]) {
      assert WritesUp(rs[i], txn, log[i]);
      TextReads(rs[i].oldValue, log[i].oldRow);
      TextReads(rs[i].newValue, log[i].newRow);
    }
  }

  lemma TextReads(s: string, row: Row)
    requires TextOfRow(s, row) && Clean(row)
    ensures Deserialized(s) == row
  {
    hide Deserialized, Clean, Serialized;
    var cols :| Enumerates(cols, row) && s == Serialized(row, cols);
    RowRoundTripIff(row, cols);
  }

  class TransactionManager {
    var nextId: nat
    var transactions: map<nat, Transaction>
    const lockManager: LockManagers.LockManager
    const wal: WAL?

    ghost predicate Valid()
      reads this, transactions.Values
    {
      forall id :: id in transactions ==> id < nextId && transactions[id].id == id
    }

    constructor (wal: WAL?)
      ensures Valid() && nextId == 1 && transactions == map[] && this.wal == wal
      ensures fresh(lockManager) && lockManager.locks == Locks.Run([])
    {
      nextId := 1;
      transactions := map[];
      lockManager := new LockManagers.LockManager();
      this.wal := wal;
    }

    /** A new running transaction under the next id, announced in the log. */
    method Begin() returns (txn: Transaction, ghost rs: seq<LogRecord>)
      requires Valid()
      modifies this, wal
      ensures Valid() && fresh(txn)
      ensures txn.id == old(nextId) && txn.status == Active && txn.writeLog == []
      ensures nextId == old(nextId) + 1 && transactions == old(transactions)[txn.id := txn]
      ensures C.Faithful(C.Chunk(C.Begun(txn.id), rs))
      ensures wal != null ==> wal.file == old(wal.file) + EncodeAll(rs)
    {
      var id := nextId;
      nextId := nextId + 1;
      txn := new Transaction(id);
      transactions := transactions[id := txn];
      rs := [Blank(id, LogKind.Begin)];
      if wal != null {
        var lsn := wal.Append(Blank(id, LogKind.Begin));
        rs := [Blank(id, LogKind.Begin).(lsn := lsn)];
        AppendOne([], rs[0]);
        assert [] + [rs[0]] == rs;
      }
    }

    /** Logs every write and a Commit record, marks the transaction and lets go of its locks. */
    method Commit(id: nat) returns (outcome: Outcome, ghost rs: seq<LogRecord>)
      requires Valid()
      modifies wal, lockManager, if id in transactions then {transactions[id]} else {}
      ensures Valid()
      ensures outcome == NotFound <==> old(id !in transactions)
      ensures outcome == Done <==> old(id in transactions && transactions[id].status == Active)
      ensures outcome == Done ==>
        && transactions[id].status == Committed && transactions[id].writeLog == old(transactions[id].writeLog)
        && lockManager.locks == Locks.ReleaseAll(old(lockManager.locks), id)
        && WritesUpAll(rs, id, transactions[id].writeLog, LogKind.Commit)
        && (wal != null ==> wal.file == old(wal.file) + EncodeAll(rs))
      ensures outcome != Done ==>
        && unchanged(lockManager) && (wal != null ==> unchanged(wal))
        && (id in transactions ==> unchanged(transactions[id]))
    {
      rs := [];
      if id !in transactions {
        return NotFound, [];
      }
      var txn := transactions[id];
      if !txn.IsActive() {
        return NotActive, [];
      }
      rs := WriteUp(txn, LogKind.Commit);
      txn.status := Committed;
      lockManager.ReleaseAll(id);
      return Done, rs;
    }

    /** Takes the writes back, last first, logs them and an Abort record, marks the transaction
        and lets go of its locks. */
    method Rollback(id: nat, storage: TableStorage) returns (outcome: Outcome, ghost rs: seq<LogRecord>)
      requires Valid()
      modifies wal, lockManager, storage, if id in transactions then {transactions[id]} else {}
      ensures Valid()
      ensures outcome == NotFound <==> old(id !in transactions)
      ensures outcome == Done <==> old(id in transactions && transactions[id].status == Active)
      ensures outcome == Done ==>
        && storage.tables == UndoAll(old(storage.tables), old(transactions[id].writeLog))
        && transactions[id].status == Aborted && transactions[id].writeLog == old(transactions[id].writeLog)
        && lockManager.locks == Locks.ReleaseAll(old(lockManager.locks), id)
        && WritesUpAll(rs, id, transactions[id].writeLog, LogKind.Abort)
        && (wal != null ==> wal.file == old(wal.file) + EncodeAll(rs))
      ensures outcome != Done ==>
        && unchanged(lockManager) && unchanged(storage) && (wal != null ==> unchanged(wal))
        && (id in transactions ==> unchanged(transactions[id]))
    {
      rs := [];
      if id !in transactions {
        return NotFound, [];
      }
      var txn := transactions[id];
      if !txn.IsActive() {
        return NotActive, [];
      }
      UndoLog(txn.writeLog, storage);
      rs := WriteUp(txn, LogKind.Abort);
      txn.status := Aborted;
      lockManager.ReleaseAll(id);
      return Done, rs;
    }

    /** The loop over the write log that commit and rollback share. */
    method WriteUp(txn: Transaction, closing: LogKind) returns (ghost rs: seq<LogRecord>)
      modifies wal
      ensures WritesUpAll(rs, txn.id, txn.writeLog, closing)
      ensures wal != null ==> wal.file == old(wal.file) + EncodeAll(rs)
    {
      hide Encode, EncodeAll, TextOfRow;
      rs := [];
      EncodeNone();
      for i := 0 to |txn.writeLog|
        invariant |rs| == i
        invariant forall j :: 0 <= j < i ==> WritesUp(rs[j], txn.id, txn.writeLog[j])
        invariant wal != null ==> wal.file == old(wal.file) + EncodeAll(rs)
      {
        var w := txn.writeLog[i];
        var oldValue := WAL.SerializeRow(w.oldRow);
        var newValue := WAL.SerializeRow(w.newRow);
        var record := LogRecord(0, 0, txn.id, C.KindFor(w.kind), w.table, w.key, oldValue, newValue);
        rs := AppendTo(rs, record);
        assert WritesUp(rs[i], txn.id, w);
      }
      rs := AppendTo(rs, Blank(txn.id, closing));
    }

    method AppendTo(ghost rs: seq<LogRecord>, record: LogRecord) returns (ghost after: seq<LogRecord>)
      modifies wal
      ensures |after| == |rs| + 1 && after[..|rs|] == rs && after[|rs|].(lsn := record.lsn) == record
      ensures wal != null ==> forall file :: old(wal.file) == file + EncodeAll(rs) ==> wal.file == file + EncodeAll(after)
    {
      hide Encode, EncodeAll;
      after := rs + [record];
      if wal != null {
        var lsn := wal.Append(record);
        after := rs + [record.(lsn := lsn)];
        AppendOne(rs, record.(lsn := lsn));
      }
    }

    static method UndoLog(log: seq<WriteRecord>, storage: TableStorage)
      modifies storage
      ensures storage.tables == UndoAll(old(storage.tables), log)
    {
      hide Undo;
      assert log[..|log|] == log;
      for i := |log| downto 0
        invariant UndoAll(storage.tables, log[..i]) == UndoAll(old(storage.tables), log)
      {
        assert log[..i + 1][..i] == log[..i];
        UndoWrite(log[i], storage);
      }
    }

    static method UndoWrite(w: WriteRecord, storage: TableStorage)
      modifies storage
      ensures storage.tables == Undo(old(storage.tables), w)
    {
      var table := TableOf(storage.tables, w.table);
      if w.kind.Insert? {
        table := RemoveId(table, w.key);
      } else {
        table := RestoreFirst(table, w.key, w.oldRow);
      }
      storage.tables := storage.tables[w.table := table];
    }

    static method RestoreFirst(rows: seq<Row>, k: string, row: Row) returns (after: seq<Row>)
      ensures after == ReplaceId(rows, k, row)
    {
      for i := 0 to |rows|
        invariant forall j :: 0 <= j < i ==> !HasId(rows[j], k)
      {
        if HasId(rows[i], k) {
          ReplaceIs(rows, i, k, row);
          return rows[i := row];
        }
      }
      ReplaceAbsent(rows, k, row);
      return rows;
    }
  }

  lemma EncodeNone()
    ensures EncodeAll([]) == ""
  {
  }

  lemma AppendOne(rs: seq<LogRecord>, r: LogRecord)
    ensures EncodeAll(rs + [r]) == EncodeAll(rs) + Encode(r)
  {
    hide Encode;
    EncodeAllConcat(rs, [r]);
    assert EncodeAll([r]) == Encode(r) + EncodeAll([]);
  }
}
