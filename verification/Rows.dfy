/** Rows, tables and the write log: what a transaction does to a table row by row, and how
    rollback takes it back. */
module Rows {

  type Row = map<string, string>
  type Tables = map<string, seq<Row>>

  datatype WriteKind = Insert | Update | Delete

  /** An entry of a transaction's write log. `key` is the id of the row after the write, except
      that a delete records the id of the row it removed. */
  datatype WriteRecord = WriteRecord(kind: WriteKind, table: string, key: string, oldRow: Row, newRow: Row)

  const ID := "id"

  predicate HasId(row: Row, k: string) {
    ID in row && row[ID] == k
  }

  function IdOf(row: Row): string {
    if ID in row then row[ID] else ""
  }

  // ----- list operations -----

  /** erase(remove_if(id == k)). */
  function RemoveId(rows: seq<Row>, k: string): seq<Row> {
    if rows == [] then []
    else if HasId(rows[0], k) then RemoveId(rows[1..], k)
    else [rows[0]] + RemoveId(rows[1..], k)
  }

  /** The loop that overwrites the first row with id k and breaks. */
  function ReplaceId(rows: seq<Row>, k: string, row: Row): seq<Row> {
    if rows == [] then []
    else if HasId(rows[0], k) then [row] + rows[1..]
    else [rows[0]] + ReplaceId(rows[1..], k, row)
  }

  /** Some row has id k. */
  predicate HasRow(rows: seq<Row>, k: string) {
    exists i :: 0 <= i < |rows| && HasId(rows[i], k)
  }

  ghost predicate UniqueIds(rows: seq<Row>) {
    && (forall i :: 0 <= i < |rows| ==> ID in rows[i])
    && (forall i, j :: 0 <= i < j < |rows| ==> rows[i][ID] != rows[j][ID])
  }

  ghost predicate AllUnique(tables: Tables) {
    forall t :: t in tables ==> UniqueIds(tables[t])
  }

  // ----- one write, and its undoing -----

  function TableOf(tables: Tables, t: string): seq<Row> {
    if t in tables then tables[t] else []
  }

  /** What the executor does to the table for one logged insert or update. */
  function ApplyRows(rows: seq<Row>, w: WriteRecord): seq<Row> {
    match w.kind
    case Insert => rows + [w.newRow]
    case Update => ReplaceId(rows, IdOf(w.oldRow), w.newRow)
    case Delete => RemoveId(rows, w.key)
  }

  function Apply(tables: Tables, w: WriteRecord): Tables {
    tables[w.table := ApplyRows(TableOf(tables, w.table), w)]
  }

  /** One round of rollback's loop: an insert is removed, an update or delete overwrites the row
      that has its key now. */
  function UndoRows(rows: seq<Row>, w: WriteRecord): seq<Row> {
    match w.kind
    case Insert => RemoveId(rows, w.key)
    case Update => ReplaceId(rows, w.key, w.oldRow)
    case Delete => ReplaceId(rows, w.key, w.oldRow)
  }

  /** storage[table] makes an empty table if there is none. */
  function Undo(tables: Tables, w: WriteRecord): Tables {
    tables[w.table := UndoRows(TableOf(tables, w.table), w)]
  }

  /** The write log replayed backwards. */
  function UndoAll(tables: Tables, log: seq<WriteRecord>): Tables
    decreases |log|
  {
    if log == [] then tables else UndoAll(Undo(tables, log[|log| - 1]), log[..|log| - 1])
  }

  // ----- a write that keeps ids present and unique -----

  /** The write fits the table it is made on, and its log entry says what it did. */
  ghost predicate FitsRows(rows: seq<Row>, w: WriteRecord) {
    match w.kind
    case Insert => HasId(w.newRow, w.key) && !HasRow(rows, w.key)
    case Update =>
      && w.oldRow in rows && ID in w.oldRow && HasId(w.newRow, w.key)
      && (w.key == IdOf(w.oldRow) || !HasRow(rows, w.key))
    case Delete => w.oldRow in rows && HasId(w.oldRow, w.key)
  }

  ghost predicate Fits(tables: Tables, w: WriteRecord) {
    w.table in tables && FitsRows(tables[w.table], w)
  }

  lemma {:induction false} RemoveAbsent(rows: seq<Row>, k: string)
    requires !HasRow(rows, k)
    ensures RemoveId(rows, k) == rows
  {
    if rows != [] {
      assert !HasId(rows[0], k);
      RemoveAbsent(rows[1..], k);
    }
  }

  lemma {:induction false} RemoveConcat(a: seq<Row>, b: seq<Row>, k: string)
    ensures RemoveId(a + b, k) == RemoveId(a, k) + RemoveId(b, k)
  {
    hide HasId;
    if a == [] {
      assert a + b == b;
    } else {
      RemoveConcat(a[1..], b, k);
      assert (a + b)[1..] == a[1..] + b && (a + b)[0] == a[0];
    }
  }

  lemma {:induction false} ReplaceIs(rows: seq<Row>, i: nat, k: string, row: Row)
    requires i < |rows| && HasId(rows[i], k) && forall j :: 0 <= j < i ==> !HasId(rows[j], k)
    ensures ReplaceId(rows, k, row) == rows[i := row]
  {
    if i > 0 {
      ReplaceIs(rows[1..], i - 1, k, row);
      assert rows[i := row] == [rows[0]] + rows[1..][i - 1 := row];
    }
  }

  lemma {:induction false} ReplaceAbsent(rows: seq<Row>, k: string, row: Row)
    requires !HasRow(rows, k)
    ensures ReplaceId(rows, k, row) == rows
  {
    if rows != [] {
      assert !HasId(rows[0], k);
      ReplaceAbsent(rows[1..], k, row);
    }
  }

  /** Undoing a fitting insert or update right away gives back the very same list. */
  lemma UndoInverts(rows: seq<Row>, w: WriteRecord)
    requires UniqueIds(rows) && FitsRows(rows, w) && w.kind != Delete
    ensures UndoRows(ApplyRows(rows, w), w) == rows
  {
    if w.kind == Insert {
      RemoveConcat(rows, [w.newRow], w.key);
      RemoveAbsent(rows, w.key);
      assert [w.newRow][1..] == [];
    } else {
      var i :| 0 <= i < |rows| && rows[i] == w.oldRow;
      ReplaceIs(rows, i, IdOf(w.oldRow), w.newRow);
      var changed := rows[i := w.newRow];
      assert forall j :: 0 <= j < i ==> changed[j] == rows[j];
      ReplaceIs(changed, i, w.key, w.oldRow);
    }
  }

  lemma {:induction false} RemoveKeepsUnique(rows: seq<Row>, k: string)
    requires UniqueIds(rows)
    ensures UniqueIds(RemoveId(rows, k))
    ensures forall row :: row in RemoveId(rows, k) ==> row in rows
  {
    if rows != [] {
      RemoveKeepsUnique(rows[1..], k);
      assert rows == [rows[0]] + rows[1..];
      forall row | row in RemoveId(rows[1..], k)
        ensures ID in row && row[ID] != rows[0][ID]
      {
        var i :| 0 <= i < |rows[1..]| && rows[1..][i] == row;
        assert rows[i + 1] == row;
      }
    }
  }

  /** A fitting write keeps ids present and unique. */
  lemma ApplyKeepsUnique(rows: seq<Row>, w: WriteRecord)
    requires UniqueIds(rows) && FitsRows(rows, w)
    ensures UniqueIds(ApplyRows(rows, w))
  {
    if w.kind == Insert {
      assert forall i :: 0 <= i < |rows| ==> !HasId(rows[i], w.key);
    } else if w.kind == Delete {
      RemoveKeepsUnique(rows, w.key);
    } else {
      var i :| 0 <= i < |rows| && rows[i] == w.oldRow;
      ReplaceIs(rows, i, IdOf(w.oldRow), w.newRow);
      assert w.key != IdOf(w.oldRow) ==> forall j :: 0 <= j < |rows| ==> !HasId(rows[j], w.key);
    }
  }

  // ----- writes on different ids commute -----

  datatype RowOp = Push(row: Row) | Remove(k: string) | Replace(k: string, row: Row)

  function Do(rows: seq<Row>, op: RowOp): seq<Row> {
    match op
    case Push(row) => rows + [row]
    case Remove(k) => RemoveId(rows, k)
    case Replace(k, row) => ReplaceId(rows, k, row)
  }

  function ApplyOp(w: WriteRecord): RowOp {
    match w.kind
    case Insert => Push(w.newRow)
    case Update => Replace(IdOf(w.oldRow), w.newRow)
    case Delete => Remove(w.key)
  }

  function UndoOp(w: WriteRecord): RowOp {
    if w.kind == Insert then Remove(w.key) else Replace(w.key, w.oldRow)
  }

  /** The op looks for, or leaves behind, a row with id k. */
  ghost predicate Touches(op: RowOp, k: string) {
    match op
    case Push(row) => HasId(row, k)
    case Remove(x) => x == k
    case Replace(x, row) => x == k || HasId(row, k)
  }

  ghost predicate Independent(a: RowOp, b: RowOp) {
    forall k :: Touches(a, k) ==> !Touches(b, k)
  }

  lemma Head(row: Row, rest: seq<Row>, op: RowOp)
    requires !op.Push?
    ensures Do([row] + rest, op) ==
      if !HasId(row, op.k) then [row] + Do(rest, op) else if op.Remove? then Do(rest, op) else [op.row] + rest
  {
    assert ([row] + rest)[1..] == rest;
  }

  lemma {:induction false} CommutePush(rows: seq<Row>, a: RowOp, row: Row)
    requires !a.Push? && !HasId(row, a.k)
    ensures Do(rows + [row], a) == Do(rows, a) + [row]
    decreases |rows|
  {
    if rows == [] {
      assert rows + [row] == [row] + [];
      Head(row, [], a);
    } else {
      CommutePush(rows[1..], a, row);
      Head(rows[0], rows[1..], a);
      Head(rows[0], rows[1..] + [row], a);
      assert rows == [rows[0]] + rows[1..] && rows + [row] == [rows[0]] + (rows[1..] + [row]);
    }
  }

  lemma CommuteHead(row: Row, rest: seq<Row>, a: RowOp, b: RowOp)
    requires !a.Push? && !b.Push? && a.k != b.k
    requires a.Replace? ==> !HasId(a.row, b.k)
    requires b.Replace? ==> !HasId(b.row, a.k)
    requires Do(Do(rest, b), a) == Do(Do(rest, a), b)
    ensures Do(Do([row] + rest, b), a) == Do(Do([row] + rest, a), b)
  {
    hide RemoveId, ReplaceId, Do;
    Head(row, rest, a);
    Head(row, rest, b);
    if a.Replace? {
      Head(a.row, rest, b);
    }
    if b.Replace? {
      Head(b.row, rest, a);
    }
    Head(row, Do(rest, b), a);
    Head(row, Do(rest, a), b);
  }

  /** An undoing op commutes with any op on other ids, as lists: order and place included. */
  lemma {:induction false} Commute(rows: seq<Row>, a: RowOp, b: RowOp)
    requires Independent(a, b) && !a.Push?
    ensures Do(Do(rows, b), a) == Do(Do(rows, a), b)
    decreases |rows|
  {
    assert Touches(a, a.k);
    if b.Push? {
      CommutePush(rows, a, b.row);
    } else if rows != [] {
      assert Touches(b, b.k);
      Commute(rows[1..], a, b);
      CommuteHead(rows[0], rows[1..], a, b);
      assert rows == [rows[0]] + rows[1..];
    }
  }

  // ----- what undoing a whole log brings back -----

  /** The rows whose ids are not in gone. */
  function Lacking(rows: seq<Row>, gone: set<string>): seq<Row> {
    if rows == [] then []
    else (if ID in rows[0] && rows[0][ID] in gone then [] else [rows[0]]) + Lacking(rows[1..], gone)
  }

  /** Going back over one write: the ids, before it, of the rows that are missing after it. A row
      that is deleted is missing from then on; a missing row that was inserted is no loss; a row is
      followed through changes of its id. */
  function BackOver(gone: set<string>, w: WriteRecord): set<string> {
    match w.kind
    case Insert => gone - {w.key}
    case Update => if w.key in gone then gone - {w.key} + {IdOf(w.oldRow)} else gone
    case Delete => gone + {w.key}
  }

  /** The ids of the rows of table t, as they were before the log, that the log deletes. */
  function Deleted(log: seq<WriteRecord>, t: string, gone: set<string>): set<string>
    decreases |log|
  {
    if log == [] then gone
    else
      var w := log[|log| - 1];
      Deleted(log[..|log| - 1], t, if w.table == t then BackOver(gone, w) else gone)
  }

  function Lost(log: seq<WriteRecord>, t: string): set<string> {
    Deleted(log, t, {})
  }

  predicate IdsOf(rows: seq<Row>, gone: set<string>) {
    forall k :: k in gone ==> HasRow(rows, k)
  }

  lemma {:induction false} LackingConcat(a: seq<Row>, b: seq<Row>, gone: set<string>)
    ensures Lacking(a + b, gone) == Lacking(a, gone) + Lacking(b, gone)
  {
    if a == [] {
      assert a + b == b;
    } else {
      LackingConcat(a[1..], b, gone);
      assert (a + b)[0] == a[0] && (a + b)[1..] == a[1..] + b;
    }
  }

  lemma {:induction false} LackingSame(rows: seq<Row>, a: set<string>, b: set<string>)
    requires forall i :: 0 <= i < |rows| && ID in rows[i] ==> (rows[i][ID] in a <==> rows[i][ID] in b)
    ensures Lacking(rows, a) == Lacking(rows, b)
  {
    if rows != [] {
      LackingSame(rows[1..], a, b);
    }
  }

  lemma {:induction false} LackingHas(rows: seq<Row>, gone: set<string>, k: string)
    ensures HasRow(Lacking(rows, gone), k) <==> HasRow(rows, k) && k !in gone
  {
    hide HasRow;
    if rows == [] {
      HasNone(k);
    } else {
      LackingHas(rows[1..], gone, k);
      HasFirst(rows, k);
      if !(ID in rows[0] && rows[0][ID] in gone) {
        HasFirst(Lacking(rows, gone), k);
      } else {
        assert Lacking(rows, gone) == Lacking(rows[1..], gone);
      }
    }
  }

  lemma HasNone(k: string)
    ensures !HasRow([], k)
  {
  }

  lemma HasFirst(rows: seq<Row>, k: string)
    requires rows != []
    ensures HasRow(rows, k) <==> HasId(rows[0], k) || HasRow(rows[1..], k)
  {
    if HasRow(rows, k) && !HasId(rows[0], k) {
      var i :| 0 <= i < |rows| && HasId(rows[i], k);
      assert HasId(rows[1..][i - 1], k);
    }
    if HasRow(rows[1..], k) {
      var i :| 0 <= i < |rows[1..]| && HasId(rows[1..][i], k);
      assert HasId(rows[i + 1], k);
    }
  }

  lemma {:induction false} LackingRemoved(rows: seq<Row>, k: string, gone: set<string>)
    ensures Lacking(RemoveId(rows, k), gone) == Lacking(rows, gone + {k})
  {
    if rows != [] {
      LackingRemoved(rows[1..], k, gone);
      if HasId(rows[0], k) {
        assert RemoveId(rows, k) == RemoveId(rows[1..], k);
      } else {
        assert RemoveId(rows, k)[1..] == RemoveId(rows[1..], k);
      }
    }
  }

  lemma {:induction false} LackingNone(rows: seq<Row>)
    ensures Lacking(rows, {}) == rows
  {
    if rows != [] {
      LackingNone(rows[1..]);
    }
  }

  /** Nothing is missing only if no id is. */
  lemma LackingAllIff(rows: seq<Row>, gone: set<string>)
    requires IdsOf(rows, gone)
    ensures Lacking(rows, gone) == rows <==> gone == {}
  {
    hide HasRow;
    LackingNone(rows);
    if k :| k in gone {
      LackingHas(rows, gone, k);
      assert HasRow(rows, k);
    }
  }

  lemma InsertBack(rows: seq<Row>, w: WriteRecord, gone: set<string>)
    requires UniqueIds(rows) && FitsRows(rows, w) && w.kind == Insert
    ensures UndoRows(Lacking(ApplyRows(rows, w), gone), w) == Lacking(rows, BackOver(gone, w))
  {
    hide HasRow, RemoveId;
    var left := Lacking(rows, gone);
    LackingConcat(rows, [w.newRow], gone);
    LackingHas(rows, gone, w.key);
    RemoveAbsent(left, w.key);
    RemoveConcat(left, Lacking([w.newRow], gone), w.key);
    RemoveOne(w.newRow, w.key, gone);
    forall i | 0 <= i < |rows|
      ensures rows[i][ID] in gone <==> rows[i][ID] in BackOver(gone, w)
    {
      assert rows[i][ID] == w.key ==> HasRow(rows, w.key) by { HasAt(rows, i); }
    }
    LackingSame(rows, gone, BackOver(gone, w));
  }

  lemma HasAt(rows: seq<Row>, i: nat)
    requires i < |rows| && ID in rows[i]
    ensures HasRow(rows, rows[i][ID])
  {
    assert HasId(rows[i], rows[i][ID]);
  }

  lemma RemoveOne(row: Row, k: string, gone: set<string>)
    requires HasId(row, k)
    ensures RemoveId(Lacking([row], gone), k) == []
  {
    assert [row][1..] == [];
  }

  lemma UpdateAt(rows: seq<Row>, w: WriteRecord, i: nat)
    requires UniqueIds(rows) && FitsRows(rows, w) && w.kind == Update && i < |rows| && rows[i] == w.oldRow
    ensures ApplyRows(rows, w) == rows[i := w.newRow]
  {
    ReplaceIs(rows, i, IdOf(w.oldRow), w.newRow);
  }

  lemma UpdateBack(rows: seq<Row>, w: WriteRecord, gone: set<string>)
    requires UniqueIds(rows) && FitsRows(rows, w) && w.kind == Update && IdsOf(ApplyRows(rows, w), gone)
    ensures UndoRows(Lacking(ApplyRows(rows, w), gone), w) == Lacking(rows, BackOver(gone, w))
  {
    hide ReplaceId, HasRow, UniqueIds, BackOver;
    var i :| 0 <= i < |rows| && rows[i] == w.oldRow;
    var a, b := rows[..i], rows[i + 1..];
    UpdateAt(rows, w, i);
    assert rows == a + [w.oldRow] + b && rows[i := w.newRow] == a + [w.newRow] + b;
    OthersKeep(rows, w, i, gone);
    LackingMiddle(a, w.newRow, b, gone);
    LackingMiddle(a, w.oldRow, b, BackOver(gone, w));
    LackingHas(a, gone, w.key);
    LackingHas(b, gone, w.key);
    ReplaceMiddle(Lacking(a, gone), w.newRow, Lacking(b, gone), w.key in gone, w.key, w.oldRow);
  }

  /** Overwriting the row between two lists that do not have its id, if it is there. */
  lemma ReplaceMiddle(a: seq<Row>, row: Row, b: seq<Row>, missing: bool, k: string, changed: Row)
    requires HasId(row, k) && !HasRow(a, k) && !HasRow(b, k)
    ensures ReplaceId(a + (if missing then [] else [row]) + b, k, changed) == a + (if missing then [] else [changed]) + b
  {
    hide ReplaceId;
    var all := a + (if missing then [] else [row]) + b;
    if missing {
      assert forall i :: 0 <= i < |all| ==> all[i] == if i < |a| then a[i] else b[i - |a|];
      ReplaceAbsent(all, k, changed);
    } else {
      assert forall i :: 0 <= i < |a| ==> all[i] == a[i];
      ReplaceIs(all, |a|, k, changed);
      assert all[|a| := changed] == a + [changed] + b;
    }
  }

  lemma LackingMiddle(a: seq<Row>, row: Row, b: seq<Row>, gone: set<string>)
    requires ID in row
    ensures Lacking(a + [row] + b, gone) == Lacking(a, gone) + (if row[ID] in gone then [] else [row]) + Lacking(b, gone)
  {
    LackingConcat(a + [row], b, gone);
    LackingConcat(a, [row], gone);
    assert [row][1..] == [];
  }

  /** The rows beside the updated one have other ids, old and new. */
  lemma OthersKeep(rows: seq<Row>, w: WriteRecord, i: nat, gone: set<string>)
    requires UniqueIds(rows) && FitsRows(rows, w) && w.kind == Update && i < |rows| && rows[i] == w.oldRow
    requires IdsOf(rows[i := w.newRow], gone)
    ensures Lacking(rows[..i], gone) == Lacking(rows[..i], BackOver(gone, w))
    ensures Lacking(rows[i + 1..], gone) == Lacking(rows[i + 1..], BackOver(gone, w))
    ensures !HasRow(rows[..i], w.key) && !HasRow(rows[i + 1..], w.key)
    ensures IdOf(w.oldRow) in BackOver(gone, w) <==> w.key in gone
  {
    hide Lacking;
    var old_ := IdOf(w.oldRow);
    forall j | 0 <= j < |rows| && j != i
      ensures rows[j][ID] != old_ && rows[j][ID] != w.key
    {
      assert HasId(rows[j], rows[j][ID]);
    }
    if old_ in gone {
      assert HasRow(rows[i := w.newRow], old_);
    }
    var b := rows[i + 1..];
    assert forall j :: 0 <= j < |b| ==> b[j] == rows[i + 1 + j];
    LackingSame(rows[..i], gone, BackOver(gone, w));
    LackingSame(rows[i + 1..], gone, BackOver(gone, w));
  }

  lemma DeleteBack(rows: seq<Row>, w: WriteRecord, gone: set<string>)
    requires FitsRows(rows, w) && w.kind == Delete
    ensures UndoRows(Lacking(ApplyRows(rows, w), gone), w) == Lacking(rows, BackOver(gone, w))
  {
    hide HasRow, RemoveId, ReplaceId;
    LackingRemoved(rows, w.key, gone);
    LackingHas(rows, gone + {w.key}, w.key);
    ReplaceAbsent(Lacking(rows, gone + {w.key}), w.key, w.oldRow);
  }

  /** Undoing any fitting write in a table that lacks some rows gives the table before it, less
      those rows and the one that the write deleted. */
  lemma UndoLacking(rows: seq<Row>, w: WriteRecord, gone: set<string>)
    requires UniqueIds(rows) && FitsRows(rows, w) && IdsOf(ApplyRows(rows, w), gone)
    ensures UndoRows(Lacking(ApplyRows(rows, w), gone), w) == Lacking(rows, BackOver(gone, w))
    ensures IdsOf(rows, BackOver(gone, w))
  {
    hide UndoRows, Lacking, UniqueIds, HasRow;
    match w.kind
    case Insert =>
      InsertBack(rows, w, gone);
      BackHas(rows, w, gone);
    case Update =>
      UpdateBack(rows, w, gone);
      BackHas(rows, w, gone);
    case Delete =>
      DeleteBack(rows, w, gone);
      BackHas(rows, w, gone);
  }

  lemma BackHas(rows: seq<Row>, w: WriteRecord, gone: set<string>)
    requires UniqueIds(rows) && FitsRows(rows, w) && IdsOf(ApplyRows(rows, w), gone)
    ensures IdsOf(rows, BackOver(gone, w))
  {
    forall k | k in BackOver(gone, w)
      ensures HasRow(rows, k)
    {
      if w.kind == Delete {
        if k == w.key {
          var i :| 0 <= i < |rows| && rows[i] == w.oldRow;
        } else {
          RemovedHas(rows, w.key, k);
        }
      } else if w.kind == Insert {
        PushedHas(rows, w.newRow, k);
      } else {
        var i :| 0 <= i < |rows| && rows[i] == w.oldRow;
        ReplaceIs(rows, i, IdOf(w.oldRow), w.newRow);
        if k in gone && k != w.key {
          var j :| 0 <= j < |rows| && HasId(rows[i := w.newRow][j], k);
          assert HasId(rows[j], k);
        } else {
          assert HasId(rows[i], IdOf(w.oldRow));
        }
      }
    }
  }

  lemma PushedHas(rows: seq<Row>, row: Row, k: string)
    requires HasRow(rows + [row], k) && !HasId(row, k)
    ensures HasRow(rows, k)
  {
    var i :| 0 <= i < |rows + [row]| && HasId((rows + [row])[i], k);
    assert HasId(rows[i], k);
  }

  lemma {:induction false} RemovedHas(rows: seq<Row>, x: string, k: string)
    requires HasRow(RemoveId(rows, x), k)
    ensures HasRow(rows, k)
  {
    hide HasRow;
    if rows == [] {
      HasNone(k);
    } else {
      HasFirst(rows, k);
      if HasId(rows[0], x) {
        RemovedHas(rows[1..], x, k);
      } else {
        HasFirst(RemoveId(rows, x), k);
        assert RemoveId(rows, x)[1..] == RemoveId(rows[1..], x);
        if HasRow(RemoveId(rows[1..], x), k) {
          RemovedHas(rows[1..], x, k);
        }
      }
    }
  }

  // ----- the tables in memory -----

  /** The tables that the executor, rollback and recovery share. */
  class TableStorage {
    var tables: Tables

    constructor (tables: Tables)
      ensures this.tables == tables
    {
      this.tables := tables;
    }
  }

  /** Undoing a fitting write right away restores the table exactly unless it was a delete: the
      row is gone, and rollback only overwrites rows that are there. */
  lemma UndoRestoresIff(rows: seq<Row>, w: WriteRecord)
    requires UniqueIds(rows) && FitsRows(rows, w)
    ensures UndoRows(ApplyRows(rows, w), w) == rows <==> w.kind != Delete
  {
    if w.kind == Delete {
      var i :| 0 <= i < |rows| && rows[i] == w.oldRow;
      RemoveShortens(rows, w.key, i);
      var after := RemoveId(rows, w.key);
      ReplaceLength(after, w.key, w.oldRow);
    } else {
      UndoInverts(rows, w);
    }
  }

  lemma {:induction false} RemoveShortens(rows: seq<Row>, k: string, i: nat)
    requires i < |rows| && HasId(rows[i], k)
    ensures |RemoveId(rows, k)| < |rows|
  {
    RemoveLength(rows[1..], k);
    if i > 0 {
      RemoveShortens(rows[1..], k, i - 1);
    }
  }

  lemma {:induction false} RemoveLength(rows: seq<Row>, k: string)
    ensures |RemoveId(rows, k)| <= |rows|
  {
    if rows != [] {
      RemoveLength(rows[1..], k);
    }
  }

  lemma {:induction false} ReplaceLength(rows: seq<Row>, k: string, row: Row)
    ensures |ReplaceId(rows, k, row)| == |rows|
  {
    if rows != [] {
      ReplaceLength(rows[1..], k, row);
    }
  }
}
