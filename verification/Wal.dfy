/** The write-ahead log: a byte sequence that grows at its end, read whole at start and at
    recovery. */
module Wal {
  import opened Options
  import opened Recovery
  import opened Rows
  import opened RowText
  import opened WalCodec

  const TWO_64: nat := 0x1_0000_0000_0000_0000

  /** The next number after the records read. */
  function NextLsn(rs: seq<LogRecord>): nat {
    if rs == [] then 1 else (rs[|rs| - 1].lsn + 1) % TWO_64
  }

  /** s is row written in some column order. */
  ghost predicate TextOfRow(s: string, row: Row) {
    exists cols :: Enumerates(cols, row) && s == Serialized(row, cols)
  }

  class WAL {
    var file: string
    var nextLsn: nat

    /** Opening a log counts on from its last whole record. */
    constructor (contents: string)
      ensures file == contents && nextLsn == NextLsn(ReadAll(contents))
    {
      hide ReadRecord, ReadAll;
      file := contents;
      nextLsn := 1;
      new;
      var rest := contents;
      ghost var seen: seq<LogRecord> := [];
      var more := true;
      while more
        invariant file == contents && nextLsn == NextLsn(seen)
        invariant ReadAll(contents) == seen + ReadAll(rest)
        invariant !more ==> ReadAll(rest) == []
        decreases more, |rest|
      {
        ReadOne(rest);
        var read := ReadRecord(rest);
        if read.None? {
          more := false;
        } else {
          nextLsn := (read.value.value.lsn + 1) % TWO_64;
          seen := seen + [read.value.value];
          rest := read.value.rest;
        }
      }
    }

    /** Stamps the record with the next number and writes it at the end. */
    method Append(record: LogRecord) returns (lsn: nat)
      modifies this
      ensures lsn == old(nextLsn) && nextLsn == (lsn + 1) % TWO_64
      ensures file == old(file) + Encode(record.(lsn := lsn))
    {
      lsn := nextLsn;
      nextLsn := (nextLsn + 1) % TWO_64;
      file := file + Encode(record.(lsn := lsn));
    }

    method ReadRecords() returns (records: seq<LogRecord>)
      ensures records == ReadAll(file)
    {
      hide ReadRecord, ReadAll;
      records := [];
      var rest := file;
      var more := true;
      while more
        invariant ReadAll(file) == records + ReadAll(rest)
        invariant !more ==> ReadAll(rest) == []
        decreases more, |rest|
      {
        ReadOne(rest);
        var read := ReadRecord(rest);
        if read.None? {
          more := false;
        } else {
          records := records + [read.value.value];
          rest := read.value.rest;
        }
      }
    }

    /** The columns come in whatever order the hash map gives them. */
    static method SerializeRow(row: Row) returns (s: string)
      ensures TextOfRow(s, row)
      ensures Clean(row) ==> Deserialized(s) == row
    {
      s := "";
      var rest := row.Keys;
      ghost var cols: seq<string> := [];
      while rest != {}
        invariant rest <= row.Keys
        invariant forall c :: c in cols <==> c in row && c !in rest
        invariant NoRepeats(cols)
        invariant s == Serialized(row, cols)
        decreases |rest|
      {
        var col :| col in rest;
        s := s + col + "=" + row[col] + ";";
        SerializedSnoc(row, cols, col);
        assert Serialized(row, cols + [col]) == s;
        cols := cols + [col];
        rest := rest - {col};
      }
      assert Enumerates(cols, row);
      RowRoundTripIff(row, cols);
    }

    static method DeserializeRow(s: string) returns (row: Row)
      ensures row == Deserialized(s)
    {
      hide ReadOn, IndexOf;
      row := map[];
      var start := 0;
      assert s[0..] == s;
      while start < |s|
        invariant 0 <= start <= |s|
        invariant ReadOn(row, s[start..]) == Deserialized(s)
      {
        ReadOnStep(row, s[start..]);
        var found := IndexOf(s[start..], ';');
        if found.None? {
          return;
        }
        var end := start + found.value;
        var token := s[start..end];
        assert token == s[start..][..found.value] && s[start..][found.value + 1..] == s[end + 1..];
        start := end + 1;
        if token == "" {
          EmptyToken(row);
          continue;
        }
        var eq := IndexOf(token, '=');
        if eq.Some? && eq.value > 0 {
          row := row[token[..eq.value] := token[eq.value + 1..]];
        }
      }
      assert s[start..] == "";
      ReadNothing(row);
    }

    /** Redo what committed transactions logged, forwards; undo the rest, backwards. */
    method Recover(storage: TableStorage)
      modifies storage
      ensures storage.tables == Recovery.Recover(old(storage.tables), ReadAll(file))
    {
      hide ReadAll, RedoSteps, UndoSteps, Play;
      var records := ReadRecords();
      var committed := FindCommitted(records);
      RedoLoop(storage, records, committed);
      UndoLoop(storage, records, committed);
      PlayConcat(old(storage.tables), RedoSteps(records, committed), UndoSteps(records, committed));
    }

    static method FindCommitted(records: seq<LogRecord>) returns (committed: set<nat>)
      ensures committed == CommittedIn(records)
    {
      committed := {};
      for i := 0 to |records|
        invariant committed == CommittedIn(records[..i])
      {
        if records[i].kind == Commit {
          committed := committed + {records[i].txnId};
        }
        assert records[..i + 1] == records[..i] + [records[i]];
      }
      assert records[..|records|] == records;
    }

    static method RedoLoop(storage: TableStorage, records: seq<LogRecord>, committed: set<nat>)
      modifies storage
      ensures storage.tables == Play(old(storage.tables), RedoSteps(records, committed))
    {
      hide RedoSteps, UndoSteps, Play, DoStep;
      LoopsStart(old(storage.tables), records, committed);
      for i := 0 to |records|
        invariant storage.tables == Play(old(storage.tables), RedoSteps(records[..i], committed))
      {
        RedoOn(records, i, committed, old(storage.tables));
        if records[i].txnId in committed {
          RedoRecord(storage, records[i]);
        }
      }
      assert records[..|records|] == records;
    }

    static method UndoLoop(storage: TableStorage, records: seq<LogRecord>, committed: set<nat>)
      modifies storage
      ensures storage.tables == Play(old(storage.tables), UndoSteps(records, committed))
    {
      hide RedoSteps, UndoSteps, Play, DoStep;
      LoopsStart(old(storage.tables), records, committed);
      for i := |records| downto 0
        invariant storage.tables == Play(old(storage.tables), UndoSteps(records[i..], committed))
      {
        UndoOn(records, i, committed, old(storage.tables));
        if records[i].txnId !in committed {
          UndoRecord(storage, records[i]);
        }
      }
      assert records[0..] == records;
    }

    static method RedoRecord(storage: TableStorage, rec: LogRecord)
      modifies storage
      ensures storage.tables == DoStep(old(storage.tables), Redo(rec))
    {
      if rec.kind.Insert? {
        var rows := TableOf(storage.tables, rec.table);
        var newRow := DeserializeRow(rec.newValue);
        var exists_ := false;
        for i := 0 to |rows|
          invariant exists_ <==> exists j :: 0 <= j < i && HasId(rows[j], rec.key)
        {
          if HasId(rows[i], rec.key) {
            exists_ := true;
          }
        }
        storage.tables := storage.tables[rec.table := if exists_ then rows else rows + [newRow]];
      } else if rec.kind.Update? {
        var newRow := DeserializeRow(rec.newValue);
        var found, rows := OverwriteFirst(TableOf(storage.tables, rec.table), rec.key, newRow);
        storage.tables := storage.tables[rec.table := if found then rows else rows + [newRow]];
      } else if rec.kind.Delete? {
        storage.tables := storage.tables[rec.table := RemoveId(TableOf(storage.tables, rec.table), rec.key)];
      }
    }

    static method UndoRecord(storage: TableStorage, rec: LogRecord)
      modifies storage
      ensures storage.tables == DoStep(old(storage.tables), Undo(rec))
    {
      if rec.kind.Insert? {
        storage.tables := storage.tables[rec.table := RemoveId(TableOf(storage.tables, rec.table), rec.key)];
      } else if rec.kind.Update? || rec.kind.Delete? {
        var oldRow := DeserializeRow(rec.oldValue);
        var found, rows := OverwriteFirst(TableOf(storage.tables, rec.table), rec.key, oldRow);
        storage.tables := storage.tables[rec.table := rows];
      }
    }

    /** The loop shared by redo and undo: row["id"] is written as "" in rows that lack it. */
    static method OverwriteFirst(rows: seq<Row>, k: string, row: Row) returns (found: bool, after: seq<Row>)
      ensures after == Overwrite(rows, k, row)
      ensures Upsert(rows, k, row) == if found then after else after + [row]
    {
      hide Overwrite, Upsert, WithId;
      after := [];
      found := false;
      for i := 0 to |rows|
        invariant !found && |after| == i
        invariant Overwrite(rows, k, row) == after + Overwrite(rows[i..], k, row)
        invariant Upsert(rows, k, row) == after + Upsert(rows[i..], k, row)
      {
        OverwriteHead(rows[i..], k, row);
        assert rows[i..][1..] == rows[i + 1..];
        var here := WithId(rows[i]);
        if here[ID] == k {
          after := after + ([row] + rows[i + 1..]);
          return true, after;
        }
        after := after + [here];
      }
      OverwriteEmpty(k, row);
    }
  }

  lemma OverwriteHead(rows: seq<Row>, k: string, row: Row)
    requires rows != []
    ensures Overwrite(rows, k, row) ==
            if WithId(rows[0])[ID] == k then [row] + rows[1..] else [WithId(rows[0])] + Overwrite(rows[1..], k, row)
    ensures Upsert(rows, k, row) ==
            if WithId(rows[0])[ID] == k then [row] + rows[1..] else [WithId(rows[0])] + Upsert(rows[1..], k, row)
  {
  }

  lemma OverwriteEmpty(k: string, row: Row)
    ensures Overwrite([], k, row) == [] && Upsert([], k, row) == [row]
  {
  }

  lemma {:induction false} SerializedSnoc(row: Row, cols: seq<string>, col: string)
    requires (forall c :: c in cols ==> c in row) && col in row
    ensures forall c :: c in cols + [col] ==> c in row
    ensures Serialized(row, cols + [col]) == Serialized(row, cols) + Piece(row, col)
    ensures NoRepeats(cols) && col !in cols ==> NoRepeats(cols + [col])
  {
    if cols == [] {
      assert [col][1..] == [];
    } else {
      SerializedSnoc(row, cols[1..], col);
      assert (cols + [col])[1..] == cols[1..] + [col];
    }
  }

  lemma ReadOne(s: string)
    ensures ReadRecord(s).None? ==> ReadAll(s) == []
    ensures ReadRecord(s).Some? ==> ReadAll(s) == [ReadRecord(s).value.value] + ReadAll(ReadRecord(s).value.rest)
  {
    hide ReadRecord;
  }

  lemma ReadOnStep(row: Row, s: string)
    ensures match IndexOf(s, ';')
            case None => ReadOn(row, s) == row
            case Some(end) => ReadOn(row, s) == ReadOn(PutToken(row, s[..end]), s[end + 1..])
  {
    hide IndexOf;
  }

  lemma EmptyToken(row: Row)
    ensures PutToken(row, "") == row
  {
  }

  lemma PlaySnoc(tables: Tables, steps: seq<Step>, s: Step)
    ensures Play(tables, steps + [s]) == DoStep(Play(tables, steps), s)
  {
    hide DoStep;
    assert (steps + [s])[..|steps|] == steps;
  }

  lemma RedoOn(records: seq<LogRecord>, i: nat, committed: set<nat>, tables: Tables)
    requires i < |records|
    ensures Play(tables, RedoSteps(records[..i + 1], committed)) ==
            var before := Play(tables, RedoSteps(records[..i], committed));
            if records[i].txnId in committed then DoStep(before, Redo(records[i])) else before
  {
    hide DoStep, Play;
    assert records[..i + 1][..i] == records[..i];
    assert RedoSteps(records[..i], committed) + [] == RedoSteps(records[..i], committed);
    PlaySnoc(tables, RedoSteps(records[..i], committed), Redo(records[i]));
  }

  lemma LoopsStart(tables: Tables, records: seq<LogRecord>, committed: set<nat>)
    ensures Play(tables, RedoSteps(records[..0], committed)) == tables
    ensures Play(tables, UndoSteps(records[|records|..], committed)) == tables
  {
  }

  lemma {:induction false} PlayConcat(tables: Tables, a: seq<Step>, b: seq<Step>)
    ensures Play(tables, a + b) == Play(Play(tables, a), b)
    decreases |b|
  {
    hide DoStep;
    if b == [] {
      assert a + b == a;
    } else {
      PlayConcat(tables, a, b[..|b| - 1]);
      assert (a + b)[..|a + b| - 1] == a + b[..|b| - 1];
    }
  }

  lemma {:induction false} UndoCons(r: LogRecord, rs: seq<LogRecord>, committed: set<nat>)
    ensures UndoSteps([r] + rs, committed) == UndoSteps(rs, committed) + (if r.txnId in committed then [] else [Undo(r)])
    decreases |rs|
  {
    hide UndoSteps, RedoSteps;
    if rs == [] {
      assert [] + [r] == [r] + rs == [r];
      StepsSnoc([], r, committed);
      NoSteps(committed);
    } else {
      var front, last := rs[..|rs| - 1], rs[|rs| - 1];
      UndoCons(r, front, committed);
      assert rs == front + [last] && [r] + rs == ([r] + front) + [last];
      StepsSnoc(front, last, committed);
      StepsSnoc([r] + front, last, committed);
    }
  }

  lemma UndoOn(records: seq<LogRecord>, i: nat, committed: set<nat>, tables: Tables)
    requires i < |records|
    ensures Play(tables, UndoSteps(records[i..], committed)) ==
            var before := Play(tables, UndoSteps(records[i + 1..], committed));
            if records[i].txnId in committed then before else DoStep(before, Undo(records[i]))
  {
    hide DoStep, Play, UndoSteps;
    assert records[i..] == [records[i]] + records[i + 1..];
    UndoCons(records[i], records[i + 1..], committed);
    var later := UndoSteps(records[i + 1..], committed);
    assert later + [] == later;
    PlaySnoc(tables, later, Undo(records[i]));
  }

  /** Reopening a log goes on numbering after its last record. */
  lemma ReopenContinues(rs: seq<LogRecord>, r: LogRecord)
    requires AllFit(rs + [r])
    ensures NextLsn(ReadAll(EncodeAll(rs + [r]))) == (r.lsn + 1) % TWO_64
  {
    hide ReadAll, EncodeAll, AllFit;
    ReadsBack(rs + [r]);
  }
}
