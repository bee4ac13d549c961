/** A log of begins, commits and rollbacks, cut off at any byte: when recovery brings back exactly the
    transactions whose Commit record is whole. */
module CrashAtomicity {
  import opened Options
  import opened Recovery
  import R = Rows
  import opened RowText
  import opened WalCodec

  // ----- histories -----

  datatype Event =
    | Begun(txn: nat)
    | Committed(txn: nat, writes: seq<R.WriteRecord>)
    | Aborted(txn: nat, writes: seq<R.WriteRecord>)

  /** One call of begin, commit or rollback, with the records it appended. */
  datatype Chunk = Chunk(event: Event, recs: seq<LogRecord>)

  function KindFor(k: R.WriteKind): LogKind {
    match k
    case Insert => LogKind.Insert
    case Update => LogKind.Update
    case Delete => LogKind.Delete
  }

  /** The record says what the write did; its texts read back as the rows. */
  ghost predicate Shows(r: LogRecord, txn: nat, w: R.WriteRecord) {
    && r.txnId == txn && r.kind == KindFor(w.kind) && r.table == w.table && r.key == w.key
    && Deserialized(r.oldValue) == w.oldRow && Deserialized(r.newValue) == w.newRow
  }

  /** A record for each write, then the closing one. */
  ghost predicate Closed(rs: seq<LogRecord>, txn: nat, writes: seq<R.WriteRecord>, closing: LogKind) {
    && |rs| == |writes| + 1
    && (forall i :: 0 <= i < |writes| ==> Shows(rs[i], txn, writes[i]))
    && rs[|writes|].kind == closing && rs[|writes|].txnId == txn
  }

  ghost predicate Faithful(c: Chunk) {
    match c.event
    case Begun(txn) => |c.recs| == 1 && c.recs[0].kind == Begin && c.recs[0].txnId == txn
    case Committed(txn, writes) => Closed(c.recs, txn, writes, Commit)
    case Aborted(txn, writes) => Closed(c.recs, txn, writes, Abort)
  }

  /** The writes that the chunk logs. */
  function LoggedBy(e: Event): seq<R.WriteRecord> {
    if e.Begun? then [] else e.writes
  }

  /** The writes that count. */
  function WritesOf(e: Event): seq<R.WriteRecord> {
    if e.Committed? then e.writes else []
  }

  function LogOf(h: seq<Chunk>): seq<LogRecord> {
    if h == [] then [] else LogOf(h[..|h| - 1]) + h[|h| - 1].recs
  }

  // ----- what the commits mean -----

  type Live = map<(string, string), R.Row>

  function Lookup(live: Live, t: string, k: string): Option<R.Row> {
    if (t, k) in live then Some(live[(t, k)]) else None
  }

  function Perform(live: Live, w: R.WriteRecord): Live {
    match w.kind
    case Insert => live[(w.table, w.key) := w.newRow]
    case Update => live[(w.table, w.key) := w.newRow]
    case Delete => live - {(w.table, w.key)}
  }

  function PerformAll(live: Live, ws: seq<R.WriteRecord>): Live {
    if ws == [] then live else Perform(PerformAll(live, ws[..|ws| - 1]), ws[|ws| - 1])
  }

  /** The writes of the commits in log order, on ids and their rows. */
  function Replay(h: seq<Chunk>): Live {
    if h == [] then map[] else PerformAll(Replay(h[..|h| - 1]), WritesOf(h[|h| - 1].event))
  }

  /** An insert of an id that is not there; an update or delete of the row that is, keeping its id. */
  ghost predicate Legal(live: Live, w: R.WriteRecord) {
    match w.kind
    case Insert => (w.table, w.key) !in live && R.HasId(w.newRow, w.key)
    case Update => Lookup(live, w.table, w.key) == Some(w.oldRow) && R.HasId(w.oldRow, w.key) && R.HasId(w.newRow, w.key)
    case Delete => Lookup(live, w.table, w.key) == Some(w.oldRow) && R.HasId(w.oldRow, w.key)
  }

  ghost predicate LegalAll(live: Live, ws: seq<R.WriteRecord>) {
    ws == [] || (LegalAll(live, ws[..|ws| - 1]) && Legal(PerformAll(live, ws[..|ws| - 1]), ws[|ws| - 1]))
  }

  /** The rows of a write carry its key as their id. */
  ghost predicate Keyed(w: R.WriteRecord) {
    (w.kind != R.Delete ==> R.HasId(w.newRow, w.key)) && (w.kind != R.Insert ==> R.HasId(w.oldRow, w.key))
  }

  ghost predicate KeyedAll(ws: seq<R.WriteRecord>) {
    forall w :: w in ws ==> Keyed(w)
  }

  /** Every chunk is what some call appended, and every write carries its key as the id. */
  ghost predicate Written(h: seq<Chunk>) {
    forall c :: c in h ==> Faithful(c) && KeyedAll(LoggedBy(c.event))
  }

  /** Commits are legal where they stand; of the writes of an aborted transaction only the ids are
      known. A transaction id may end more than once, as after a restart. */
  ghost predicate History(h: seq<Chunk>) {
    h == [] ||
    (var front, c := h[..|h| - 1], h[|h| - 1];
     && History(front) && Faithful(c)
     && LegalAll(Replay(front), WritesOf(c.event)) && KeyedAll(LoggedBy(c.event)))
  }

  lemma NothingWritten()
    ensures Written([])
  {
  }

  lemma WrittenMore(h: seq<Chunk>, c: Chunk)
    requires Written(h) && Faithful(c) && KeyedAll(LoggedBy(c.event))
    ensures Written(h + [c])
  {
    hide Faithful, KeyedAll;
  }

  lemma {:induction false} HistoryWritten(h: seq<Chunk>)
    requires History(h)
    ensures Written(h)
    decreases |h|
  {
    hide Faithful, LegalAll, Replay, KeyedAll, LoggedBy, WritesOf, Written;
    if h == [] {
      NothingWritten();
    } else {
      HistoryWritten(h[..|h| - 1]);
      WrittenMore(h[..|h| - 1], h[|h| - 1]);
      assert h == h[..|h| - 1] + [h[|h| - 1]];
    }
  }

  /** The ids of the transactions with a Commit record. */
  function Done(h: seq<Chunk>): set<nat> {
    set c | c in h && c.event.Committed? :: c.event.txn
  }

  predicate Ends(h: seq<Chunk>, txn: nat) {
    exists c :: c in h && !c.event.Begun? && c.event.txn == txn
  }

  /** Every transaction id ends once, as it does while one transaction manager is at work. */
  ghost predicate EndsOnce(h: seq<Chunk>) {
    forall i, j :: 0 <= i < j < |h| && !h[i].event.Begun? && !h[j].event.Begun? ==> h[i].event.txn != h[j].event.txn
  }

  lemma EndsOnceMore(h: seq<Chunk>, c: Chunk)
    requires EndsOnce(h) && (c.event.Begun? || !Ends(h, c.event.txn))
    ensures EndsOnce(h + [c])
  {
    forall i | 0 <= i < |h| && !h[i].event.Begun? && !c.event.Begun?
      ensures h[i].event.txn != c.event.txn
    {
      assert h[i] in h;
    }
  }

  // ----- the writes on one id -----

  /** The writes on one id. */
  function WritesOn(ws: seq<R.WriteRecord>, t: string, k: string): seq<R.WriteRecord> {
    if ws == [] then []
    else
      var w := ws[|ws| - 1];
      WritesOn(ws[..|ws| - 1], t, k) + (if w.table == t && w.key == k then [w] else [])
  }

  lemma WritesOnSnoc(ws: seq<R.WriteRecord>, w: R.WriteRecord, t: string, k: string)
    ensures WritesOn(ws + [w], t, k) == WritesOn(ws, t, k) + (if w.table == t && w.key == k then [w] else [])
  {
    assert (ws + [w])[..|ws|] == ws;
  }

  lemma {:induction false} WritesOnConcat(a: seq<R.WriteRecord>, b: seq<R.WriteRecord>, t: string, k: string)
    ensures WritesOn(a + b, t, k) == WritesOn(a, t, k) + WritesOn(b, t, k)
    decreases |b|
  {
    hide WritesOn;
    if b == [] {
      assert a + b == a;
      NoWritesOn(t, k);
    } else {
      var front, w := b[..|b| - 1], b[|b| - 1];
      WritesOnConcat(a, front, t, k);
      WritesOnSnoc(a + front, w, t, k);
      WritesOnSnoc(front, w, t, k);
      assert b == front + [w] && a + b == (a + front) + [w];
    }
  }

  lemma NoWritesOn(t: string, k: string)
    ensures WritesOn([], t, k) == []
  {
  }

  lemma {:induction false} WritesOnAre(ws: seq<R.WriteRecord>, t: string, k: string)
    ensures forall w :: w in WritesOn(ws, t, k) <==> w in ws && w.table == t && w.key == k
    decreases |ws|
  {
    if ws != [] {
      WritesOnAre(ws[..|ws| - 1], t, k);
      assert ws == ws[..|ws| - 1] + [ws[|ws| - 1]];
    }
  }

  // ----- what the redo loop performs -----

  ghost predicate RedoShows(s: Step, w: R.WriteRecord) {
    s.Redo? && Shows(s.rec, s.rec.txnId, w)
  }

  /** One round of the redo loop, on the id of the write. */
  function RedoOne(c: Option<R.Row>, w: R.WriteRecord): Option<R.Row> {
    match w.kind
    case Insert => if c.Some? then c else Some(w.newRow)
    case Update => Some(w.newRow)
    case Delete => None
  }

  function RedoAll(c: Option<R.Row>, ws: seq<R.WriteRecord>): Option<R.Row> {
    if ws == [] then c else RedoOne(RedoAll(c, ws[..|ws| - 1]), ws[|ws| - 1])
  }

  lemma {:induction false} RedoAllConcat(c: Option<R.Row>, a: seq<R.WriteRecord>, b: seq<R.WriteRecord>)
    ensures RedoAll(c, a + b) == RedoAll(RedoAll(c, a), b)
    decreases |b|
  {
    hide RedoOne;
    if b == [] {
      assert a + b == a;
    } else {
      var front := b[..|b| - 1];
      RedoAllConcat(c, a, front);
      assert (a + b)[..|a + b| - 1] == a + front;
    }
  }

  lemma RedoStep(c: Option<R.Row>, s: Step, w: R.WriteRecord, t: string, k: string)
    requires RedoShows(s, w)
    ensures (if About(s, t, k) then StepCell(c, s) else c) ==
            RedoAll(c, if w.table == t && w.key == k then [w] else [])
  {
    hide Deserialized;
    assert [w][..0] == [];
  }

  lemma PerformRedoes(live: Live, w: R.WriteRecord, t: string, k: string)
    requires Legal(live, w)
    ensures Lookup(Perform(live, w), t, k) == RedoAll(Lookup(live, t, k), if w.table == t && w.key == k then [w] else [])
  {
    hide R.HasId;
    assert [w][..0] == [];
  }

  /** Redo on legal writes is what they did. */
  lemma {:induction false} RedoIsPerform(live: Live, ws: seq<R.WriteRecord>, t: string, k: string)
    requires LegalAll(live, ws)
    ensures RedoAll(Lookup(live, t, k), WritesOn(ws, t, k)) == Lookup(PerformAll(live, ws), t, k)
    decreases |ws|
  {
    hide Legal, Lookup, Perform, RedoAll, WritesOn;
    if ws == [] {
      RedoNothing({}, Lookup(live, t, k), t, k);
    } else {
      var front, w := ws[..|ws| - 1], ws[|ws| - 1];
      RedoIsPerform(live, front, t, k);
      PerformRedoes(PerformAll(live, front), w, t, k);
      assert ws == front + [w];
      WritesOnSnoc(front, w, t, k);
      RedoAllConcat(Lookup(live, t, k), WritesOn(front, t, k), if w.table == t && w.key == k then [w] else []);
    }
  }

  lemma PlayCellSnoc(c: Option<R.Row>, steps: seq<Step>, s: Step, t: string, k: string)
    ensures PlayCell(c, steps + [s], t, k) ==
            if About(s, t, k) then StepCell(PlayCell(c, steps, t, k), s) else PlayCell(c, steps, t, k)
  {
    hide About, StepCell;
    assert (steps + [s])[..|steps|] == steps;
  }

  /** The first p writes of a transaction that counts as committed, redone. */
  lemma {:induction false} ChunkRedo(c: Chunk, p: nat, done: set<nat>, cell: Option<R.Row>, t: string, k: string)
    requires Faithful(c) && p <= |LoggedBy(c.event)| && c.event.txn in done
    ensures PlayCell(cell, RedoSteps(c.recs[..p], done), t, k) == RedoAll(cell, WritesOn(LoggedBy(c.event)[..p], t, k))
    decreases p
  {
    hide About, StepCell, RedoOne, RedoAll, Deserialized, RedoSteps, PlayCell, WritesOn;
    var ws := LoggedBy(c.event);
    if p == 0 {
      assert c.recs[..0] == [] && ws[..0] == [];
      RedoNothing(done, cell, t, k);
    } else {
      var rec, w := c.recs[p - 1], ws[p - 1];
      assert ws[..p] == ws[..p - 1] + [w] && c.recs[..p] == c.recs[..p - 1] + [rec];
      ChunkRedo(c, p - 1, done, cell, t, k);
      StepsSnoc(c.recs[..p - 1], rec, done);
      PlayCellSnoc(cell, RedoSteps(c.recs[..p - 1], done), Redo(rec), t, k);
      assert Shows(rec, c.event.txn, w);
      RedoStep(PlayCell(cell, RedoSteps(c.recs[..p - 1], done), t, k), Redo(rec), w, t, k);
      WritesOnSnoc(ws[..p - 1], w, t, k);
      RedoAllConcat(cell, WritesOn(ws[..p - 1], t, k), if w.table == t && w.key == k then [w] else []);
    }
  }

  lemma RedoNothing(done: set<nat>, cell: Option<R.Row>, t: string, k: string)
    ensures RedoSteps([], done) == [] && PlayCell(cell, [], t, k) == cell
    ensures WritesOn([], t, k) == [] && RedoAll(cell, []) == cell
  {
  }

  lemma {:induction false} NothingRedone(rs: seq<LogRecord>, committed: set<nat>)
    requires forall r :: r in rs ==> r.txnId !in committed
    ensures RedoSteps(rs, committed) == []
  {
    if rs != [] {
      NothingRedone(rs[..|rs| - 1], committed);
    }
  }

  lemma ChunkTxn(c: Chunk)
    requires Faithful(c)
    ensures forall r :: r in c.recs ==> r.txnId == c.event.txn
  {
    forall r | r in c.recs
      ensures r.txnId == c.event.txn
    {
      var i :| 0 <= i < |c.recs| && c.recs[i] == r;
      assert i < |LoggedBy(c.event)| ==> Shows(c.recs[i], c.event.txn, LoggedBy(c.event)[i]);
    }
  }

  /** The writes of the chunk, if its id is that of a Commit record. */
  function Redone(e: Event, done: set<nat>): seq<R.WriteRecord> {
    if e.txn in done then LoggedBy(e) else []
  }

  function Undone(e: Event, done: set<nat>): seq<R.WriteRecord> {
    if e.txn in done then [] else LoggedBy(e)
  }

  lemma WholeRedo(c: Chunk, done: set<nat>, cell: Option<R.Row>, t: string, k: string)
    requires Faithful(c)
    ensures PlayCell(cell, RedoSteps(c.recs, done), t, k) == RedoAll(cell, WritesOn(Redone(c.event, done), t, k))
  {
    hide RedoAll, RedoSteps, PlayCell, WritesOn, Faithful, StepCell;
    if c.event.txn in done {
      LastIsNoWrite(c);
      var n := |LoggedBy(c.event)|;
      ChunkRedo(c, n, done, cell, t, k);
      StepsSnoc(c.recs[..n], c.recs[n], done);
      PlayCellSnoc(cell, RedoSteps(c.recs[..n], done), Redo(c.recs[n]), t, k);
    } else {
      ChunkTxn(c);
      RedoNothing(done, cell, t, k);
      NothingRedone(c.recs, done);
    }
  }

  lemma LastIsNoWrite(c: Chunk)
    requires Faithful(c)
    ensures var n, ws := |LoggedBy(c.event)|, LoggedBy(c.event);
      && |c.recs| == n + 1 && c.recs == c.recs[..n] + [c.recs[n]] && ws[..n] == ws
      && !IsWrite(c.recs[n]) && c.recs[n].txnId == c.event.txn
  {
    hide Shows;
  }

  /** What recovery takes for committed: the logged writes of every id that has a Commit record. */
  function Counted(h: seq<Chunk>, done: set<nat>): seq<R.WriteRecord> {
    if h == [] then []
    else Counted(h[..|h| - 1], done) + Redone(h[|h| - 1].event, done)
  }

  /** The others. */
  function Uncounted(h: seq<Chunk>, done: set<nat>): seq<R.WriteRecord> {
    if h == [] then []
    else Uncounted(h[..|h| - 1], done) + Undone(h[|h| - 1].event, done)
  }

  lemma {:induction false} HistoryRedo(h: seq<Chunk>, done: set<nat>, t: string, k: string)
    requires Written(h)
    ensures PlayCell(None, RedoSteps(LogOf(h), done), t, k) == RedoAll(None, WritesOn(Counted(h, done), t, k))
    decreases |h|
  {
    hide Faithful, RedoSteps, PlayCell, KeyedAll, RedoAll, WritesOn, Redone;
    if h == [] {
      RedoNothing(done, None, t, k);
    } else {
      var front, c := h[..|h| - 1], h[|h| - 1];
      var now := Redone(c.event, done);
      HistoryRedo(front, done, t, k);
      StepsConcat(LogOf(front), c.recs, done);
      PlayCellConcat(None, RedoSteps(LogOf(front), done), RedoSteps(c.recs, done), t, k);
      WholeRedo(c, done, PlayCell(None, RedoSteps(LogOf(front), done), t, k), t, k);
      WritesOnConcat(Counted(front, done), now, t, k);
      RedoAllConcat(None, WritesOn(Counted(front, done), t, k), WritesOn(now, t, k));
    }
  }

  // ----- the writes that are undone -----

  /** The writes of aborted transactions, in log order. */
  function AbortedWrites(h: seq<Chunk>): seq<R.WriteRecord> {
    if h == [] then []
    else AbortedWrites(h[..|h| - 1]) + (if h[|h| - 1].event.Aborted? then h[|h| - 1].event.writes else [])
  }

  predicate AnyInserts(ws: seq<R.WriteRecord>) {
    exists w :: w in ws && w.kind == R.Insert
  }

  /** What undoing writes on one id leaves of the row c that is there. */
  function TakenBack(c: Option<R.Row>, ws: seq<R.WriteRecord>): Option<R.Row> {
    if ws == [] then c else if c.None? || AnyInserts(ws) then None else Some(ws[0].oldRow)
  }

  /** Undoing the writes leaves c as it is: none inserts the id, and the first had found c. */
  predicate HarmlessTo(c: Option<R.Row>, ws: seq<R.WriteRecord>) {
    c.None? || ws == [] || (!AnyInserts(ws) && ws[0].oldRow == c.value)
  }

  ghost predicate AllHarmless(live: Live, ws: seq<R.WriteRecord>) {
    forall t, k :: HarmlessTo(Lookup(live, t, k), WritesOn(ws, t, k))
  }

  /** The records show the writes, one by one. */
  ghost predicate Mirrors(rs: seq<LogRecord>, ws: seq<R.WriteRecord>) {
    |rs| == |ws| && forall i :: 0 <= i < |ws| ==> Shows(rs[i], rs[i].txnId, ws[i])
  }

  lemma TakenMirrors(c: Option<R.Row>, rs: seq<LogRecord>, ws: seq<R.WriteRecord>)
    requires Mirrors(rs, ws)
    ensures Taken(c, rs) == TakenBack(c, ws)
  {
    hide Deserialized;
    if r :| r in rs && r.kind.Insert? {
      var i :| 0 <= i < |rs| && rs[i] == r;
      assert ws[i] in ws;
    }
    if w :| w in ws && w.kind == R.Insert {
      var i :| 0 <= i < |ws| && ws[i] == w;
      assert rs[i] in rs;
    }
  }

  lemma LosersSnoc(rs: seq<LogRecord>, r: LogRecord, committed: set<nat>, t: string, k: string)
    ensures Losers(rs + [r], committed, t, k) ==
            Losers(rs, committed, t, k) + (if r.txnId !in committed && About(Undo(r), t, k) then [r] else [])
  {
    hide About;
    assert (rs + [r])[..|rs|] == rs;
  }

  lemma NoLosers(committed: set<nat>, t: string, k: string)
    ensures Losers([], committed, t, k) == []
  {
  }

  lemma {:induction false} LosersConcat(a: seq<LogRecord>, b: seq<LogRecord>, committed: set<nat>, t: string, k: string)
    ensures Losers(a + b, committed, t, k) == Losers(a, committed, t, k) + Losers(b, committed, t, k)
    decreases |b|
  {
    hide Losers, About;
    if b == [] {
      assert a + b == a;
      NoLosers(committed, t, k);
    } else {
      var front, r := b[..|b| - 1], b[|b| - 1];
      LosersConcat(a, front, committed, t, k);
      LosersSnoc(a + front, r, committed, t, k);
      LosersSnoc(front, r, committed, t, k);
      assert b == front + [r] && a + b == (a + front) + [r];
    }
  }

  lemma {:induction false} WinnersOnly(rs: seq<LogRecord>, committed: set<nat>, t: string, k: string)
    requires forall r :: r in rs ==> r.txnId in committed || !IsWrite(r)
    ensures Losers(rs, committed, t, k) == []
    decreases |rs|
  {
    if rs != [] {
      WinnersOnly(rs[..|rs| - 1], committed, t, k);
    }
  }

  /** The first p writes of a transaction that did not commit. */
  lemma {:induction false} ChunkLosers(c: Chunk, p: nat, committed: set<nat>, t: string, k: string)
    requires Faithful(c) && p <= |LoggedBy(c.event)| && c.event.txn !in committed
    ensures Mirrors(Losers(c.recs[..p], committed, t, k), WritesOn(LoggedBy(c.event)[..p], t, k))
    decreases p
  {
    hide Deserialized, Losers, WritesOn;
    var ws := LoggedBy(c.event);
    if p == 0 {
      NoLosers(committed, t, k);
      NoWritesOn(t, k);
      assert c.recs[..0] == [] && ws[..0] == [];
    } else {
      ChunkLosers(c, p - 1, committed, t, k);
      assert Shows(c.recs[p - 1], c.event.txn, ws[p - 1]);
      assert c.recs[..p] == c.recs[..p - 1] + [c.recs[p - 1]] && ws[..p] == ws[..p - 1] + [ws[p - 1]];
      LosersSnoc(c.recs[..p - 1], c.recs[p - 1], committed, t, k);
      WritesOnSnoc(ws[..p - 1], ws[p - 1], t, k);
    }
  }

  lemma WholeLosers(c: Chunk, done: set<nat>, t: string, k: string)
    requires Faithful(c)
    ensures Mirrors(Losers(c.recs, done, t, k), WritesOn(Undone(c.event, done), t, k))
  {
    hide Losers, WritesOn, Shows;
    ChunkTxn(c);
    NoWritesOn(t, k);
    if c.event.txn in done {
      WinnersOnly(c.recs, done, t, k);
    } else {
      var n := |LoggedBy(c.event)|;
      ChunkLosers(c, n, done, t, k);
      assert LoggedBy(c.event)[..n] == LoggedBy(c.event) && c.recs == c.recs[..n] + [c.recs[n]];
      LosersSnoc(c.recs[..n], c.recs[n], done, t, k);
    }
  }

  lemma {:induction false} HistoryLosers(h: seq<Chunk>, done: set<nat>, t: string, k: string)
    requires Written(h)
    ensures Mirrors(Losers(LogOf(h), done, t, k), WritesOn(Uncounted(h, done), t, k))
    decreases |h|
  {
    hide Losers, WritesOn, Shows, Faithful, KeyedAll, Undone;
    if h == [] {
      NoLosers(done, t, k);
      NoWritesOn(t, k);
    } else {
      var front, c := h[..|h| - 1], h[|h| - 1];
      HistoryLosers(front, done, t, k);
      WholeLosers(c, done, t, k);
      LosersConcat(LogOf(front), c.recs, done, t, k);
      WritesOnConcat(Uncounted(front, done), Undone(c.event, done), t, k);
    }
  }

  // ----- ids that do not meet a Commit record of another transaction -----

  /** Every commit is in the set, and no aborted transaction is. */
  ghost predicate Covers(done: set<nat>, h: seq<Chunk>) {
    forall c :: c in h && !c.event.Begun? ==> (c.event.Committed? <==> c.event.txn in done)
  }

  /** No aborted transaction shares its id with a Commit record. */
  ghost predicate AbortsApart(h: seq<Chunk>) {
    forall c :: c in h && c.event.Aborted? ==> c.event.txn !in Done(h)
  }

  /** Redo is then the replay of the commits, and the aborted writes are what is left. */
  lemma {:induction false} CoveredRedo(h: seq<Chunk>, done: set<nat>, t: string, k: string)
    requires History(h) && Covers(done, h)
    ensures RedoAll(None, WritesOn(Counted(h, done), t, k)) == Lookup(Replay(h), t, k)
    ensures Uncounted(h, done) == AbortedWrites(h)
    decreases |h|
  {
    hide Faithful, LegalAll, RedoAll, WritesOn, PerformAll, KeyedAll, Lookup;
    if h == [] {
      RedoNothing(done, None, t, k);
      LookupNothing(t, k);
    } else {
      var front, c := h[..|h| - 1], h[|h| - 1];
      assert c in h;
      CoveredRedo(front, done, t, k);
      var now := Redone(c.event, done);
      assert now == WritesOf(c.event);
      assert Undone(c.event, done) == if c.event.Aborted? then c.event.writes else [];
      WritesOnConcat(Counted(front, done), now, t, k);
      RedoAllConcat(None, WritesOn(Counted(front, done), t, k), WritesOn(now, t, k));
      RedoIsPerform(Replay(front), now, t, k);
    }
  }

  lemma LookupNothing(t: string, k: string)
    ensures Lookup(map[], t, k) == None
  {
  }

  // ----- every record carries its id -----

  lemma {:induction false} LegalKeyed(live: Live, ws: seq<R.WriteRecord>)
    requires LegalAll(live, ws)
    ensures KeyedAll(ws)
    decreases |ws|
  {
    hide PerformAll;
    if ws != [] {
      LegalKeyed(live, ws[..|ws| - 1]);
      assert ws == ws[..|ws| - 1] + [ws[|ws| - 1]];
    }
  }

  lemma ChunkKeyed(c: Chunk)
    requires Faithful(c) && KeyedAll(LoggedBy(c.event))
    ensures forall r :: r in c.recs ==> KeyedBy(r)
  {
    hide Deserialized;
    forall r | r in c.recs
      ensures KeyedBy(r)
    {
      var i :| 0 <= i < |c.recs| && c.recs[i] == r;
      if i < |LoggedBy(c.event)| {
        assert Shows(c.recs[i], c.event.txn, LoggedBy(c.event)[i]);
        assert Keyed(LoggedBy(c.event)[i]);
      }
    }
  }

  lemma {:induction false} HistoryKeyed(h: seq<Chunk>)
    requires Written(h)
    ensures forall r :: r in LogOf(h) ==> KeyedBy(r)
    decreases |h|
  {
    hide KeyedBy, Faithful, KeyedAll;
    if h != [] {
      HistoryKeyed(h[..|h| - 1]);
      ChunkKeyed(h[|h| - 1]);
    }
  }

  // ----- where the cut falls -----

  /** How many chunks lie wholly in the first n bytes: the commits whose Commit record is whole
      are those among them. */
  function Durable(h: seq<Chunk>, n: nat): (j: nat)
    ensures j <= |h|
    decreases |h|
  {
    if h == [] || |EncodeAll(LogOf(h))| <= n then |h| else Durable(h[..|h| - 1], n)
  }

  lemma {:induction false} WholeConcat(a: seq<LogRecord>, b: seq<LogRecord>, n: nat)
    ensures Whole(a + b, n) == if |EncodeAll(a)| <= n then |a| + Whole(b, n - |EncodeAll(a)|) else Whole(a, n)
  {
    hide Encode;
    if a == [] {
      assert a + b == b;
    } else {
      assert (a + b)[1..] == a[1..] + b;
      if |Encode(a[0])| <= n {
        WholeConcat(a[1..], b, n - |Encode(a[0])|);
      }
    }
  }

  lemma {:induction false} WholeShort(rs: seq<LogRecord>, n: nat)
    ensures Whole(rs, n) == |rs| <==> |EncodeAll(rs)| <= n
  {
    hide Encode;
    if rs != [] && |Encode(rs[0])| <= n {
      WholeShort(rs[1..], n - |Encode(rs[0])|);
    }
  }

  /** The records of the chunk that was cut, as far as they are whole. */
  function TornRecs(h: seq<Chunk>, n: nat): (rs: seq<LogRecord>)
  {
    var j := Durable(h, n);
    var before := |EncodeAll(LogOf(h[..j]))|;
    if j == |h| || n < before then [] else h[j].recs[..Whole(h[j].recs, n - before)]
  }

  lemma {:induction false} CutShape(h: seq<Chunk>, n: nat)
    ensures LogOf(h)[..Whole(LogOf(h), n)] == LogOf(h[..Durable(h, n)]) + TornRecs(h, n)
    ensures Durable(h, n) < |h| ==> |TornRecs(h, n)| < |h[Durable(h, n)].recs|
    ensures |EncodeAll(LogOf(h[..Durable(h, n)]))| <= n
    decreases |h|
  {
    hide Whole, EncodeAll, LogOf;
    WholeShort(LogOf(h), n);
    if h == [] || |EncodeAll(LogOf(h))| <= n {
      assert h[..|h|] == h;
      EmptyLog(h);
    } else {
      var front, c := h[..|h| - 1], h[|h| - 1];
      LogSplits(h);
      WholeConcat(LogOf(front), c.recs, n);
      EncodeAllConcat(LogOf(front), c.recs);
      WholeShort(LogOf(front), n);
      if |EncodeAll(LogOf(front))| <= n {
        assert Durable(front, n) == |front|;
        assert h[..|front|] == front;
        WholeShort(c.recs, n - |EncodeAll(LogOf(front))|);
      } else {
        CutFront(h, n);
      }
    }
  }

  lemma EmptyLog(h: seq<Chunk>)
    ensures h == [] ==> LogOf(h) == [] && EncodeAll(LogOf(h)) == ""
  {
  }

  lemma LogSplits(h: seq<Chunk>)
    requires h != []
    ensures LogOf(h) == LogOf(h[..|h| - 1]) + h[|h| - 1].recs
  {
  }

  lemma {:induction false} CutFront(h: seq<Chunk>, n: nat)
    requires h != [] && |EncodeAll(LogOf(h[..|h| - 1]))| > n && |EncodeAll(LogOf(h))| > n
    ensures LogOf(h)[..Whole(LogOf(h), n)] == LogOf(h[..Durable(h, n)]) + TornRecs(h, n)
    ensures Durable(h, n) < |h| && |TornRecs(h, n)| < |h[Durable(h, n)].recs|
    ensures |EncodeAll(LogOf(h[..Durable(h, n)]))| <= n
    decreases |h|, 0
  {
    hide Whole, EncodeAll, LogOf;
    var front := h[..|h| - 1];
    CutShape(front, n);
    LogSplits(h);
    WholeConcat(LogOf(front), h[|h| - 1].recs, n);
    WholeShort(LogOf(front), n);
    var j := Durable(front, n);
    assert front[..|front|] == front;
    assert h[..j] == front[..j];
    assert LogOf(h)[..Whole(LogOf(front), n)] == LogOf(front)[..Whole(LogOf(front), n)];
  }

  // ----- the theorem -----

  lemma WrittenPrefix(h: seq<Chunk>, j: nat)
    requires Written(h) && j <= |h|
    ensures Written(h[..j]) && (j < |h| ==> Faithful(h[j]) && KeyedAll(LoggedBy(h[j].event)))
  {
    hide Faithful, KeyedAll;
  }

  lemma {:induction false} HistoryPrefix(h: seq<Chunk>, j: nat)
    requires History(h) && j <= |h|
    ensures History(h[..j])
    ensures j < |h| ==>
      && Faithful(h[j]) && LegalAll(Replay(h[..j]), WritesOf(h[j].event)) && KeyedAll(LoggedBy(h[j].event))
    decreases |h|
  {
    hide Faithful, LegalAll, Replay, KeyedAll;
    assert h[..|h|] == h;
    if j < |h| {
      assert j < |h| - 1 ==> h[..|h| - 1][..j] == h[..j];
      HistoryPrefix(h[..|h| - 1], j);
    }
  }

  /** The Commit records in the log are those of the commits. */
  lemma {:induction false} CommitsLogged(h: seq<Chunk>)
    requires Written(h)
    ensures CommittedIn(LogOf(h)) == Done(h)
    decreases |h|
  {
    hide KeyedAll, LogOf, CommittedIn, Faithful, Done;
    if h == [] {
      EmptyLog(h);
      NoneDone();
    } else {
      var front, c := h[..|h| - 1], h[|h| - 1];
      LogSplits(h);
      CommitsLogged(front);
      CommitsGrow(LogOf(front), c);
      DoneMore(front, c);
      assert h == front + [c];
    }
  }

  lemma NoneDone()
    ensures CommittedIn([]) == Done([]) == {}
  {
  }

  lemma DoneMore(h: seq<Chunk>, c: Chunk)
    ensures Done(h + [c]) == Done(h) + if c.event.Committed? then {c.event.txn} else {}
  {
    assert forall d :: d in h + [c] <==> d in h || d == c;
  }

  lemma CommitsGrow(rs: seq<LogRecord>, c: Chunk)
    requires Faithful(c)
    ensures CommittedIn(rs + c.recs) == CommittedIn(rs) + if c.event.Committed? then {c.event.txn} else {}
  {
    hide Shows;
    forall r | r in c.recs && r.kind == Commit
      ensures c.event.Committed? && r.txnId == c.event.txn
    {
      ChunkCommits(c, r);
    }
    if c.event.Committed? {
      assert c.recs[|c.event.writes|] in rs + c.recs;
    }
    assert forall r :: r in rs + c.recs <==> r in rs || r in c.recs;
  }

  lemma WritesCommitNothing(c: Chunk)
    requires Faithful(c)
    ensures forall i :: 0 <= i < |LoggedBy(c.event)| ==> c.recs[i].kind != Commit
  {
    forall i | 0 <= i < |LoggedBy(c.event)|
      ensures c.recs[i].kind != Commit
    {
      assert Shows(c.recs[i], c.event.txn, LoggedBy(c.event)[i]);
    }
  }

  lemma ChunkCommits(c: Chunk, r: LogRecord)
    requires Faithful(c) && r in c.recs && r.kind == Commit
    ensures c.event.Committed? && r.txnId == c.event.txn
  {
    var i :| 0 <= i < |c.recs| && c.recs[i] == r;
    WritesCommitNothing(c);
  }

  /** A torn chunk commits nothing. */
  lemma TornCommits(h: seq<Chunk>, c: Chunk, p: nat)
    requires Faithful(c) && p < |c.recs|
    ensures CommittedIn(LogOf(h) + c.recs[..p]) == CommittedIn(LogOf(h))
  {
    WritesCommitNothing(c);
    assert forall r :: r in LogOf(h) + c.recs[..p] <==> r in LogOf(h) || r in c.recs[..p];
  }

  /** The logged writes of the chunk that was cut, as far as their records are whole. */
  function TornWrites(h: seq<Chunk>, n: nat): seq<R.WriteRecord> {
    var j := Durable(h, n);
    if j == |h| || |TornRecs(h, n)| > |LoggedBy(h[j].event)| then []
    else LoggedBy(h[j].event)[..|TornRecs(h, n)|]
  }

  /** What a crash leaves to undo: the writes of rollbacks that are whole, then the torn ones. */
  function Unfinished(h: seq<Chunk>, n: nat): seq<R.WriteRecord> {
    AbortedWrites(h[..Durable(h, n)]) + TornWrites(h, n)
  }

  /** The transaction that was cut has an id with a whole Commit record, of another transaction. */
  predicate TornCounts(h: seq<Chunk>, n: nat) {
    var j := Durable(h, n);
    j < |h| && h[j].event.txn in Done(h[..j])
  }

  /** The writes that recovery redoes after a cut. */
  function CountedAt(h: seq<Chunk>, n: nat): seq<R.WriteRecord> {
    var whole := h[..Durable(h, n)];
    Counted(whole, Done(whole)) + if TornCounts(h, n) then TornWrites(h, n) else []
  }

  /** The writes that recovery undoes after a cut. */
  function UncountedAt(h: seq<Chunk>, n: nat): seq<R.WriteRecord> {
    var whole := h[..Durable(h, n)];
    Uncounted(whole, Done(whole)) + if TornCounts(h, n) then [] else TornWrites(h, n)
  }

  /** Recovery of whole chunks followed by the whole records of a torn one, id by id. */
  lemma TornCell(h: seq<Chunk>, c: Chunk, p: nat, t: string, k: string)
    requires Written(h) && Faithful(c) && KeyedAll(LoggedBy(c.event)) && p < |c.recs|
    ensures var torn, done := LoggedBy(c.event)[..p], Done(h);
      var counts := c.event.txn in done;
      Cell(Recover(map[], LogOf(h) + c.recs[..p]), t, k) ==
      TakenBack(RedoAll(None, WritesOn(Counted(h, done) + (if counts then torn else []), t, k)),
                WritesOn(Uncounted(h, done) + (if counts then [] else torn), t, k))
  {
    hide PlayCell, RedoSteps, TakenBack, KeyedBy, KeyedAll, Shows, LogOf, Written,
      Play, Recover, CommittedIn, Losers, WritesOn, Sound, Faithful, Cell, Done, RedoAll;
    var rs, done := LogOf(h) + c.recs[..p], Done(h);
    FaithfulLength(c);
    TornCommits(h, c, p);
    CommitsLogged(h);
    HistoryKeyed(h);
    ChunkKeyed(c);
    RecoveredCell(map[], rs, t, k) by {
      assert AllHaveIds(map[]);
    }
    var torn := LoggedBy(c.event)[..p];
    var counts := c.event.txn in done;
    TornRedo(h, c, p, done, t, k);
    TornLosers(h, c, p, done, t, k);
    TakenMirrors(RedoAll(None, WritesOn(Counted(h, done) + (if counts then torn else []), t, k)), Losers(rs, done, t, k),
                 WritesOn(Uncounted(h, done) + (if counts then [] else torn), t, k));
  }

  lemma TornRedo(h: seq<Chunk>, c: Chunk, p: nat, done: set<nat>, t: string, k: string)
    requires Written(h) && Faithful(c) && KeyedAll(LoggedBy(c.event)) && p < |c.recs|
    ensures Cell(Play(map[], RedoSteps(LogOf(h) + c.recs[..p], done)), t, k) ==
            RedoAll(None, WritesOn(Counted(h, done) + (if c.event.txn in done then LoggedBy(c.event)[..p] else []), t, k))
  {
    hide PlayCell, RedoSteps, KeyedAll, Shows, LogOf, Written, Play, Sound, RedoAll, WritesOn, Counted;
    var torn := if c.event.txn in done then LoggedBy(c.event)[..p] else [];
    var before := RedoAll(None, WritesOn(Counted(h, done), t, k));
    FaithfulLength(c);
    HistoryRedo(h, done, t, k);
    WritesOnConcat(Counted(h, done), torn, t, k);
    RedoAllConcat(None, WritesOn(Counted(h, done), t, k), WritesOn(torn, t, k));
    ChunkTxn(c);
    if c.event.txn in done {
      ChunkRedo(c, p, done, before, t, k);
    } else {
      NothingRedone(c.recs[..p], done);
      RedoNothing(done, before, t, k);
    }
    StepsConcat(LogOf(h), c.recs[..p], done);
    PlayCellConcat(None, RedoSteps(LogOf(h), done), RedoSteps(c.recs[..p], done), t, k);
    RedoneCell(h, c, p, done, t, k);
  }

  lemma RedoneCell(h: seq<Chunk>, c: Chunk, p: nat, done: set<nat>, t: string, k: string)
    requires Written(h) && Faithful(c) && KeyedAll(LoggedBy(c.event)) && p < |c.recs|
    ensures var redo := RedoSteps(LogOf(h) + c.recs[..p], done);
      Cell(Play(map[], redo), t, k) == PlayCell(None, redo, t, k)
  {
    hide PlayCell, RedoSteps, Shows, LogOf, Written, Play, Sound, Faithful, KeyedAll;
    HistoryKeyed(h);
    ChunkKeyed(c);
    var rs := LogOf(h) + c.recs[..p];
    StepKinds(rs, done);
    forall s | s in RedoSteps(rs, done) ensures Sound(s) {
      assert KeyedBy(s.rec);
    }
    PlayIsCell(map[], RedoSteps(rs, done), t, k);
  }

  lemma TornLosers(h: seq<Chunk>, c: Chunk, p: nat, done: set<nat>, t: string, k: string)
    requires Written(h) && Faithful(c) && p < |c.recs|
    ensures Mirrors(Losers(LogOf(h) + c.recs[..p], done, t, k),
                    WritesOn(Uncounted(h, done) + (if c.event.txn in done then [] else LoggedBy(c.event)[..p]), t, k))
  {
    hide KeyedAll, Shows, LogOf, Written, Losers, WritesOn, Uncounted;
    HistoryLosers(h, done, t, k);
    LosersConcat(LogOf(h), c.recs[..p], done, t, k);
    FaithfulLength(c);
    WritesOnConcat(Uncounted(h, done), if c.event.txn in done then [] else LoggedBy(c.event)[..p], t, k);
    if c.event.txn in done {
      ChunkTxn(c);
      WinnersOnly(c.recs[..p], done, t, k);
      NoWritesOn(t, k);
    } else {
      ChunkLosers(c, p, done, t, k);
    }
  }

  lemma HarmlessIs(c: Option<R.Row>, ws: seq<R.WriteRecord>)
    ensures TakenBack(c, ws) == c <==> HarmlessTo(c, ws)
  {
  }

  /** Cut the encoded log at any byte, decode it and recover into empty storage: what is under an id
      is what redoing the counted writes on it gives, less what undoing the others takes. */
  lemma CutCell(h: seq<Chunk>, n: nat, t: string, k: string)
    requires Written(h) && AllFit(LogOf(h)) && n <= |EncodeAll(LogOf(h))|
    ensures Cell(Recover(map[], ReadAll(EncodeAll(LogOf(h))[..n])), t, k) ==
            TakenBack(RedoAll(None, WritesOn(CountedAt(h, n), t, k)), WritesOn(UncountedAt(h, n), t, k))
  {
    hide Written, LogOf, EncodeAll, ReadAll, Durable, Fit, Recover, Cell, TakenBack, WritesOn,
      KeyedAll, Shows, TornRecs, RedoAll, Counted, Uncounted, Done;
    var j := Durable(h, n);
    CutReadsWhole(LogOf(h), n);
    CutShape(h, n);
    WrittenPrefix(h, j);
    if j < |h| {
      FaithfulLength(h[j]);
      TornCell(h[..j], h[j], |TornRecs(h, n)|, t, k);
      TornIsPrefix(h, n);
    } else {
      var begun := Chunk(Begun(0), [LogRecord(0, 0, 0, Begin, "", "", "", "")]);
      KeyedNone();
      TornCell(h[..j], begun, 0, t, k);
      TornIsPrefix(h, n);
    }
  }

  /** Neither an aborted transaction nor the torn one shares its id with a whole Commit record. */
  ghost predicate SeparateAt(h: seq<Chunk>, n: nat) {
    AbortsApart(h[..Durable(h, n)]) && (TornCounts(h, n) ==> TornWrites(h, n) == [])
  }

  lemma AbortsCovered(h: seq<Chunk>)
    requires AbortsApart(h)
    ensures Covers(Done(h), h)
  {
  }

  /** What is under an id is then the replay of the whole commits, less what undoing the unfinished
      writes on it takes. */
  lemma SeparateCell(h: seq<Chunk>, n: nat, t: string, k: string)
    requires History(h) && AllFit(LogOf(h)) && n <= |EncodeAll(LogOf(h))| && SeparateAt(h, n)
    ensures Cell(Recover(map[], ReadAll(EncodeAll(LogOf(h))[..n])), t, k) ==
            TakenBack(Lookup(Replay(h[..Durable(h, n)]), t, k), WritesOn(Unfinished(h, n), t, k))
  {
    hide History, Written, LogOf, EncodeAll, ReadAll, Durable, Replay, Fit, Recover, Cell, TakenBack, WritesOn,
      TornWrites, RedoAll, Counted, Uncounted, Done, AbortsApart, Covers, Lookup, AbortedWrites;
    var whole := h[..Durable(h, n)];
    HistoryPrefix(h, |whole|);
    HistoryWritten(h);
    CutCell(h, n, t, k);
    AbortsCovered(whole);
    CoveredRedo(whole, Done(whole), t, k);
    assert Counted(whole, Done(whole)) + [] == Counted(whole, Done(whole));
  }

  lemma KeyedNone()
    ensures KeyedAll([])
  {
  }

  lemma FaithfulLength(c: Chunk)
    requires Faithful(c)
    ensures |c.recs| == |LoggedBy(c.event)| + 1
  {
  }

  lemma TornIsPrefix(h: seq<Chunk>, n: nat)
    ensures var j := Durable(h, n);
      j == |h| ==> TornRecs(h, n) == []
    ensures var j := Durable(h, n);
      j < |h| ==> TornRecs(h, n) == h[j].recs[..|TornRecs(h, n)|]
  {
    hide Durable, EncodeAll, LogOf, Whole;
  }

  /** Exactly when recovery after a crash is right, if these ids are separate: the ids and their rows
      are the replay, in log order, of the commits whose records are whole, iff the writes of whole
      rollbacks and of the torn chunk are harmless on every id. */
  lemma CrashRecoversIff(h: seq<Chunk>, n: nat)
    requires History(h) && AllFit(LogOf(h)) && n <= |EncodeAll(LogOf(h))| && SeparateAt(h, n)
    ensures RecoversAt(h, n) <==> AllHarmless(Replay(h[..Durable(h, n)]), Unfinished(h, n))
  {
    hide History, LogOf, EncodeAll, ReadAll, Durable, Replay, Lookup, Fit, Recover, Cell, TakenBack, WritesOn,
      Unfinished, SeparateAt, HarmlessTo;
    var live := Replay(h[..Durable(h, n)]);
    forall t, k
      ensures Cell(Recover(map[], ReadAll(EncodeAll(LogOf(h))[..n])), t, k) == Lookup(live, t, k) <==>
              HarmlessTo(Lookup(live, t, k), WritesOn(Unfinished(h, n), t, k))
    {
      SeparateCell(h, n, t, k);
      HarmlessIs(Lookup(live, t, k), WritesOn(Unfinished(h, n), t, k));
    }
  }

  // ----- the histories that are safe at every cut -----

  /** No aborted transaction shares its id with a Commit record, and no commit that wrote with an
      earlier one. */
  ghost predicate Separate(h: seq<Chunk>) {
    && AbortsApart(h)
    && forall j :: 0 <= j < |h| && LoggedBy(h[j].event) != [] ==> h[j].event.txn !in Done(h[..j])
  }

  lemma DoneBefore(h: seq<Chunk>, j: nat)
    requires j <= |h|
    ensures Done(h[..j]) <= Done(h)
  {
  }

  lemma SeparateMeans(h: seq<Chunk>, n: nat)
    requires Separate(h)
    ensures SeparateAt(h, n)
  {
    hide Durable, TornRecs, Done;
    DoneBefore(h, Durable(h, n));
  }

  /** Ids that end once are separate. */
  lemma OnceSeparate(h: seq<Chunk>)
    requires EndsOnce(h)
    ensures Separate(h)
  {
    forall j | 0 <= j < |h| && (h[j].event.Aborted? || LoggedBy(h[j].event) != [])
      ensures h[j].event.txn !in Done(h[..j]) && (h[j].event.Aborted? ==> h[j].event.txn !in Done(h))
    {
      forall c | c in h && c.event.Committed? && c != h[j]
        ensures c.event.txn != h[j].event.txn
      {
        var i :| 0 <= i < |h| && h[i] == c;
        assert i < j || j < i;
      }
      forall c | c in h[..j] && c.event.Committed?
        ensures c.event.txn != h[j].event.txn
      {
        var i :| 0 <= i < j && h[..j][i] == c;
        assert h[i] == c;
      }
    }
  }

  /** Nothing whole or torn is harmful, wherever the log ends. */
  ghost predicate SafeEverywhere(h: seq<Chunk>) {
    && AllHarmless(Replay(h), AbortedWrites(h))
    && forall j :: 0 <= j < |h| ==> AllHarmless(Replay(h[..j]), AbortedWrites(h[..j]) + LoggedBy(h[j].event))
  }

  ghost predicate RecoversAt(h: seq<Chunk>, n: nat)
    requires n <= |EncodeAll(LogOf(h))|
  {
    forall t, k :: Cell(Recover(map[], ReadAll(EncodeAll(LogOf(h))[..n])), t, k) == Lookup(Replay(h[..Durable(h, n)]), t, k)
  }

  lemma FewerHarmless(live: Live, a: seq<R.WriteRecord>, b: seq<R.WriteRecord>, p: nat)
    requires AllHarmless(live, a + b) && p <= |b|
    ensures AllHarmless(live, a + b[..p])
  {
    hide WritesOn, HarmlessTo, Lookup;
    forall t, k
      ensures HarmlessTo(Lookup(live, t, k), WritesOn(a + b[..p], t, k))
    {
      assert a + b == (a + b[..p]) + b[p..];
      WritesOnConcat(a + b[..p], b[p..], t, k);
      PrefixHarmless(Lookup(live, t, k), WritesOn(a + b[..p], t, k), WritesOn(b[p..], t, k));
    }
  }

  lemma PrefixHarmless(c: Option<R.Row>, a: seq<R.WriteRecord>, b: seq<R.WriteRecord>)
    requires HarmlessTo(c, a + b)
    ensures HarmlessTo(c, a)
  {
    assert forall w :: w in a ==> w in a + b;
  }

  lemma RecordNotEmpty(r: LogRecord)
    ensures |Encode(r)| > 0
  {
  }

  lemma {:induction false} LogGrows(h: seq<Chunk>, j: nat)
    requires j <= |h|
    ensures |EncodeAll(LogOf(h[..j]))| <= |EncodeAll(LogOf(h))|
    decreases |h|
  {
    hide EncodeAll;
    assert h[..|h|] == h;
    if j < |h| {
      var front := h[..|h| - 1];
      LogGrows(front, j);
      assert front[..j] == h[..j];
      EncodeAllConcat(LogOf(front), h[|h| - 1].recs);
    }
  }

  lemma {:induction false} DurableIs(h: seq<Chunk>, n: nat, j: nat)
    requires j < |h| && |EncodeAll(LogOf(h[..j]))| <= n < |EncodeAll(LogOf(h[..j + 1]))|
    ensures Durable(h, n) == j
    decreases |h|
  {
    hide EncodeAll, LogOf;
    LogGrows(h, j + 1);
    var front := h[..|h| - 1];
    if j < |front| {
      assert front[..j] == h[..j] && front[..j + 1] == h[..j + 1];
      DurableIs(front, n, j);
    }
  }

  /** The log may be cut just after any write of a chunk. */
  lemma CutAfter(h: seq<Chunk>, j: nat, p: nat) returns (n: nat)
    requires j < |h| && |h[j].recs| == |LoggedBy(h[j].event)| + 1 && p <= |LoggedBy(h[j].event)|
    ensures n <= |EncodeAll(LogOf(h))| && Durable(h, n) == j && TornWrites(h, n) == LoggedBy(h[j].event)[..p]
  {
    hide EncodeAll, LogOf, Durable, Whole;
    var recs := h[j].recs;
    var before := |EncodeAll(LogOf(h[..j]))|;
    n := before + |EncodeAll(recs[..p])|;
    assert recs == recs[..p] + recs[p..];
    EncodeAllConcat(recs[..p], recs[p..]);
    NothingWhole(recs[p..]);
    LogSplits(h[..j + 1]);
    assert h[..j + 1][..j] == h[..j];
    EncodeAllConcat(LogOf(h[..j]), recs);
    DurableIs(h, n, j);
    LogGrows(h, j + 1);
    WholeConcat(recs[..p], recs[p..], n - before);
    assert TornRecs(h, n) == recs[..p];
  }

  lemma NothingWhole(rs: seq<LogRecord>)
    requires rs != []
    ensures |EncodeAll(rs)| > 0 && Whole(rs, 0) == 0
  {
    hide Encode;
    RecordNotEmpty(rs[0]);
  }

  lemma CutAtEnd(h: seq<Chunk>, n: nat)
    requires n == |EncodeAll(LogOf(h))|
    ensures Durable(h, n) == |h| && TornWrites(h, n) == [] && h[..|h|] == h
  {
    hide EncodeAll, LogOf;
  }

  lemma TornFits(h: seq<Chunk>, n: nat)
    ensures var j := Durable(h, n);
      j < |h| ==> exists p :: 0 <= p <= |LoggedBy(h[j].event)| && TornWrites(h, n) == LoggedBy(h[j].event)[..p]
    ensures Durable(h, n) == |h| ==> TornWrites(h, n) == []
  {
    hide Durable, TornRecs;
    var j := Durable(h, n);
    if j < |h| {
      var ws := LoggedBy(h[j].event);
      assert ws[..0] == [];
      assert TornWrites(h, n) == ws[..if |TornRecs(h, n)| > |ws| then 0 else |TornRecs(h, n)|];
    }
  }

  /** With separate ids recovery is right wherever the log is cut, iff the history is safe
      everywhere. */
  lemma CrashRecoversEverywhere(h: seq<Chunk>)
    requires History(h) && AllFit(LogOf(h)) && Separate(h)
    ensures (forall n: nat :: n <= |EncodeAll(LogOf(h))| ==> RecoversAt(h, n)) <==> SafeEverywhere(h)
  {
    hide History, LogOf, EncodeAll, Durable, Replay, Fit, AllHarmless, RecoversAt, TornWrites, AbortedWrites,
      Faithful, Separate, SeparateAt;
    var all := |EncodeAll(LogOf(h))|;
    CutAtEnd(h, all);
    SeparateMeans(h, all);
    assert AbortedWrites(h) + [] == AbortedWrites(h);
    if SafeEverywhere(h) {
      forall n: nat | n <= all
        ensures RecoversAt(h, n)
      {
        SafeAt(h, n);
        SeparateMeans(h, n);
        CrashRecoversIff(h, n);
      }
    }
    if forall n: nat :: n <= all ==> RecoversAt(h, n) {
      CrashRecoversIff(h, all);
      forall j | 0 <= j < |h|
        ensures AllHarmless(Replay(h[..j]), AbortedWrites(h[..j]) + LoggedBy(h[j].event))
      {
        HistoryPrefix(h, j);
        FaithfulLength(h[j]);
        var ws := LoggedBy(h[j].event);
        var n := CutAfter(h, j, |ws|);
        assert ws[..|ws|] == ws;
        SeparateMeans(h, n);
        assert RecoversAt(h, n);
        CrashRecoversIff(h, n);
      }
    }
  }

  lemma SafeAt(h: seq<Chunk>, n: nat)
    requires SafeEverywhere(h)
    ensures AllHarmless(Replay(h[..Durable(h, n)]), Unfinished(h, n))
  {
    hide Durable, Replay, AllHarmless, TornWrites, AbortedWrites;
    var j := Durable(h, n);
    TornFits(h, n);
    if j < |h| {
      var p :| 0 <= p <= |LoggedBy(h[j].event)| && TornWrites(h, n) == LoggedBy(h[j].event)[..p];
      FewerHarmless(Replay(h[..j]), AbortedWrites(h[..j]), LoggedBy(h[j].event), p);
    } else {
      assert h[..|h|] == h;
      assert AbortedWrites(h) + [] == AbortedWrites(h);
    }
  }

  // ----- commits alone -----

  predicate NoAborts(h: seq<Chunk>) {
    forall c :: c in h ==> !c.event.Aborted?
  }

  lemma {:induction false} NoAbortedWrites(h: seq<Chunk>)
    requires NoAborts(h)
    ensures AbortedWrites(h) == []
    decreases |h|
  {
    if h != [] {
      NoAbortedWrites(h[..|h| - 1]);
    }
  }

  /** No id among these is inserted again while its row is there. */
  ghost predicate NoneReinserted(live: Live, ws: seq<R.WriteRecord>) {
    forall w :: w in ws && w.kind == R.Insert ==> (w.table, w.key) !in live
  }

  lemma {:induction false} NotMentioned(live: Live, ws: seq<R.WriteRecord>, t: string, k: string)
    requires WritesOn(ws, t, k) == []
    ensures Lookup(PerformAll(live, ws), t, k) == Lookup(live, t, k)
    decreases |ws|
  {
    if ws != [] {
      NotMentioned(live, ws[..|ws| - 1], t, k);
    }
  }

  /** The first legal write on an id finds the row that is there. */
  lemma {:induction false} FirstFinds(live: Live, ws: seq<R.WriteRecord>, t: string, k: string)
    requires LegalAll(live, ws) && WritesOn(ws, t, k) != [] && WritesOn(ws, t, k)[0].kind != R.Insert
    ensures Lookup(live, t, k) == Some(WritesOn(ws, t, k)[0].oldRow)
    decreases |ws|
  {
    hide PerformAll, R.HasId, Lookup;
    var front := ws[..|ws| - 1];
    if WritesOn(front, t, k) == [] {
      NotMentioned(live, front, t, k);
    } else {
      FirstFinds(live, front, t, k);
    }
  }

  lemma LegalHarmlessIff(live: Live, ws: seq<R.WriteRecord>)
    requires LegalAll(live, ws)
    ensures AllHarmless(live, ws) <==> NoneReinserted(live, ws)
  {
    hide LegalAll, WritesOn;
    forall t, k
      ensures HarmlessTo(Lookup(live, t, k), WritesOn(ws, t, k)) <==>
              forall w :: w in ws && w.kind == R.Insert && w.table == t && w.key == k ==> (t, k) !in live
    {
      WritesOnAre(ws, t, k);
      var mine := WritesOn(ws, t, k);
      if mine != [] && mine[0].kind != R.Insert {
        FirstFinds(live, ws, t, k);
      }
      assert mine != [] ==> mine[0] in mine;
    }
  }

  lemma {:induction false} LegalPrefix(live: Live, ws: seq<R.WriteRecord>, n: nat)
    requires LegalAll(live, ws) && n <= |ws|
    ensures LegalAll(live, ws[..n])
    decreases |ws|
  {
    hide Legal, PerformAll;
    assert ws[..|ws|] == ws;
    if n < |ws| {
      assert ws[..|ws| - 1][..n] == ws[..n];
      LegalPrefix(live, ws[..|ws| - 1], n);
    }
  }

  lemma LegalNone(live: Live)
    ensures LegalAll(live, [])
  {
  }

  /** If the transaction that was cut has the id of an earlier commit, its torn writes are kept. */
  lemma CountsCell(h: seq<Chunk>, n: nat, t: string, k: string)
    requires History(h) && NoAborts(h) && AllFit(LogOf(h)) && n <= |EncodeAll(LogOf(h))| && TornCounts(h, n)
    ensures Cell(Recover(map[], ReadAll(EncodeAll(LogOf(h))[..n])), t, k) ==
            Lookup(PerformAll(Replay(h[..Durable(h, n)]), TornWrites(h, n)), t, k)
  {
    hide History, Written, LogOf, EncodeAll, ReadAll, Durable, Replay, Fit, Recover, Cell, WritesOn, TornWrites,
      RedoAll, Counted, Uncounted, Done, LegalAll, PerformAll, AbortedWrites, Faithful, KeyedAll, Lookup, LoggedBy, TakenBack;
    var whole, torn := h[..Durable(h, n)], TornWrites(h, n);
    var counted := Counted(whole, Done(whole));
    HistoryPrefix(h, |whole|);
    HistoryWritten(h);
    CutCell(h, n, t, k);
    AbortsCovered(whole) by {
      assert AbortsApart(whole);
    }
    CoveredRedo(whole, Done(whole), t, k);
    NoAbortedWrites(whole);
    NothingTaken(RedoAll(None, WritesOn(CountedAt(h, n), t, k)), t, k);
    assert UncountedAt(h, n) == [] + [];
    TornLegal(h, n);
    WritesOnConcat(counted, torn, t, k);
    RedoAllConcat(None, WritesOn(counted, t, k), WritesOn(torn, t, k));
    RedoIsPerform(Replay(whole), torn, t, k);
  }

  lemma NothingTaken(c: Option<R.Row>, t: string, k: string)
    ensures TakenBack(c, WritesOn([] + [], t, k)) == c
  {
  }

  lemma TornLegal(h: seq<Chunk>, n: nat)
    requires History(h) && NoAborts(h)
    ensures LegalAll(Replay(h[..Durable(h, n)]), TornWrites(h, n))
  {
    hide History, Durable, Replay, LegalAll, TornWrites, Faithful, KeyedAll;
    var j := Durable(h, n);
    HistoryPrefix(h, j);
    TornFits(h, n);
    LegalNone(Replay(h[..j]));
    if j < |h| {
      assert h[j] in h;
      var p :| 0 <= p <= |LoggedBy(h[j].event)| && TornWrites(h, n) == LoggedBy(h[j].event)[..p];
      LegalPrefix(Replay(h[..j]), WritesOf(h[j].event), p);
    }
  }

  lemma SameLookups(a: Live, b: Live)
    ensures (forall t, k :: Lookup(a, t, k) == Lookup(b, t, k)) <==> a == b
  {
    if forall t, k :: Lookup(a, t, k) == Lookup(b, t, k) {
      forall x: (string, string)
        ensures x in a <==> x in b
        ensures x in a ==> a[x] == b[x]
      {
        assert Lookup(a, x.0, x.1) == Lookup(b, x.0, x.1);
      }
    }
  }

  /** What the torn writes of a commit must be for recovery to be right: harmless to undo or, if their
      transaction has the id of an earlier commit, without effect. */
  ghost predicate TornSafe(h: seq<Chunk>, n: nat) {
    var live := Replay(h[..Durable(h, n)]);
    if TornCounts(h, n) then PerformAll(live, TornWrites(h, n)) == live else NoneReinserted(live, TornWrites(h, n))
  }

  /** With begins and commits alone, recovery is right at a cut iff the commit that was cut had not
      yet logged an insert of an id whose row was already there (and which it must have deleted
      first); or, if its transaction id is that of an earlier commit, iff what it had logged changes
      nothing. */
  lemma CrashAtomicIff(h: seq<Chunk>, n: nat)
    requires History(h) && NoAborts(h) && AllFit(LogOf(h)) && n <= |EncodeAll(LogOf(h))|
    ensures RecoversAt(h, n) <==> TornSafe(h, n)
  {
    hide History, LogOf, EncodeAll, Durable, Replay, Fit, NoneReinserted, AllHarmless, LegalAll, TornWrites,
      AbortedWrites, Faithful, KeyedAll, Done, PerformAll, Lookup, ReadAll, Recover, Cell, TornCounts, RecoversAt;
    var whole := h[..Durable(h, n)];
    if TornCounts(h, n) {
      forall t, k
        ensures Cell(Recover(map[], ReadAll(EncodeAll(LogOf(h))[..n])), t, k) ==
                Lookup(PerformAll(Replay(whole), TornWrites(h, n)), t, k)
      {
        CountsCell(h, n, t, k);
      }
      SameLookups(PerformAll(Replay(whole), TornWrites(h, n)), Replay(whole));
      RightIf(h, n, PerformAll(Replay(whole), TornWrites(h, n)));
    } else {
      assert SeparateAt(h, n);
      CrashRecoversIff(h, n);
      NoAbortedWrites(whole);
      assert Unfinished(h, n) == TornWrites(h, n);
      TornLegal(h, n);
      LegalHarmlessIff(Replay(whole), TornWrites(h, n));
    }
  }

  lemma RightIf(h: seq<Chunk>, n: nat, live: Live)
    requires n <= |EncodeAll(LogOf(h))|
    requires forall t, k :: Cell(Recover(map[], ReadAll(EncodeAll(LogOf(h))[..n])), t, k) == Lookup(live, t, k)
    ensures RecoversAt(h, n) <==> forall t, k :: Lookup(live, t, k) == Lookup(Replay(h[..Durable(h, n)]), t, k)
  {
    hide LogOf, EncodeAll, Durable, Replay, Lookup, ReadAll, Recover, Cell;
  }

  /** The update leaves the row as it was. */
  predicate Idle(w: R.WriteRecord) {
    w.kind == R.Update && w.newRow == w.oldRow
  }

  lemma IdleIff(live: Live, w: R.WriteRecord)
    requires Legal(live, w)
    ensures Perform(live, w) == live <==> Idle(w)
  {
    hide R.HasId;
    var at := (w.table, w.key);
    if w.kind == R.Update {
      assert live[at] == w.oldRow && live[at := w.newRow][at] == w.newRow;
    }
  }

  /** Legal writes change nothing at any point iff each leaves its row as it was. */
  lemma {:induction false} IdleAllIff(live: Live, ws: seq<R.WriteRecord>)
    requires LegalAll(live, ws)
    ensures (forall p :: 0 <= p <= |ws| ==> PerformAll(live, ws[..p]) == live) <==> (forall w :: w in ws ==> Idle(w))
    decreases |ws|
  {
    hide Legal, Perform, Idle;
    assert ws[..|ws|] == ws;
    if ws != [] {
      var front, w := ws[..|ws| - 1], ws[|ws| - 1];
      assert ws == front + [w];
      IdleAllIff(live, front);
      assert forall p :: 0 <= p <= |front| ==> front[..p] == ws[..p];
      assert front[..|front|] == front;
      if PerformAll(live, front) == live {
        IdleIff(live, w);
      }
    }
  }

  /** A commit whose id is new inserts no id whose row was there before it began to write; one whose
      id is that of an earlier commit changes nothing. */
  ghost predicate SafeCommits(h: seq<Chunk>) {
    forall j :: 0 <= j < |h| ==>
      if h[j].event.txn in Done(h[..j]) then forall w :: w in WritesOf(h[j].event) ==> Idle(w)
      else NoneReinserted(Replay(h[..j]), WritesOf(h[j].event))
  }

  /** With begins and commits alone, recovery is right at every cut exactly when no transaction
      deletes a row and inserts its id again, and none that changes a row has the id of an earlier
      commit. */
  lemma CrashAtomicEverywhere(h: seq<Chunk>)
    requires History(h) && NoAborts(h) && AllFit(LogOf(h))
    ensures (forall n: nat :: n <= |EncodeAll(LogOf(h))| ==> RecoversAt(h, n)) <==> SafeCommits(h)
  {
    hide History, LogOf, EncodeAll, Fit, RecoversAt, SafeCommits, TornSafe;
    var all := |EncodeAll(LogOf(h))|;
    if SafeCommits(h) {
      forall n: nat | n <= all
        ensures RecoversAt(h, n)
      {
        CrashAtomicIff(h, n);
        SafeCommitsAt(h, n);
      }
    }
    if forall n: nat :: n <= all ==> RecoversAt(h, n) {
      forall n: nat | n <= all
        ensures TornSafe(h, n)
      {
        assert RecoversAt(h, n);
        CrashAtomicIff(h, n);
      }
      TornSafeCommits(h);
    }
  }

  lemma SafeCommitsAt(h: seq<Chunk>, n: nat)
    requires History(h) && NoAborts(h) && SafeCommits(h)
    ensures TornSafe(h, n)
  {
    hide History, Durable, Replay, LegalAll, PerformAll, TornWrites, Done, Faithful, KeyedAll, Idle;
    var j := Durable(h, n);
    TornFits(h, n);
    HistoryPrefix(h, j);
    if j < |h| {
      assert h[j] in h;
      var live, ws := Replay(h[..j]), LoggedBy(h[j].event);
      var p :| 0 <= p <= |ws| && TornWrites(h, n) == ws[..p];
      assert forall w :: w in ws[..p] ==> w in ws;
      IdleAllIff(live, ws);
    }
  }

  lemma TornSafeCommits(h: seq<Chunk>)
    requires History(h) && NoAborts(h) && forall n: nat :: n <= |EncodeAll(LogOf(h))| ==> TornSafe(h, n)
    ensures SafeCommits(h)
  {
    hide History, LogOf, EncodeAll, Durable, Replay, LegalAll, PerformAll, TornWrites, Done, Faithful, KeyedAll, Idle,
      NoneReinserted;
    forall j | 0 <= j < |h|
      ensures if h[j].event.txn in Done(h[..j]) then forall w :: w in WritesOf(h[j].event) ==> Idle(w)
        else NoneReinserted(Replay(h[..j]), WritesOf(h[j].event))
    {
      assert h[j] in h;
      var live, ws := Replay(h[..j]), LoggedBy(h[j].event);
      assert ws == WritesOf(h[j].event) && ws[..|ws|] == ws;
      HistoryPrefix(h, j);
      FaithfulLength(h[j]);
      if h[j].event.txn in Done(h[..j]) {
        forall p | 0 <= p <= |ws|
          ensures PerformAll(live, ws[..p]) == live
        {
          var n := CutAfter(h, j, p);
          assert TornSafe(h, n);
        }
        IdleAllIff(live, ws);
      } else {
        var n := CutAfter(h, j, |ws|);
        assert TornSafe(h, n);
      }
    }
  }

  // ----- an id that is used again -----

  /** A row is inserted and committed; then, after a restart, a transaction with the same id updates it
      and its commit is cut just before the Commit record. Recovery takes the update for committed:
      it is right iff the update changes nothing. */
  lemma {:induction false} TornUnderUsedId(h: seq<Chunk>, ins: R.WriteRecord, upd: R.WriteRecord) returns (n: nat)
    requires History(h) && AllFit(LogOf(h)) && |h| == 2 && h[0].event.txn == h[1].event.txn
    requires h[0].event == Committed(h[0].event.txn, [ins]) && h[1].event == Committed(h[1].event.txn, [upd])
    requires ins.kind == R.Insert && upd.kind == R.Update && ins.table == upd.table && ins.key == upd.key
    ensures n <= |EncodeAll(LogOf(h))| && Durable(h, n) == 1 && TornWrites(h, n) == [upd]
    ensures RecoversAt(h, n) <==> upd.newRow == ins.newRow
  {
    hide LogOf, EncodeAll, Fit, RecoversAt, Durable, TornWrites, Faithful, KeyedAll, R.HasId;
    HistoryPrefix(h, 1);
    FaithfulLength(h[1]);
    n := CutAfter(h, 1, 1);
    CrashAtomicIff(h, n);
    assert h[0] in h[..1];
    assert h[..1][..0] == [] && [ins][..0] == [] && [upd][..0] == [] && [upd][..1] == [upd];
    var live := map[(ins.table, ins.key) := ins.newRow];
    assert Replay(h[..1]) == live;
    assert PerformAll(live, [upd]) == Perform(live, upd);
    IdleIff(live, upd);
  }

  /** The same, with a rollback under the id of the commit: recovery redoes what was rolled back. */
  lemma {:induction false} AbortUnderUsedId(h: seq<Chunk>, ins: R.WriteRecord, upd: R.WriteRecord)
    requires History(h) && AllFit(LogOf(h)) && |h| == 2 && h[0].event.txn == h[1].event.txn
    requires h[0].event == Committed(h[0].event.txn, [ins]) && h[1].event == Aborted(h[1].event.txn, [upd])
    requires ins.kind == R.Insert && upd.kind == R.Update && ins.table == upd.table && ins.key == upd.key
    ensures RecoversAt(h, |EncodeAll(LogOf(h))|) <==> upd.newRow == ins.newRow
  {
    hide History, Written, LogOf, EncodeAll, Fit, RecoversAt, Durable, TornWrites, Recover, ReadAll, Cell;
    var n := |EncodeAll(LogOf(h))|;
    var live := map[(ins.table, ins.key) := upd.newRow];
    CutAtEnd(h, n);
    TwoChunks(h, ins, upd);
    OneReplayed(h, ins);
    assert h[..2] == h;
    HistoryWritten(h);
    forall t, k
      ensures Cell(Recover(map[], ReadAll(EncodeAll(LogOf(h))[..n])), t, k) == Lookup(live, t, k)
    {
      CutCell(h, n, t, k);
      RedoneTwice(ins, upd, t, k);
    }
    RightIf(h, n, live);
    SameLookups(live, Replay(h));
    var at := (ins.table, ins.key);
    assert live[at] == upd.newRow && Replay(h)[at] == ins.newRow;
  }

  lemma {:induction false} TwoChunks(h: seq<Chunk>, ins: R.WriteRecord, upd: R.WriteRecord)
    requires |h| == 2 && h[0].event.txn == h[1].event.txn
    requires h[0].event == Committed(h[0].event.txn, [ins]) && h[1].event == Aborted(h[1].event.txn, [upd])
    ensures Counted(h, Done(h)) == [ins, upd] && Uncounted(h, Done(h)) == []
  {
    hide Done;
    var one, done := h[..1], Done(h);
    FirstDone(h);
    assert one[..0] == [];
    assert Counted(one, done) == Counted([], done) + [ins] == [ins];
    assert Uncounted(one, done) == [];
    assert Counted(h, done) == Counted(one, done) + [upd];
  }

  lemma {:induction false} OneReplayed(h: seq<Chunk>, ins: R.WriteRecord)
    requires |h| == 2 && h[0].event == Committed(h[0].event.txn, [ins]) && !h[1].event.Committed?
    requires ins.kind == R.Insert
    ensures Replay(h) == map[(ins.table, ins.key) := ins.newRow]
  {
    var one := h[..1];
    assert one[..0] == [] && [ins][..0] == [];
    assert Replay(one) == PerformAll(map[], [ins]) == Perform(map[], ins);
  }

  lemma FirstDone(h: seq<Chunk>)
    requires h != [] && h[0].event.Committed?
    ensures h[0].event.txn in Done(h)
  {
    assert h[0] in h;
  }

  lemma RedoneTwice(ins: R.WriteRecord, upd: R.WriteRecord, t: string, k: string)
    requires ins.kind == R.Insert && upd.kind == R.Update && ins.table == upd.table && ins.key == upd.key
    ensures TakenBack(RedoAll(None, WritesOn([ins, upd] + [], t, k)), WritesOn([] + [], t, k)) ==
            Lookup(map[(ins.table, ins.key) := upd.newRow], t, k)
  {
    hide WritesOn, RedoAll;
    assert [ins, upd] + [] == [ins] + [upd];
    BothWritesOn(ins, upd, t, k);
    NothingTaken(RedoAll(None, WritesOn([ins, upd] + [], t, k)), t, k);
    RedoPair(ins, upd);
  }

  lemma BothWritesOn(ins: R.WriteRecord, upd: R.WriteRecord, t: string, k: string)
    requires ins.table == upd.table && ins.key == upd.key
    ensures WritesOn([ins] + [upd], t, k) == if ins.table == t && ins.key == k then [ins, upd] else []
  {
    hide WritesOn;
    var none: seq<R.WriteRecord> := [];
    assert [ins] == none + [ins];
    NoWritesOn(t, k);
    WritesOnSnoc(none, ins, t, k);
    WritesOnSnoc([ins], upd, t, k);
  }

  lemma RedoPair(ins: R.WriteRecord, upd: R.WriteRecord)
    requires ins.kind == R.Insert && upd.kind == R.Update
    ensures RedoAll(None, [ins, upd]) == Some(upd.newRow) && RedoAll(None, []) == None
  {
    assert [ins, upd][..1] == [ins];
  }

  // ----- a rollback between two commits -----

  /** A row is inserted and committed, an update of it is rolled back, and another update of it is
      committed. All undoing comes after all redoing, so the row that the rollback had found wins:
      the last commit survives recovery iff it wrote that very row. */
  lemma {:induction false} AbortedUndoWins(h: seq<Chunk>, ins: R.WriteRecord, back: R.WriteRecord, upd: R.WriteRecord)
    requires History(h) && AllFit(LogOf(h)) && |h| == 3
    requires h[0].event.Committed? && h[1].event.Aborted? && h[2].event.Committed?
    requires h[0].event.writes == [ins] && h[1].event.writes == [back] && h[2].event.writes == [upd]
    requires ins.kind == R.Insert && back.kind == R.Update && upd.kind == R.Update
    requires ins.table == back.table == upd.table && ins.key == back.key == upd.key
    requires back.oldRow == ins.newRow && h[1].event.txn != h[0].event.txn && h[1].event.txn != h[2].event.txn
    ensures RecoversAt(h, |EncodeAll(LogOf(h))|) <==> upd.newRow == ins.newRow
  {
    hide History, LogOf, EncodeAll, Fit, RecoversAt, Durable, TornWrites, AllHarmless, WritesOn, AbortedWrites;
    var n := |EncodeAll(LogOf(h))|;
    CutAtEnd(h, n);
    assert SeparateAt(h, n);
    CrashRecoversIff(h, n);
    ThreeChunks(h, ins, back, upd);
    assert Unfinished(h, n) == [back];
    var live := Replay(h);
    OneHarmless(live, back);
  }

  lemma {:induction false} ThreeChunks(h: seq<Chunk>, ins: R.WriteRecord, back: R.WriteRecord, upd: R.WriteRecord)
    requires |h| == 3 && h[0].event.Committed? && h[1].event.Aborted? && h[2].event.Committed?
    requires h[0].event.writes == [ins] && h[1].event.writes == [back] && h[2].event.writes == [upd]
    ensures AbortedWrites(h) == [back]
    ensures Replay(h) == Perform(Perform(map[], ins), upd)
  {
    hide Perform;
    var two, one := h[..2], h[..1];
    assert two[..1] == one && one[..0] == [];
    assert [ins][..0] == [] && [upd][..0] == [];
    assert AbortedWrites(one) == [];
    assert AbortedWrites(two) == [back];
    assert Replay(one) == PerformAll(map[], [ins]) == Perform(map[], ins);
    assert Replay(two) == PerformAll(Replay(one), []) == Replay(one);
    assert Replay(h) == PerformAll(Replay(two), [upd]) == Perform(PerformAll(Replay(two), []), upd);
  }

  lemma OneHarmless(live: Live, w: R.WriteRecord)
    requires w.kind != R.Insert && (w.table, w.key) in live
    ensures AllHarmless(live, [w]) <==> live[(w.table, w.key)] == w.oldRow
  {
    hide WritesOn;
    forall t, k
      ensures WritesOn([w], t, k) == if w.table == t && w.key == k then [w] else []
    {
      WritesOnSnoc([], w, t, k);
      NoWritesOn(t, k);
      assert [] + [w] == [w];
    }
    if AllHarmless(live, [w]) {
      assert HarmlessTo(Lookup(live, w.table, w.key), WritesOn([w], w.table, w.key));
    }
  }
}
