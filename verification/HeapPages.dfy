/** A slotted heap page: a directory of slots that grows up from the header, and row bytes that
    grow down from the end. */
module HeapPages {
  import opened LittleEndian
  import opened Options
  import opened Pages
  import opened Rows
  import opened RowText

  const SLOT_SIZE := 6 // two 16-bit numbers, the valid byte and one of padding
  const SLOT_DIR_START := HEADER_SIZE + 2

  datatype SlotEntry = SlotEntry(offset: nat, length: nat, valid: bool)

  /** Bytes are addressed from the start of the page; the header is kept apart. */
  function SlotPos(i: nat): nat {
    SLOT_DIR_START - HEADER_SIZE + i * SLOT_SIZE
  }

  function DirEnd(n: nat): nat {
    SLOT_DIR_START + n * SLOT_SIZE
  }

  function SlotAt(body: string, i: nat): SlotEntry
    requires SlotPos(i) + SLOT_SIZE <= |body|
  {
    var p := SlotPos(i);
    SlotEntry(FromLe(body[p..p + 2]), FromLe(body[p + 2..p + 4]), body[p + 4] != '\0')
  }

  /** memcpy into the page. */
  function Patch(body: string, at: nat, bytes: string): (r: string)
    requires at + |bytes| <= |body|
    ensures |r| == |body|
  {
    body[..at] + bytes + body[at + |bytes|..]
  }

  function SlotBytes(e: SlotEntry): (s: string)
    ensures |s| == SLOT_SIZE
  {
    Le(e.offset, 2) + Le(e.length, 2) + [if e.valid then 1 as char else '\0', '\0']
  }

  // ----- what is on a page -----

  function Count(b: RawBlock): nat {
    b.header.recordCount
  }

  ghost predicate Sized(b: RawBlock) {
    |b.body| == BODY_SIZE && DirEnd(Count(b)) <= PAGE_SIZE
  }

  function Slot(b: RawBlock, i: nat): SlotEntry
    requires Sized(b) && i < Count(b)
  {
    SlotAt(b.body, i)
  }

  /** A live row lies inside the page and above the slot directory. */
  ghost predicate Inside(b: RawBlock, e: SlotEntry) {
    e.valid ==> DirEnd(Count(b)) <= e.offset && e.offset + e.length <= PAGE_SIZE
  }

  ghost predicate Apart(d: SlotEntry, e: SlotEntry) {
    d.valid && e.valid ==> d.offset + d.length <= e.offset || e.offset + e.length <= d.offset
  }

  ghost predicate HeapOk(b: RawBlock) {
    && Sized(b)
    && (forall i :: 0 <= i < Count(b) ==> Inside(b, Slot(b, i)))
    && (forall i, j :: 0 <= i < j < Count(b) ==> Apart(Slot(b, i), Slot(b, j)))
  }

  function RowBytes(b: RawBlock, e: SlotEntry): string
    requires Sized(b) && e.valid && Inside(b, e)
  {
    b.body[e.offset - HEADER_SIZE..e.offset - HEADER_SIZE + e.length]
  }

  predicate Live(b: RawBlock, i: nat)
    requires Sized(b)
  {
    i < Count(b) && Slot(b, i).valid
  }

  /** The row in a slot: none past the last slot or in a dead one. */
  function RowAt(b: RawBlock, i: nat): Option<Row>
    requires HeapOk(b)
  {
    if i < Count(b) && Slot(b, i).valid then Some(Deserialized(RowBytes(b, Slot(b, i)))) else None
  }

  // ----- inserting -----

  /** The lowest offset of a live row among the first n slots. */
  function DataStart(body: string, n: nat): (s: nat)
    requires n > 0 ==> SlotPos(n - 1) + SLOT_SIZE <= |body|
    ensures s <= PAGE_SIZE
  {
    if n == 0 then PAGE_SIZE
    else
      var e := SlotAt(body, n - 1);
      var s := DataStart(body, n - 1);
      if e.valid && e.offset < s then e.offset else s
  }

  /** The length is cut to 16 bits. */
  function Len16(data: string): nat {
    |data| % 0x1_0000
  }

  datatype Inserted = Stored(slot: nat) | PageFull | OutOfPage

  const SIZE_T_RANGE := 0x1_0000_0000_0000_0000

  /** An int that meets a size_t becomes one, modulo 2^64. */
  function AsSize(x: int): (r: nat)
    ensures r < SIZE_T_RANGE
  {
    x % SIZE_T_RANGE
  }

  /** Where the row's bytes go, as a 16-bit number. */
  function RowOffset(b: RawBlock, data: string): (r: nat)
    requires Sized(b)
    ensures r < 0x1_0000
  {
    (DataStart(b.body, Count(b)) - Len16(data)) % 0x1_0000
  }

  /** The free-space test, and whether the copy that follows stays inside the page. */
  function InsertOutcome(b: RawBlock, data: string): Inserted
    requires Sized(b)
  {
    if DirEnd(Count(b)) + SLOT_SIZE > AsSize(DataStart(b.body, Count(b)) - Len16(data)) then PageFull
    else if RowOffset(b, data) + Len16(data) > PAGE_SIZE then OutOfPage
    else Stored(Count(b))
  }

  lemma AsSizeIs(x: int)
    requires -SIZE_T_RANGE <= x < SIZE_T_RANGE
    ensures AsSize(x) == if x >= 0 then x else x + SIZE_T_RANGE
  {
  }

  lemma As16Is(x: int)
    requires -0x1_0000 <= x < 0x1_0000
    ensures x % 0x1_0000 == if x >= 0 then x else x + 0x1_0000
  {
  }

  /** A row longer than the data start passes the test, its difference being a huge size_t, and is
      copied past the page's end; otherwise both conversions leave the difference as it is. */
  lemma OutcomeCases(b: RawBlock, data: string)
    requires Sized(b)
    ensures var free := DataStart(b.body, Count(b)) - Len16(data);
      && InsertOutcome(b, data) == (if free < 0 then OutOfPage
                                    else if DirEnd(Count(b)) + SLOT_SIZE > free then PageFull
                                    else Stored(Count(b)))
      && (free >= 0 ==> RowOffset(b, data) == free)
  {
    hide DataStart, Len16, AsSize;
    var free := DataStart(b.body, Count(b)) - Len16(data);
    LengthIs16(data);
    AsSizeIs(free);
    As16Is(free);
  }

  lemma LengthIs16(data: string)
    ensures Len16(data) < 0x1_0000
  {
  }

  function InsertBlock(b: RawBlock, data: string): RawBlock
    requires Sized(b) && InsertOutcome(b, data) != OutOfPage
  {
    OutcomeCases(b, data);
    if !InsertOutcome(b, data).Stored? then b
    else
      var len, offset := Len16(data), RowOffset(b, data);
      var copied := Patch(b.body, offset - HEADER_SIZE, data[..len]);
      var listed := Patch(copied, SlotPos(Count(b)), SlotBytes(SlotEntry(offset, len, true)));
      Block(b.header.(recordCount := Count(b) + 1), listed)
  }

  // ----- deleting -----

  /** The slot's valid byte is cleared; its row's bytes stay. */
  function DeleteBlock(b: RawBlock, i: nat): RawBlock
    requires Sized(b)
  {
    if i < Count(b) && Slot(b, i).valid then b.(body := Patch(b.body, SlotPos(i) + 4, ['\0'])) else b
  }

  // ----- bytes -----

  lemma PatchSame(body: string, at: nat, bytes: string, lo: nat, hi: nat)
    requires at + |bytes| <= |body| && lo <= hi <= |body| && (hi <= at || at + |bytes| <= lo)
    ensures Patch(body, at, bytes)[lo..hi] == body[lo..hi]
  {
  }

  lemma PatchThere(body: string, at: nat, bytes: string)
    requires at + |bytes| <= |body|
    ensures Patch(body, at, bytes)[at..at + |bytes|] == bytes
  {
  }

  /** A slot's bytes are where no patch is. */
  lemma SlotSame(body: string, at: nat, bytes: string, i: nat)
    requires at + |bytes| <= |body| && SlotPos(i) + SLOT_SIZE <= |body|
    requires SlotPos(i) + SLOT_SIZE <= at || at + |bytes| <= SlotPos(i)
    ensures SlotAt(Patch(body, at, bytes), i) == SlotAt(body, i)
  {
    hide Patch, FromLe;
    var p := SlotPos(i);
    PatchSame(body, at, bytes, p, p + 2);
    PatchSame(body, at, bytes, p + 2, p + 4);
    PatchSame(body, at, bytes, p + 4, p + 5);
    assert Patch(body, at, bytes)[p + 4..p + 5][0] == body[p + 4..p + 5][0];
  }

  /** A slot entry in bytes: offset and length with the low byte first, the valid byte, the padding. */
  lemma SlotLayout(e: SlotEntry)
    ensures SlotBytes(e)[..2] == Le(e.offset, 2) && SlotBytes(e)[2..4] == Le(e.length, 2)
    ensures SlotBytes(e)[4] == if e.valid then 1 as char else '\0'
  {
    hide Le;
  }

  lemma SlotSlices(body: string, p: nat)
    requires p + SLOT_SIZE <= |body|
    ensures var bytes := body[p..p + SLOT_SIZE];
      body[p..p + 2] == bytes[..2] && body[p + 2..p + 4] == bytes[2..4] && body[p + 4] == bytes[4]
  {
    SliceOf(body, p, SLOT_SIZE, 0, 2);
    SliceOf(body, p, SLOT_SIZE, 2, 4);
  }

  lemma SliceOf(s: string, p: nat, n: nat, a: nat, b: nat)
    requires a <= b <= n && p + n <= |s|
    ensures s[p..p + n][a..b] == s[p + a..p + b]
  {
    var whole := s[p..p + n];
    forall i | 0 <= i < b - a
      ensures whole[a..b][i] == s[p + a..p + b][i]
    {
      assert whole[a + i] == s[p + (a + i)];
    }
  }

  lemma SlotWritten(body: string, i: nat, e: SlotEntry)
    requires SlotPos(i) + SLOT_SIZE <= |body| && e.offset < 0x1_0000 && e.length < 0x1_0000
    ensures SlotAt(Patch(body, SlotPos(i), SlotBytes(e)), i) == e
  {
    hide FromLe, Le, SlotBytes, Patch, Pow256;
    var p := SlotPos(i);
    var after, bytes := Patch(body, p, SlotBytes(e)), SlotBytes(e);
    TwoBytes();
    PatchThere(body, p, bytes);
    assert after[p..p + SLOT_SIZE] == bytes;
    SlotSlices(after, p);
    SlotLayout(e);
    LeRoundTrip(e.offset, 2);
    LeRoundTrip(e.length, 2);
    assert FromLe(after[p..p + 2]) == e.offset;
    assert FromLe(after[p + 2..p + 4]) == e.length;
    assert after[p + 4] != '\0' <==> e.valid;
  }

  lemma TwoBytes()
    ensures Pow256(2) == 0x1_0000
  {
    assert Pow256(1) == 256;
  }

  lemma SlotCleared(body: string, i: nat)
    requires SlotPos(i) + SLOT_SIZE <= |body|
    ensures var after := SlotAt(Patch(body, SlotPos(i) + 4, ['\0']), i);
            after == SlotAt(body, i).(valid := false)
  {
    hide FromLe;
    var p := SlotPos(i);
    PatchSame(body, p + 4, ['\0'], p, p + 2);
    PatchSame(body, p + 4, ['\0'], p + 2, p + 4);
  }

  lemma SlotsApart(i: nat, j: nat)
    requires i < j
    ensures SlotPos(i) + SLOT_SIZE <= SlotPos(j)
  {
  }

  // ----- the free-space test -----

  lemma {:induction false} DataStartBelow(body: string, n: nat, i: nat)
    requires i < n && SlotPos(n - 1) + SLOT_SIZE <= |body| && SlotAt(body, i).valid
    ensures DataStart(body, n) <= SlotAt(body, i).offset || DataStart(body, n) == PAGE_SIZE < SlotAt(body, i).offset
  {
    hide SlotAt;
    if i < n - 1 {
      DataStartBelow(body, n - 1, i);
    }
  }

  /** On a well-formed page an insert goes wrong exactly when the row, its length cut to 16 bits,
      is longer than the current data start; it is turned away exactly when it would meet the slot
      directory, and otherwise the row is stored in the next slot. */
  lemma OutcomeIs(b: RawBlock, data: string)
    requires HeapOk(b)
    ensures var start := DataStart(b.body, Count(b));
            && (InsertOutcome(b, data) == OutOfPage <==> Len16(data) > start)
            && (InsertOutcome(b, data).Stored? <==> DirEnd(Count(b) + 1) + Len16(data) <= start)
            && (InsertOutcome(b, data).Stored? ==>
                  InsertOutcome(b, data).slot == Count(b) && RowOffset(b, data) == start - Len16(data))
  {
    hide DataStart, Len16, AsSize, RowOffset, InsertOutcome;
    OutcomeCases(b, data);
  }

  // ----- what an insert does -----

  lemma InsertSlots(b: RawBlock, data: string, i: nat)
    requires HeapOk(b) && InsertOutcome(b, data).Stored? && i <= Count(b)
    ensures var after := InsertBlock(b, data);
            && Sized(after) && Count(after) == Count(b) + 1
            && Slot(after, i) == if i < Count(b) then Slot(b, i)
                                 else SlotEntry(RowOffset(b, data), Len16(data), true)
  {
    hide SlotAt, Patch, SlotBytes, DataStart, RowOffset, InsertOutcome;
    var n, len := Count(b), Len16(data);
    var offset := DataStart(b.body, n) - len;
    OutcomeIs(b, data);
    var copied := Patch(b.body, offset - HEADER_SIZE, data[..len]);
    var e := SlotEntry(offset, len, true);
    if i < n {
      SlotsApart(i, n);
      SlotSame(b.body, offset - HEADER_SIZE, data[..len], i);
      SlotSame(copied, SlotPos(n), SlotBytes(e), i);
    } else {
      SlotWritten(copied, n, e);
    }
  }

  /** The bytes of a live row are as before, and those of the new row are the data. */
  lemma InsertBytes(b: RawBlock, data: string, i: nat)
    requires HeapOk(b) && InsertOutcome(b, data).Stored? && i < Count(b) && Slot(b, i).valid
    ensures var e := Slot(b, i);
            InsertBlock(b, data).body[e.offset - HEADER_SIZE..e.offset - HEADER_SIZE + e.length] == RowBytes(b, e)
  {
    hide SlotAt, Patch, SlotBytes, DataStart, RowOffset, InsertOutcome;
    var n, len, e := Count(b), Len16(data), Slot(b, i);
    var offset := DataStart(b.body, n) - len;
    OutcomeIs(b, data);
    DataStartBelow(b.body, n, i);
    assert Inside(b, e);
    var lo := e.offset - HEADER_SIZE;
    var copied := Patch(b.body, offset - HEADER_SIZE, data[..len]);
    PatchSame(b.body, offset - HEADER_SIZE, data[..len], lo, lo + e.length);
    PatchSame(copied, SlotPos(n), SlotBytes(SlotEntry(offset, len, true)), lo, lo + e.length);
  }

  lemma InsertedBytes(b: RawBlock, data: string)
    requires HeapOk(b) && InsertOutcome(b, data).Stored?
    ensures var lo, after := RowOffset(b, data) - HEADER_SIZE, InsertBlock(b, data);
            && Sized(after) && 0 <= lo && lo + Len16(data) <= BODY_SIZE
            && after.body[lo..lo + Len16(data)] == data[..Len16(data)]
  {
    hide SlotAt, Patch, SlotBytes, DataStart, RowOffset, InsertOutcome;
    var n, len := Count(b), Len16(data);
    var offset := DataStart(b.body, n) - len;
    OutcomeIs(b, data);
    var lo := offset - HEADER_SIZE;
    PatchThere(b.body, lo, data[..len]);
    PatchSame(Patch(b.body, lo, data[..len]), SlotPos(n), SlotBytes(SlotEntry(offset, len, true)), lo, lo + len);
  }

  /** Inserting keeps live rows disjoint, inside the page and above the directory. */
  lemma InsertKeepsHeap(b: RawBlock, data: string)
    requires HeapOk(b) && InsertOutcome(b, data) != OutOfPage
    ensures HeapOk(InsertBlock(b, data))
  {
    hide SlotAt, Patch, SlotBytes, DataStart, RowOffset, InsertOutcome;
    if InsertOutcome(b, data).Stored? {
      var after, n := InsertBlock(b, data), Count(b);
      OutcomeIs(b, data);
      InsertSlots(b, data, n);
      forall i | 0 <= i < n
        ensures Slot(after, i) == Slot(b, i) && Inside(after, Slot(after, i)) && Apart(Slot(after, i), Slot(after, n))
      {
        InsertSlots(b, data, i);
        assert Inside(b, Slot(b, i));
        if Slot(b, i).valid {
          DataStartBelow(b.body, n, i);
        }
      }
      forall i, j | 0 <= i < j < Count(after) ensures Apart(Slot(after, i), Slot(after, j)) {
        if j < n {
          assert Apart(Slot(b, i), Slot(b, j));
        }
      }
    }
  }

  /** No insert changes the row of another live slot; a successful one can be read back, and gives
      that very row exactly when the row is free of delimiters, its text shorter than 64 KiB. */
  lemma InsertRows(b: RawBlock, row: Row, cols: seq<string>, i: nat)
    requires HeapOk(b) && Enumerates(cols, row) && InsertOutcome(b, Serialized(row, cols)) != OutOfPage
    ensures HeapOk(InsertBlock(b, Serialized(row, cols)))
    ensures i < Count(b) ==> RowAt(InsertBlock(b, Serialized(row, cols)), i) == RowAt(b, i)
    ensures InsertOutcome(b, Serialized(row, cols)).Stored? && |Serialized(row, cols)| < 0x1_0000 ==>
      (RowAt(InsertBlock(b, Serialized(row, cols)), Count(b)) == Some(row) <==> Clean(row))
  {
    hide SlotAt, Patch, SlotBytes, DataStart, Deserialized, Serialized, Clean, InsertBlock, InsertOutcome;
    var data := Serialized(row, cols);
    InsertKeepsHeap(b, data);
    if InsertOutcome(b, data).Stored? {
      RowRoundTripIff(row, cols);
      NewRow(b, data);
      if i < Count(b) {
        OldRow(b, data, i);
      }
    } else {
      InsertNothing(b, data);
    }
  }

  lemma InsertNothing(b: RawBlock, data: string)
    requires HeapOk(b) && InsertOutcome(b, data) == PageFull
    ensures InsertBlock(b, data) == b
  {
  }

  lemma NewRow(b: RawBlock, data: string)
    requires HeapOk(b) && InsertOutcome(b, data).Stored? && HeapOk(InsertBlock(b, data))
    ensures RowAt(InsertBlock(b, data), Count(b)) == Some(Deserialized(data[..Len16(data)]))
    ensures |data| < 0x1_0000 ==> data[..Len16(data)] == data
  {
    hide SlotAt, Patch, SlotBytes, DataStart, Deserialized, InsertBlock, InsertOutcome;
    InsertSlots(b, data, Count(b));
    InsertedBytes(b, data);
    assert Inside(InsertBlock(b, data), Slot(InsertBlock(b, data), Count(b)));
  }

  lemma OldRow(b: RawBlock, data: string, i: nat)
    requires HeapOk(b) && InsertOutcome(b, data).Stored? && HeapOk(InsertBlock(b, data)) && i < Count(b)
    ensures RowAt(InsertBlock(b, data), i) == RowAt(b, i)
  {
    hide SlotAt, Patch, SlotBytes, DataStart, Deserialized, InsertBlock, InsertOutcome;
    InsertSlots(b, data, i);
    if Slot(b, i).valid {
      InsertBytes(b, data, i);
      assert Inside(InsertBlock(b, data), Slot(InsertBlock(b, data), i));
    }
  }

  // ----- what a delete does -----

  lemma DeleteSlots(b: RawBlock, i: nat, j: nat)
    requires HeapOk(b) && Live(b, i) && j < Count(b)
    ensures var after := DeleteBlock(b, i);
            && Sized(after) && Count(after) == Count(b)
            && Slot(after, j) == if j == i then Slot(b, i).(valid := false) else Slot(b, j)
  {
    hide SlotAt, Patch;
    if j == i {
      SlotCleared(b.body, i);
    } else {
      if i < j {
        SlotsApart(i, j);
      } else {
        SlotsApart(j, i);
      }
      SlotSame(b.body, SlotPos(i) + 4, ['\0'], j);
    }
  }

  /** Deleting keeps the page well formed, empties the slot and leaves every other row alone. */
  lemma DeleteRows(b: RawBlock, i: nat, j: nat)
    requires HeapOk(b)
    ensures HeapOk(DeleteBlock(b, i))
    ensures RowAt(DeleteBlock(b, i), j) == if j == i then None else RowAt(b, j)
  {
    hide SlotAt, Patch, Deserialized, DeleteBlock;
    if Live(b, i) {
      var after := DeleteBlock(b, i);
      DeleteSlots(b, i, i);
      forall k | 0 <= k < Count(b)
        ensures Slot(after, k) == (if k == i then Slot(b, i).(valid := false) else Slot(b, k)) && Inside(after, Slot(after, k))
      {
        DeleteSlots(b, i, k);
        assert Inside(b, Slot(b, k));
      }
      forall k, l | 0 <= k < l < Count(after) ensures Apart(Slot(after, k), Slot(after, l)) {
        assert Apart(Slot(b, k), Slot(b, l));
      }
      if j < Count(b) && j != i && Slot(b, j).valid {
        assert Inside(b, Slot(b, j));
        DeletedBytes(b, i, Slot(b, j));
      }
    } else {
      DeleteNothing(b, i);
    }
  }

  lemma DeleteNothing(b: RawBlock, i: nat)
    requires HeapOk(b) && !Live(b, i)
    ensures DeleteBlock(b, i) == b
  {
  }

  lemma DeletedBytes(b: RawBlock, i: nat, e: SlotEntry)
    requires HeapOk(b) && Live(b, i) && e.valid && Inside(b, e)
    ensures DeleteBlock(b, i).body[e.offset - HEADER_SIZE..e.offset - HEADER_SIZE + e.length] == RowBytes(b, e)
  {
    hide SlotAt, Patch;
    PatchSame(b.body, SlotPos(i) + 4, ['\0'], e.offset - HEADER_SIZE, e.offset - HEADER_SIZE + e.length);
  }

  // ----- updating -----

  datatype HeapOp = Insert(data: string) | Delete(slot: nat) | Update(slot: nat, data: string)

  /** The row is no longer than the data start it meets, so nothing is copied past the page. */
  ghost predicate Fitting(b: RawBlock, op: HeapOp)
    requires HeapOk(b)
  {
    match op
    case Insert(data) => InsertOutcome(b, data) != OutOfPage
    case Delete(_) => true
    case Update(i, data) =>
      Live(b, i) ==> (DeleteRows(b, i, i); InsertOutcome(DeleteBlock(b, i), data) != OutOfPage)
  }

  /** The old slot is cleared and the new row inserted; when it finds no room it is gone. */
  function UpdateBlock(b: RawBlock, i: nat, data: string): RawBlock
    requires HeapOk(b) && Fitting(b, HeapOp.Update(i, data))
  {
    if Live(b, i) then
      DeleteRows(b, i, i);
      InsertBlock(DeleteBlock(b, i), data)
    else b
  }

  /** Live slots are those with a row; deleting or updating another slot changes nothing. */
  lemma LiveIff(b: RawBlock, i: nat, data: string)
    requires HeapOk(b)
    ensures Live(b, i) <==> RowAt(b, i).Some?
    ensures RowAt(b, i).None? ==>
      DeleteBlock(b, i) == b && Fitting(b, HeapOp.Update(i, data)) && UpdateBlock(b, i, data) == b
  {
  }

  /** An update of a live slot empties it and leaves every other row alone; the new row is in the
      next slot if and only if it found room there, and the answer is true either way. */
  lemma UpdateRows(b: RawBlock, i: nat, row: Row, cols: seq<string>, j: nat)
    requires HeapOk(b) && Live(b, i) && Enumerates(cols, row) && Clean(row) && |Serialized(row, cols)| < 0x1_0000
    requires Fitting(b, HeapOp.Update(i, Serialized(row, cols)))
    ensures var data := Serialized(row, cols);
            var after := UpdateBlock(b, i, data);
            && HeapOk(after) && RowAt(after, i) == None
            && (j < Count(b) && j != i ==> RowAt(after, j) == RowAt(b, j))
            && (RowAt(after, Count(b)) == Some(row) <==> InsertOutcome(DeleteBlock(b, i), data).Stored?)
  {
    hide SlotAt, Patch, SlotBytes, DataStart, Deserialized, Serialized, Clean, InsertBlock, DeleteBlock, InsertOutcome;
    var data, without := Serialized(row, cols), DeleteBlock(b, i);
    DeleteRows(b, i, i);
    DeleteRows(b, i, j);
    DeleteSlots(b, i, i);
    InsertRows(without, row, cols, i);
    InsertRows(without, row, cols, j);
    if !InsertOutcome(without, data).Stored? {
      InsertNothing(without, data);
    }
  }

  // ----- runs -----

  function Apply(b: RawBlock, op: HeapOp): RawBlock
    requires HeapOk(b) && Fitting(b, op)
  {
    match op
    case Insert(data) => InsertBlock(b, data)
    case Delete(i) => DeleteBlock(b, i)
    case Update(i, data) => UpdateBlock(b, i, data)
  }

  /** A fitting operation keeps live rows disjoint, inside the page and above the slot directory. */
  lemma StepKeepsHeap(b: RawBlock, op: HeapOp)
    requires HeapOk(b) && Fitting(b, op)
    ensures HeapOk(Apply(b, op))
  {
    hide InsertBlock, DeleteBlock;
    match op
    case Insert(data) => InsertKeepsHeap(b, data);
    case Delete(i) => DeleteRows(b, i, i);
    case Update(i, data) =>
      DeleteRows(b, i, i);
      if Live(b, i) {
        InsertKeepsHeap(DeleteBlock(b, i), data);
      }
  }

  ghost predicate FittingRun(b: RawBlock, ops: seq<HeapOp>)
    requires HeapOk(b)
    decreases |ops|
  {
    ops == [] || (Fitting(b, ops[0]) && (StepKeepsHeap(b, ops[0]); FittingRun(Apply(b, ops[0]), ops[1..])))
  }

  ghost function Run(b: RawBlock, ops: seq<HeapOp>): RawBlock
    requires HeapOk(b) && FittingRun(b, ops)
    decreases |ops|
  {
    if ops == [] then b
    else
      StepKeepsHeap(b, ops[0]);
      Run(Apply(b, ops[0]), ops[1..])
  }

  lemma EmptyIsHeap(id: PageId)
    ensures HeapOk(EmptyBlock(id)) && Count(EmptyBlock(id)) == 0
  {
  }

  /** Any run of fitting operations keeps the page well formed, and whatever the run, a row keeps
      its slot until that slot is deleted or updated. */
  lemma {:induction false} RunKeepsHeap(b: RawBlock, ops: seq<HeapOp>, i: nat)
    requires HeapOk(b) && FittingRun(b, ops)
    ensures HeapOk(Run(b, ops))
    ensures i < Count(b) && (forall op :: op in ops ==> LeavesAlone(op, i)) ==> RowAt(Run(b, ops), i) == RowAt(b, i)
    decreases |ops|
  {
    hide HeapOk, RowAt, Apply, Fitting, Count;
    if ops != [] {
      StepKeepsHeap(b, ops[0]);
      RunKeepsHeap(Apply(b, ops[0]), ops[1..], i);
      if i < Count(b) && LeavesAlone(ops[0], i) {
        StepKeepsRow(b, ops[0], i);
      }
    }
  }

  predicate LeavesAlone(op: HeapOp, i: nat) {
    (op.Delete? ==> op.slot != i) && (op.Update? ==> op.slot != i)
  }

  lemma StepKeepsRow(b: RawBlock, op: HeapOp, i: nat)
    requires HeapOk(b) && Fitting(b, op) && HeapOk(Apply(b, op)) && i < Count(b) && LeavesAlone(op, i)
    ensures i < Count(Apply(b, op)) && RowAt(Apply(b, op), i) == RowAt(b, i)
  {
    hide SlotAt, Patch, SlotBytes, DataStart, Deserialized, InsertBlock, DeleteBlock, RowAt, InsertOutcome;
    match op
    case Insert(data) => InsertKeepsRow(b, data, i);
    case Delete(k) =>
      DeleteRows(b, k, i);
      DeleteKeepsCount(b, k);
    case Update(k, data) =>
      if Live(b, k) {
        DeleteRows(b, k, i);
        DeleteKeepsCount(b, k);
        InsertKeepsHeap(DeleteBlock(b, k), data);
        InsertKeepsRow(DeleteBlock(b, k), data, i);
      }
  }

  lemma DeleteKeepsCount(b: RawBlock, i: nat)
    requires Sized(b)
    ensures Count(DeleteBlock(b, i)) == Count(b)
  {
    hide Patch;
  }

  lemma InsertKeepsRow(b: RawBlock, data: string, i: nat)
    requires HeapOk(b) && InsertOutcome(b, data) != OutOfPage && HeapOk(InsertBlock(b, data)) && i < Count(b)
    ensures i < Count(InsertBlock(b, data)) && RowAt(InsertBlock(b, data), i) == RowAt(b, i)
  {
    hide SlotAt, Patch, SlotBytes, DataStart, Deserialized, InsertBlock, RowAt, InsertOutcome;
    if InsertOutcome(b, data).Stored? {
      OldRow(b, data, i);
      InsertSlots(b, data, i);
    } else {
      InsertNothing(b, data);
    }
  }
}
