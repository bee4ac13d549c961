/** The table heap's operations on its page: bytes and slot entries overwritten in place, the
    record count bumped in the header. */
module TableHeaps {
  import opened HeapPages
  import opened LittleEndian
  import opened Options
  import opened Pages
  import opened Rows
  import opened RowText
  import W = Wal

  /** Where a row is: its page and its slot. */
  datatype RowId = RowId(pageId: PageId, slotIndex: nat)

  class TableHeap {
    const page: Page

    constructor (page: Page)
      ensures this.page == page
    {
      this.page := page;
    }

    /** The heap on a page that the pool has just made. */
    constructor Create(page: Page, ghost id: PageId)
      requires page.block == EmptyBlock(id)
      ensures this.page == page && HeapOk(page.block)
      ensures forall i: nat :: RowAt(page.block, i) == None
    {
      EmptyIsHeap(id);
      this.page := page;
    }

    /** memcpy of one slot entry. */
    method ReadSlot(i: nat) returns (e: SlotEntry)
      requires SlotPos(i) + SLOT_SIZE <= BODY_SIZE
      ensures e == SlotAt(page.block.body, i)
    {
      var p := SlotPos(i);
      var bytes := page.block.body[p..p + SLOT_SIZE];
      SliceOfSlice(page.block.body, p, 0, 2);
      SliceOfSlice(page.block.body, p, 2, 4);
      e := SlotEntry(FromLe(bytes[..2]), FromLe(bytes[2..4]), bytes[4] != '\0');
    }

    method Copy(at: nat, bytes: string)
      requires at + |bytes| <= BODY_SIZE
      modifies page`block
      ensures page.block == old(page.block).(body := Patch(old(page.block.body), at, bytes))
    {
      page.block := page.block.(body := Patch(page.block.body, at, bytes));
    }

    /** Finds the lowest live offset, tests the free space, and copies the row and its slot. */
    method InsertIntoPage(row: Row) returns (outcome: Inserted, data: string)
      requires HeapOk(page.block)
      modifies page`block
      ensures W.TextOfRow(data, row) && outcome == InsertOutcome(old(page.block), data)
      ensures outcome != OutOfPage ==> page.block == InsertBlock(old(page.block), data) && HeapOk(page.block)
    {
      hide HeapOk, SlotAt, Patch, SlotBytes, AsSize;
      data := W.WAL.SerializeRow(row);
      var dataLen := Len16(data);
      var slotCount := Count(page.block);
      HeapIsSized(page.block);
      var slotDirEnd := DirEnd(slotCount);
      var dataStart := PAGE_SIZE;
      for i := 0 to slotCount
        invariant page.block == old(page.block)
        invariant dataStart == DataStart(page.block.body, i)
      {
        var e := ReadSlot(i);
        if e.valid && e.offset < dataStart {
          dataStart := e.offset;
        }
      }
      if slotDirEnd + SLOT_SIZE > AsSize(dataStart - dataLen) {
        return PageFull, data;
      }
      var rowOffset := (dataStart - dataLen) % 0x1_0000;
      if rowOffset + dataLen > PAGE_SIZE {
        return OutOfPage, data;
      }
      OutcomeCases(page.block, data);
      InsertKeepsHeap(page.block, data);
      Copy(rowOffset - HEADER_SIZE, data[..dataLen]);
      Copy(SlotPos(slotCount), SlotBytes(SlotEntry(rowOffset, dataLen, true)));
      page.block := page.block.(header := page.block.header.(recordCount := slotCount + 1));
      return Stored(slotCount), data;
    }

    method GetRow(slotIndex: nat) returns (row: Option<Row>)
      requires HeapOk(page.block)
      ensures row == RowAt(page.block, slotIndex)
    {
      hide SlotAt, Deserialized;
      if slotIndex >= Count(page.block) {
        return None;
      }
      var e := ReadSlot(slotIndex);
      if !e.valid {
        return None;
      }
      assert Inside(page.block, Slot(page.block, slotIndex));
      var data := page.block.body[e.offset - HEADER_SIZE..e.offset - HEADER_SIZE + e.length];
      var read := W.WAL.DeserializeRow(data);
      return Some(read);
    }

    /** Clears the slot's valid byte; true if there was a live row. */
    method DeleteRow(slotIndex: nat) returns (deleted: bool)
      requires HeapOk(page.block)
      modifies page`block
      ensures deleted == Live(old(page.block), slotIndex)
      ensures page.block == DeleteBlock(old(page.block), slotIndex) && HeapOk(page.block)
    {
      hide HeapOk, SlotAt, Patch;
      HeapIsSized(page.block);
      DeleteRows(page.block, slotIndex, slotIndex);
      if slotIndex >= Count(page.block) {
        return false;
      }
      var e := ReadSlot(slotIndex);
      if !e.valid {
        return false;
      }
      Copy(SlotPos(slotIndex) + 4, ['\0']);
      return true;
    }

    /** Delete, then insert; true whenever there was a live row, even if the new one found no room. */
    method UpdateRow(slotIndex: nat, newRow: Row) returns (updated: bool, outcome: Inserted, data: string)
      requires HeapOk(page.block)
      modifies page`block
      ensures updated == Live(old(page.block), slotIndex)
      ensures !updated ==> page.block == old(page.block)
      ensures updated ==>
        && W.TextOfRow(data, newRow) && HeapOk(DeleteBlock(old(page.block), slotIndex))
        && outcome == InsertOutcome(DeleteBlock(old(page.block), slotIndex), data)
        && (outcome != OutOfPage ==>
              && Fitting(old(page.block), HeapOp.Update(slotIndex, data))
              && page.block == UpdateBlock(old(page.block), slotIndex, data) && HeapOk(page.block))
    {
      hide HeapOk, SlotAt, Patch, InsertBlock, InsertOutcome;
      DeleteNothingIf(page.block, slotIndex);
      outcome, data := PageFull, "";
      updated := DeleteRow(slotIndex);
      if updated {
        outcome, data := InsertIntoPage(newRow);
      }
    }
  }

  lemma SliceOfSlice(body: string, p: nat, lo: nat, hi: nat)
    requires lo <= hi <= SLOT_SIZE && p + SLOT_SIZE <= |body|
    ensures body[p..p + SLOT_SIZE][lo..hi] == body[p + lo..p + hi]
  {
    var inner, whole := body[p..p + SLOT_SIZE][lo..hi], body[p + lo..p + hi];
    assert forall i :: 0 <= i < hi - lo ==> inner[i] == body[p..p + SLOT_SIZE][lo + i] == whole[i];
  }

  lemma HeapIsSized(b: RawBlock)
    requires HeapOk(b)
    ensures Sized(b)
  {
  }

  lemma DeleteNothingIf(b: RawBlock, i: nat)
    requires HeapOk(b)
    ensures Sized(b) && (!Live(b, i) ==> DeleteBlock(b, i) == b)
  {
  }
}
