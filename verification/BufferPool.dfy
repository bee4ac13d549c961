/** BufferPool: the LRU cache of pages, proved equal, call by call, to PoolModel. */
module BufferPool {
  import opened Pages
  import opened PoolModel

  /** A node of std::list<PageId>. Its handle plays the role of the iterator kept in lruMap_. */
  datatype Cell = Cell(handle: nat, page: PageId)

  function Order(cells: seq<Cell>): (r: seq<PageId>)
    ensures |r| == |cells|
  {
    if cells == [] then [] else [cells[0].page] + Order(cells[1..])
  }

  /** list.erase(it): only the node with that handle goes. */
  function Erase(cells: seq<Cell>, handle: nat): seq<Cell> {
    if cells == [] then []
    else if cells[0].handle == handle then cells[1..]
    else [cells[0]] + Erase(cells[1..], handle)
  }

  /** The iterator map points each of its pages to that page's own node; newer nodes come first. */
  ghost predicate Linked(cells: seq<Cell>, iterators: map<PageId, nat>, bound: nat) {
    if cells == [] then iterators == map[]
    else
      && cells[0].page in iterators
      && iterators[cells[0].page] == cells[0].handle < bound
      && Linked(cells[1..], iterators - {cells[0].page}, cells[0].handle)
  }

  lemma {:induction false} LinkedOrder(cells: seq<Cell>, iterators: map<PageId, nat>, bound: nat)
    requires Linked(cells, iterators, bound)
    ensures forall id :: id in iterators <==> id in Order(cells)
    ensures forall id :: id in iterators ==> iterators[id] < bound
    ensures NoDup(Order(cells))
  {
    if cells != [] {
      LinkedOrder(cells[1..], iterators - {cells[0].page}, cells[0].handle);
      assert forall id :: id in iterators ==> id == cells[0].page || id in iterators - {cells[0].page};
    }
  }

  lemma Uncons(cells: seq<Cell>, iterators: map<PageId, nat>, bound: nat)
    requires Linked(cells, iterators, bound) && cells != []
    ensures var c, rest := cells[0], iterators - {cells[0].page};
      && c.page in iterators && iterators[c.page] == c.handle < bound
      && Linked(cells[1..], rest, c.handle) && Linked(cells[1..], rest, bound)
      && forall id :: id in rest ==> rest[id] < c.handle
  {
    LinkedOrder(cells[1..], iterators - {cells[0].page}, cells[0].handle);
  }

  lemma Cons(c: Cell, cells: seq<Cell>, iterators: map<PageId, nat>, bound: nat)
    requires c.page in iterators && iterators[c.page] == c.handle < bound
    requires Linked(cells, iterators - {c.page}, c.handle)
    ensures Linked([c] + cells, iterators, bound)
    ensures Order([c] + cells) == [c.page] + Order(cells)
  {
    assert ([c] + cells)[1..] == cells;
  }

  lemma {:induction false} EraseLinked(cells: seq<Cell>, iterators: map<PageId, nat>, bound: nat, id: PageId)
    requires Linked(cells, iterators, bound) && id in iterators
    ensures Linked(Erase(cells, iterators[id]), iterators - {id}, bound)
    ensures Order(Erase(cells, iterators[id])) == Without(Order(cells), id)
  {
    assert cells != [];
    hide Linked;
    Uncons(cells, iterators, bound);
    var c, rest := cells[0], iterators - {cells[0].page};
    if c.page != id {
      EraseLinked(cells[1..], rest, c.handle, id);
      assert rest - {id} == iterators - {id} - {c.page};
      Cons(c, Erase(cells[1..], iterators[id]), iterators - {id}, bound);
    }
  }

  /** The evicting loop erases the node it stands on. */
  lemma {:induction false} EraseAt(cells: seq<Cell>, iterators: map<PageId, nat>, bound: nat, k: nat)
    requires Linked(cells, iterators, bound) && k < |cells|
    ensures Order(cells)[k] == cells[k].page && cells[k].page in iterators
    ensures Erase(cells, iterators[cells[k].page]) == cells[..k] + cells[k + 1..]
  {
    assert cells != [];
    hide NoDup, Linked;
    Uncons(cells, iterators, bound);
    if k > 0 {
      var c, rest := cells[0], cells[1..];
      EraseAt(rest, iterators - {c.page}, c.handle, k - 1);
      assert rest[k - 1] == cells[k];
      assert [c] + (rest[..k - 1] + rest[k..]) == cells[..k] + cells[k + 1..];
    }
  }

  lemma PushLinked(cells: seq<Cell>, iterators: map<PageId, nat>, bound: nat, id: PageId)
    requires Linked(cells, iterators, bound) && id !in iterators
    ensures Linked([Cell(bound, id)] + cells, iterators[id := bound], bound + 1)
    ensures Order([Cell(bound, id)] + cells) == [id] + Order(cells)
  {
    assert ([Cell(bound, id)] + cells)[1..] == cells;
    assert iterators[id := bound] - {id} == iterators;
  }

  lemma TouchLinked(cells: seq<Cell>, iterators: map<PageId, nat>, bound: nat, id: PageId)
    requires Linked(cells, iterators, bound)
    ensures var rest := if id in iterators then Erase(cells, iterators[id]) else cells;
      && Linked([Cell(bound, id)] + rest, iterators[id := bound], bound + 1)
      && Order([Cell(bound, id)] + rest) == [id] + Without(Order(cells), id)
  {
    hide Linked, NoDup, Order;
    LinkedOrder(cells, iterators, bound);
    if id in iterators {
      EraseLinked(cells, iterators, bound, id);
      PushLinked(Erase(cells, iterators[id]), iterators - {id}, bound, id);
      assert (iterators - {id})[id := bound] == iterators[id := bound];
    } else {
      WithoutAbsent(Order(cells), id);
      PushLinked(cells, iterators, bound, id);
    }
  }

  // ----- the three structures against the pool's value -----

  /** The list, the iterator map and the frames hold the same pages; the value is consistent. */
  ghost predicate Agrees(p: Pool, cells: seq<Cell>, iterators: map<PageId, nat>, bound: nat) {
    p.order == Order(cells) && Linked(cells, iterators, bound) && Consistent(p)
  }

  function Touched(cells: seq<Cell>, iterators: map<PageId, nat>, bound: nat, id: PageId): seq<Cell> {
    [Cell(bound, id)] + if id in iterators then Erase(cells, iterators[id]) else cells
  }

  lemma Members(p: Pool, cells: seq<Cell>, iterators: map<PageId, nat>, bound: nat)
    requires Agrees(p, cells, iterators, bound)
    ensures forall id :: id in p.frames <==> id in iterators
    ensures |p.order| == |cells|
    ensures forall i :: 0 <= i < |cells| ==> p.order[i] == cells[i].page && cells[i].page in p.frames
  {
    LinkedOrder(cells, iterators, bound);
    forall i | 0 <= i < |cells|
      ensures p.order[i] == cells[i].page && cells[i].page in p.frames
    {
      EraseAt(cells, iterators, bound, i);
    }
  }

  lemma DropKeeps(p: Pool, cells: seq<Cell>, iterators: map<PageId, nat>, bound: nat, i: nat)
    requires Agrees(p, cells, iterators, bound)
    requires i < |cells| && cells[i].page in p.frames && p.frames[cells[i].page].pins == 0
    ensures var id := cells[i].page;
      && |p.order| == |cells| && p.order[i] == id && id < |p.disk|
      && Agrees(EvictAt(p, i), cells[..i] + cells[i + 1..], iterators - {id}, bound)
  {
    hide NoDup, Linked;
    var id := cells[i].page;
    EraseAt(cells, iterators, bound, i);
    EvictKeepsConsistent(p, i);
    EraseLinked(cells, iterators, bound, id);
    WithoutIs(p.order, i);
  }

  lemma TouchKeeps(p: Pool, cells: seq<Cell>, iterators: map<PageId, nat>, bound: nat, id: PageId)
    requires Agrees(p, cells, iterators, bound) && id in p.frames
    ensures Agrees(Fetch(p, id).1, Touched(cells, iterators, bound, id), iterators[id := bound], bound + 1)
  {
    hide NoDup, Linked, Order, Without;
    HitConsistent(p, id);
    TouchLinked(cells, iterators, bound, id);
  }

  lemma AdmitKeeps(p: Pool, cells: seq<Cell>, iterators: map<PageId, nat>, bound: nat, id: PageId, f: Frame)
    requires Agrees(p, cells, iterators, bound)
    requires id !in p.frames && |p.order| < p.cap && id < |p.disk|
    ensures Agrees(Load(p, id, f), Touched(cells, iterators, bound, id), iterators[id := bound], bound + 1)
  {
    hide NoDup, Linked, Order;
    Members(p, cells, iterators, bound);
    LoadConsistent(p, id, f);
    PushLinked(cells, iterators, bound, id);
  }

  lemma ExtendKeeps(p: Pool, cells: seq<Cell>, iterators: map<PageId, nat>, bound: nat)
    requires Agrees(p, cells, iterators, bound)
    ensures Agrees(p.(disk := p.disk + [EmptyBlock(|p.disk|)]), cells, iterators, bound)
  {
  }

  lemma NewIsAbsent(p: Pool)
    requires Consistent(p)
    ensures |p.disk| !in p.frames
  {
  }

  lemma UnpinAgrees(p: Pool, cells: seq<Cell>, iterators: map<PageId, nat>, bound: nat, id: PageId, isDirty: bool)
    requires Agrees(p, cells, iterators, bound)
    ensures Agrees(Unpin(p, id, isDirty), cells, iterators, bound)
  {
    hide NoDup, Linked, Order;
  }

  lemma FlushAgrees(p: Pool, cells: seq<Cell>, iterators: map<PageId, nat>, bound: nat, id: PageId)
    requires Agrees(p, cells, iterators, bound)
    ensures Agrees(FlushPage(p, id), cells, iterators, bound)
    ensures id in p.frames ==> id < |p.disk|
  {
    hide NoDup, Linked, Order;
  }

  lemma StoreAgrees(p: Pool, cells: seq<Cell>, iterators: map<PageId, nat>, bound: nat, id: PageId, b: Block)
    requires Agrees(p, cells, iterators, bound) && id in p.frames
    ensures Agrees(Store(p, id, b), cells, iterators, bound)
  {
    hide NoDup, Linked, Order;
  }

  /** q is p with every dirty page but those in `todo` flushed. */
  ghost predicate FlushedBut(p: Pool, q: Pool, todo: set<PageId>)
    requires Consistent(p)
  {
    && q.cap == p.cap && q.order == p.order && q.frames.Keys == p.frames.Keys && |q.disk| == |p.disk|
    && todo <= p.frames.Keys
    && (forall id :: id in p.frames ==> q.frames[id] == if id in todo then p.frames[id] else p.frames[id].(dirty := false))
    && (forall i :: 0 <= i < |p.disk| ==>
          q.disk[i] == if i in p.frames && i !in todo && p.frames[i].dirty then p.frames[i].block else p.disk[i])
  }

  lemma FlushedNone(p: Pool)
    requires Consistent(p)
    ensures FlushedBut(p, p, p.frames.Keys)
  {
  }

  lemma FlushedOne(p: Pool, q: Pool, todo: set<PageId>, id: PageId)
    requires Consistent(p) && FlushedBut(p, q, todo) && id in todo && Consistent(q)
    ensures FlushedBut(p, FlushPage(q, id), todo - {id})
  {
    hide NoDup;
    var r := FlushPage(q, id);
    assert r.frames.Keys == p.frames.Keys && |r.disk| == |p.disk|;
  }

  lemma FlushedAll(p: Pool, q: Pool)
    requires Consistent(p) && FlushedBut(p, q, {})
    ensures q == FlushAll(p)
  {
    assert q.frames == FlushAll(p).frames;
    assert q.disk == FlushAll(p).disk;
  }

  class BufferPool {
    const poolSize: nat
    const disk: DiskManager
    var pages: map<PageId, Page>
    var lruList: seq<Cell> // front = most recently used
    var lruMap: map<PageId, nat>
    var nextHandle: nat

    ghost var view: Pool // the whole pool as a PoolModel value
    ghost var Repr: set<object>

    /** The object holds this page alone, and is its frame of the view. */
    ghost predicate Mirror(id: PageId, page: Page)
      reads this, Repr
    {
      && page in Repr && page.home == id && id in view.frames
      && view.frames[id] == Frame(page.block, page.dirty, page.pinCount)
    }

    /** The pointer handed to a client is page id, in memory and pinned. */
    ghost predicate Hands(id: PageId, page: Page)
      reads this, Repr
    {
      && id in pages && page == pages[id] && page in Repr && page.home == id && page.pinCount > 0
      && id in view.frames && view.frames[id].block == page.block
    }

    /** The map, the list and the iterator map hold the same pages without repeats. */
    ghost predicate Valid()
      reads this, Repr
    {
      && {this, disk} <= Repr
      && (forall id :: id in pages ==> Mirror(id, pages[id]))
      && (forall id :: id in view.frames ==> id in pages)
      && view.cap == poolSize && view.disk == disk.blocks
      && Agrees(view, lruList, lruMap, nextHandle)
    }

    constructor (poolSize: nat, disk: DiskManager)
      ensures Valid() && this.poolSize == poolSize && this.disk == disk
      ensures view == Fresh(poolSize, disk.blocks) && Repr == {this, disk}
    {
      this.poolSize, this.disk := poolSize, disk;
      pages, lruList, lruMap, nextHandle := map[], [], map[], 0;
      view, Repr := Fresh(poolSize, disk.blocks), {this, disk};
    }

    lemma ViewIsConsistent()
      requires Valid()
      ensures Consistent(view)
    {
    }

    /** Removes the page from its place in the LRU list and puts it in front. */
    method TouchPage(id: PageId)
      modifies this`lruList, this`lruMap, this`nextHandle
      ensures lruList == Touched(old(lruList), old(lruMap), old(nextHandle), id)
      ensures lruMap == old(lruMap)[id := old(nextHandle)] && nextHandle == old(nextHandle) + 1
    {
      if id in lruMap {
        lruList := Erase(lruList, lruMap[id]);
      }
      lruList := [Cell(nextHandle, id)] + lruList;
      lruMap := lruMap[id := nextHandle];
      nextHandle := nextHandle + 1;
    }

    /** The page at place i of the LRU list is written out if dirty, and forgotten. */
    method Drop(i: nat)
      requires Valid() && i < |lruList|
      requires lruList[i].page in view.frames && view.frames[lruList[i].page].pins == 0
      modifies this`pages, this`lruList, this`lruMap, this`view, disk
      ensures Valid() && view == EvictAt(old(view), i)
    {
      hide Agrees, Linked, Order;
      DropKeeps(view, lruList, lruMap, nextHandle, i);
      var candidate := lruList[i].page;
      if pages[candidate].dirty {
        disk.WritePage(candidate, pages[candidate].block);
      }
      pages := pages - {candidate};
      lruMap := lruMap - {candidate};
      lruList := lruList[..i] + lruList[i + 1..];
      view := EvictAt(view, i);
      forall id | id in pages
        ensures Mirror(id, pages[id])
      {
        assert id in old(pages) && id != candidate && old(Mirror(id, pages[id]));
      }
    }

    /** Walks from the back of the LRU list for an unpinned page. */
    method Evict() returns (ok: bool)
      requires Valid()
      modifies this`pages, this`lruList, this`lruMap, this`view, disk
      ensures Valid()
      ensures var v := Victim(old(view).order, old(view).frames);
        ok == (v >= 0) && view == if ok then EvictAt(old(view), v) else old(view)
    {
      hide Agrees, Victim, EvictAt;
      Members(view, lruList, lruMap, nextHandle);
      var i := |lruList|;
      while i > 0
        invariant 0 <= i <= |lruList| == |view.order| && unchanged(this) && unchanged(disk) && Valid()
        invariant forall k :: i <= k < |lruList| ==> view.frames[lruList[k].page].pins > 0
      {
        i := i - 1;
        var candidate := lruList[i].page;
        if pages[candidate].pinCount > 0 {
          continue;
        }
        VictimIs(view.order, view.frames, i);
        Drop(i);
        return true;
      }
      VictimIs(view.order, view.frames, -1);
      return false;
    }

    /** Room for one more page; false is the exception "all pages pinned". */
    method MakeRoomFor() returns (ok: bool)
      requires Valid()
      modifies this`pages, this`lruList, this`lruMap, this`view, disk
      ensures Valid() && (if ok then Done else PoolFull, view) == MakeRoom(old(view))
    {
      hide Agrees, EvictAt, Victim;
      assert pages.Keys == view.frames.Keys;
      ok := true;
      if |pages| >= poolSize {
        ok := Evict();
      }
    }

    /** The hit of fetchPage: mark as recently used, and pin. */
    method Pin(id: PageId)
      requires Valid() && id in pages
      modifies this`lruList, this`lruMap, this`nextHandle, this`view, pages[id]
      ensures Valid() && (Done, view) == Fetch(old(view), id)
    {
      hide Agrees, Touched, Without, MakeRoom;
      ViewIsConsistent();
      TouchKeeps(view, lruList, lruMap, nextHandle, id);
      TouchPage(id);
      pages[id].pinCount := pages[id].pinCount + 1;
      view := Fetch(view, id).1;
      forall x | x in pages
        ensures Mirror(x, pages[x])
      {
        assert old(Mirror(x, pages[x]));
      }
    }

    /** The miss: a page that is not resident goes into the map and to the front of the list. */
    method Admit(id: PageId, page: Page)
      requires Valid() && id !in pages && |view.order| < poolSize && id < |view.disk|
      requires page !in Repr && page.home == id && page.pinCount == 1
      modifies this
      ensures Valid() && view == Load(old(view), id, Frame(page.block, page.dirty, 1))
      ensures Repr == old(Repr) + {page} && id in pages && pages[id] == page
    {
      hide Agrees, Touched;
      AdmitKeeps(view, lruList, lruMap, nextHandle, id, Frame(page.block, page.dirty, 1));
      pages := pages[id := page];
      TouchPage(id);
      view := Load(view, id, Frame(page.block, page.dirty, 1));
      Repr := Repr + {page};
      forall x | x in pages
        ensures Mirror(x, pages[x])
      {
        assert x != id ==> old(Mirror(x, pages[x]));
      }
    }

    method Extend() returns (id: PageId)
      requires Valid()
      modifies this`view, disk
      ensures Valid() && id == |old(view).disk|
      ensures view == old(view).(disk := old(view).disk + [EmptyBlock(id)])
    {
      hide Agrees;
      ExtendKeeps(view, lruList, lruMap, nextHandle);
      id := disk.AllocatePage();
      view := view.(disk := view.disk + [EmptyBlock(id)]);
      forall x | x in pages
        ensures Mirror(x, pages[x])
      {
        assert old(Mirror(x, pages[x]));
      }
    }

    /** A hit moves the page to the front and pins it; a miss makes room, reads the page and
        admits it. The status tells the two exceptions apart. */
    method FetchPage(id: PageId) returns (status: Status, page: Page?)
      requires Valid()
      modifies Repr
      ensures Valid() && fresh(Repr - old(Repr)) && old(Repr) <= Repr
      ensures (status, view) == Fetch(old(view), id)
      ensures status == Done ==> page != null && Hands(id, page)
    {
      hide Agrees, Without, MakeRoom, Load;
      ViewIsConsistent();
      if id in pages {
        Pin(id);
        return Done, pages[id];
      }
      status, page := LoadPage(id);
    }

    method LoadPage(id: PageId) returns (status: Status, page: Page?)
      requires Valid() && id !in pages
      modifies Repr
      ensures Valid() && fresh(Repr - old(Repr)) && old(Repr) <= Repr
      ensures (status, view) == Fetch(old(view), id)
      ensures status == Done ==> page != null && Hands(id, page)
    {
      hide Agrees, MakeRoom, Load, Preserves, AllPinned, Consistent;
      ViewIsConsistent();
      MakeRoomConsistent(view, id);
      var ok := MakeRoomFor();
      if !ok {
        return PoolFull, null;
      }
      page := new Page(id);
      var found := disk.ReadPage(id, page);
      if !found {
        return NoSuchPage, null;
      }
      page.pinCount := 1;
      Admit(id, page);
      status := Done;
    }

    /** The source lets the id wrap at 2^32; the caller keeps it below INVALID_PAGE_ID. */
    method NewPage() returns (status: Status, page: Page?)
      requires Valid() && |view.disk| < INVALID_PAGE_ID
      modifies Repr
      ensures Valid() && fresh(Repr - old(Repr)) && old(Repr) <= Repr
      ensures (status, view) == PoolModel.NewPage(old(view))
      ensures status == Done ==>
        var id := |old(view).disk|;
        page != null && Hands(id, page) && page.block.header.pageId == id
    {
      hide Agrees, MakeRoom, Preserves, AllPinned, Consistent;
      ViewIsConsistent();
      NewIsAbsent(view);
      MakeRoomConsistent(view, |view.disk|);
      var ok := MakeRoomFor();
      if !ok {
        return PoolFull, null;
      }
      var id := Extend();
      page := new Page(id);
      page.pinCount := 1;
      page.dirty := true;
      Admit(id, page);
      status := Done;
    }

    /** A page that is not resident is ignored. */
    method Unpin(id: PageId, isDirty: bool)
      requires Valid()
      modifies Repr
      ensures Valid() && Repr == old(Repr)
      ensures view == PoolModel.Unpin(old(view), id, isDirty)
    {
      hide Agrees;
      UnpinAgrees(view, lruList, lruMap, nextHandle, id, isDirty);
      if id in pages {
        var page := pages[id];
        if page.pinCount > 0 {
          page.pinCount := page.pinCount - 1;
        }
        if isDirty {
          page.dirty := true;
        }
        view := PoolModel.Unpin(view, id, isDirty);
        forall x | x in pages
          ensures Mirror(x, pages[x])
        {
          assert old(Mirror(x, pages[x]));
        }
      }
    }

    method FlushPage(id: PageId)
      requires Valid()
      modifies Repr
      ensures Valid() && Repr == old(Repr)
      ensures view == PoolModel.FlushPage(old(view), id)
    {
      hide Agrees;
      ViewIsConsistent();
      FlushAgrees(view, lruList, lruMap, nextHandle, id);
      if id in pages && pages[id].dirty {
        disk.WritePage(id, pages[id].block);
        pages[id].dirty := false;
        view := PoolModel.FlushPage(view, id);
        forall x | x in pages
          ensures Mirror(x, pages[x])
        {
          assert old(Mirror(x, pages[x]));
        }
      }
    }

    /** Writes every dirty page; the hash map's order is any order. */
    method FlushAll()
      requires Valid()
      modifies Repr
      ensures Valid() && Repr == old(Repr)
      ensures view == PoolModel.FlushAll(old(view))
    {
      hide Agrees, PoolModel.FlushAll, PoolModel.FlushPage, FlushedBut;
      ViewIsConsistent();
      ghost var p := view;
      var todo := pages.Keys;
      assert todo == p.frames.Keys;
      FlushedNone(p);
      while todo != {}
        invariant Valid() && Repr == old(Repr) && FlushedBut(p, view, todo)
        decreases todo
      {
        var id :| id in todo;
        ViewIsConsistent();
        FlushedOne(p, view, todo, id);
        FlushPage(id);
        todo := todo - {id};
      }
      FlushedAll(p, view);
    }

    /** What a client does through the pointer that FetchPage gave it. */
    method Write(page: Page, b: Block)
      requires Valid() && Hands(page.home, page)
      modifies page`block, this`view
      ensures Valid() && view == Store(old(view), page.home, b)
    {
      hide Agrees;
      StoreAgrees(view, lruList, lruMap, nextHandle, page.home, b);
      page.block := b;
      view := Store(view, page.home, b);
      forall x | x in pages
        ensures Mirror(x, pages[x])
      {
        assert old(Mirror(x, pages[x]));
      }
    }
  }
}
