/** The buffer pool as a value: what each operation of BufferPool does to the
    LRU order, the frames and the disk, and the whole-run theorems about it. */
module PoolModel {
  import opened Pages

  datatype Frame = Frame(block: Block, dirty: bool, pins: nat)

  /** `order` lists the resident pages, most recently used first. */
  datatype Pool = Pool(cap: nat, order: seq<PageId>, frames: map<PageId, Frame>, disk: seq<Block>)

  /** How a call ends: normally, or by one of the two exceptions. */
  datatype Status = Done | PoolFull | NoSuchPage

  function Without(order: seq<PageId>, id: PageId): seq<PageId> {
    if order == [] then []
    else if order[0] == id then order[1..]
    else [order[0]] + Without(order[1..], id)
  }

  ghost predicate NoDup(s: seq<PageId>) {
    forall i, j :: 0 <= i < j < |s| ==> s[i] != s[j]
  }

  ghost predicate Consistent(p: Pool) {
    && NoDup(p.order)
    && |p.order| <= p.cap
    && (forall id :: id in p.order <==> id in p.frames)
    && (forall id :: id in p.frames ==> id < |p.disk|)
  }

  /** No change is lost by dropping an unpinned page: it is dirty or equals its disk copy. */
  ghost predicate Clean(p: Pool)
    requires Consistent(p)
  {
    forall id :: id in p.frames && p.frames[id].pins == 0 && !p.frames[id].dirty
      ==> p.frames[id].block == p.disk[id]
  }

  ghost predicate WF(p: Pool) {
    Consistent(p) && Clean(p)
  }

  ghost predicate Idle(p: Pool) {
    forall id :: id in p.frames ==> p.frames[id].pins == 0
  }

  /** The flat page store the pool stands for: the frame if resident, else the disk block. */
  ghost function Flat(p: Pool): (s: seq<Block>)
    ensures |s| == |p.disk|
  {
    seq(|p.disk|, i requires 0 <= i < |p.disk| => if i in p.frames then p.frames[i].block else p.disk[i])
  }

  // ----- the operations -----

  /** Index of the least recently used unpinned page, or -1. */
  function Victim(order: seq<PageId>, frames: map<PageId, Frame>): (v: int)
    requires forall id :: id in order ==> id in frames
    ensures -1 <= v < |order|
    ensures 0 <= v ==> frames[order[v]].pins == 0
    ensures forall i :: v < i < |order| ==> frames[order[i]].pins > 0
  {
    if order == [] then -1
    else if frames[order[|order| - 1]].pins == 0 then |order| - 1
    else Victim(order[..|order| - 1], frames)
  }

  lemma VictimIs(order: seq<PageId>, frames: map<PageId, Frame>, v: int)
    requires forall id :: id in order ==> id in frames
    requires -1 <= v < |order| && (0 <= v ==> frames[order[v]].pins == 0)
    requires forall i :: v < i < |order| ==> frames[order[i]].pins > 0
    ensures Victim(order, frames) == v
  {
  }

  function EvictAt(p: Pool, v: nat): Pool
    requires v < |p.order| && p.order[v] in p.frames && p.order[v] < |p.disk|
  {
    var id := p.order[v];
    var f := p.frames[id];
    p.(order := p.order[..v] + p.order[v + 1..],
       frames := p.frames - {id},
       disk := if f.dirty then p.disk[id := f.block] else p.disk)
  }

  /** Room for one more page: nothing to do, or one eviction, or "all pages pinned". */
  function MakeRoom(p: Pool): (r: (Status, Pool))
    requires Consistent(p)
  {
    if |p.frames| < p.cap then (Done, p)
    else
      var v := Victim(p.order, p.frames);
      if v < 0 then (PoolFull, p) else (Done, EvictAt(p, v))
  }

  function Load(p: Pool, id: PageId, f: Frame): Pool {
    p.(order := [id] + p.order, frames := p.frames[id := f])
  }

  function Fetch(p: Pool, id: PageId): (r: (Status, Pool))
    requires Consistent(p)
  {
    if id in p.frames then
      var f := p.frames[id];
      (Done, p.(order := [id] + Without(p.order, id), frames := p.frames[id := f.(pins := f.pins + 1)]))
    else
      var (st, q) := MakeRoom(p);
      if st != Done then (st, q)
      else if id >= |q.disk| then (NoSuchPage, q)
      else (Done, Load(q, id, Frame(q.disk[id], false, 1)))
  }

  /** The new page's id is the old page count. */
  function NewPage(p: Pool): (r: (Status, Pool))
    requires Consistent(p)
  {
    var (st, q) := MakeRoom(p);
    if st != Done then (st, q)
    else
      var id := |q.disk|;
      (Done, Load(q.(disk := q.disk + [EmptyBlock(id)]), id, Frame(EmptyBlock(id), true, 1)))
  }

  function Unpin(p: Pool, id: PageId, isDirty: bool): Pool {
    if id !in p.frames then p
    else
      var f := p.frames[id];
      p.(frames := p.frames[id := f.(pins := if f.pins > 0 then f.pins - 1 else 0, dirty := f.dirty || isDirty)])
  }

  function FlushPage(p: Pool, id: PageId): Pool
    requires Consistent(p)
  {
    if id in p.frames && p.frames[id].dirty then
      var f := p.frames[id];
      p.(frames := p.frames[id := f.(dirty := false)], disk := p.disk[id := f.block])
    else p
  }

  /** Every dirty page is written, in whatever order the hash map gives. */
  function FlushAll(p: Pool): Pool {
    p.(frames := map id | id in p.frames :: p.frames[id].(dirty := false),
       disk := seq(|p.disk|, i requires 0 <= i < |p.disk| =>
         if i in p.frames && p.frames[i].dirty then p.frames[i].block else p.disk[i]))
  }

  /** A client stores through the pointer that fetchPage gave it. */
  function Store(p: Pool, id: PageId, b: Block): Pool
    requires id in p.frames
  {
    p.(frames := p.frames[id := p.frames[id].(block := b)])
  }

  // ----- one step -----

  lemma {:induction false} WithoutIs(order: seq<PageId>, i: nat)
    requires i < |order| && NoDup(order)
    ensures Without(order, order[i]) == order[..i] + order[i + 1..]
  {
    if i > 0 {
      var rest := order[1..];
      WithoutIs(rest, i - 1);
      assert rest[i - 1] == order[i] && order[0] != order[i];
      assert order[..i] == [order[0]] + rest[..i - 1];
      assert rest[i..] == order[i + 1..];
    }
  }

  lemma {:induction false} WithoutAbsent(order: seq<PageId>, id: PageId)
    requires id !in order
    ensures Without(order, id) == order
  {
    if order != [] {
      WithoutAbsent(order[1..], id);
    }
  }

  lemma CardinalityIsOrder(p: Pool)
    requires Consistent(p)
    ensures |p.frames| == |p.order|
  {
    SizeOfListed(p.order, p.frames.Keys);
  }

  lemma {:induction false} SizeOfListed(s: seq<PageId>, all: set<PageId>)
    requires NoDup(s) && forall x :: x in s <==> x in all
    ensures |all| == |s|
  {
    if s == [] {
      assert all == {};
    } else {
      assert s[0] in s;
      assert forall x :: x in s[1..] <==> x in all - {s[0]};
      SizeOfListed(s[1..], all - {s[0]});
    }
  }

  lemma RemoveAtNoDup(s: seq<PageId>, i: nat)
    requires i < |s| && NoDup(s)
    ensures NoDup(s[..i] + s[i + 1..])
    ensures forall x :: x in s[..i] + s[i + 1..] <==> x in s && x != s[i]
  {
    var r := s[..i] + s[i + 1..];
    assert forall j :: 0 <= j < |r| ==> r[j] == s[if j < i then j else j + 1];
    forall x | x in s && x != s[i]
      ensures x in r
    {
      var k :| 0 <= k < |s| && s[k] == x;
      assert x == r[if k < i then k else k - 1];
    }
  }

  lemma EvictKeepsConsistent(p: Pool, v: nat)
    requires Consistent(p) && v < |p.order|
    ensures var q := EvictAt(p, v); Consistent(q) && |q.order| == |p.order| - 1
  {
    hide NoDup;
    RemoveAtNoDup(p.order, v);
    var q := EvictAt(p, v);
    assert |q.disk| == |p.disk|;
    forall id
      ensures id in q.order <==> id in q.frames
    {
      assert id in q.order <==> id in p.order && id != p.order[v];
    }
  }

  /** Evicting an unpinned page leaves the flat store as it was. */
  lemma EvictKeepsFlat(p: Pool, v: nat)
    requires WF(p) && v < |p.order| && p.frames[p.order[v]].pins == 0
    ensures var q := EvictAt(p, v); WF(q) && Flat(q) == Flat(p)
  {
    hide NoDup;
    EvictKeepsConsistent(p, v);
    var q := EvictAt(p, v);
    assert p.order[v] in p.frames;
    assert forall i :: 0 <= i < |p.disk| ==> Flat(q)[i] == Flat(p)[i];
  }

  /** Nothing but `id` has come in, every frame that stays is unchanged, every pinned frame stays. */
  ghost predicate Preserves(p: Pool, q: Pool, id: PageId) {
    && q.cap == p.cap
    && (forall x :: x in q.frames && x != id ==> x in p.frames && q.frames[x] == p.frames[x])
    && (forall x :: x in p.frames && p.frames[x].pins > 0 ==> x in q.frames)
  }

  ghost predicate AllPinned(p: Pool) {
    |p.order| == p.cap && forall x :: x in p.frames ==> p.frames[x].pins > 0
  }

  /** Eviction drops the least recently used unpinned page, keeps every pinned page as it
      was, and fails only when all pages are pinned. */
  lemma MakeRoomConsistent(p: Pool, id: PageId)
    requires Consistent(p)
    ensures var (st, q) := MakeRoom(p);
      && Consistent(q) && |q.disk| == |p.disk| && Preserves(p, q, id)
      && (st == Done ==> |q.order| < q.cap)
      && (id !in p.frames ==> id !in q.frames)
      && st == if AllPinned(p) then PoolFull else Done
  {
    hide NoDup;
    CardinalityIsOrder(p);
    var v := Victim(p.order, p.frames);
    if |p.frames| >= p.cap && v >= 0 {
      EvictKeepsConsistent(p, v);
      assert p.order[v] in p.frames;
    }
  }

  /** It loses nothing. */
  lemma MakeRoomKeeps(p: Pool, id: PageId)
    requires WF(p)
    ensures var (st, q) := MakeRoom(p);
      && WF(q) && Flat(q) == Flat(p) && Preserves(p, q, id)
      && (st == Done ==> |q.order| < q.cap)
      && (id !in p.frames ==> id !in q.frames)
      && st == if AllPinned(p) then PoolFull else Done
  {
    hide NoDup, Flat, Preserves, AllPinned;
    MakeRoomConsistent(p, id);
    var v := Victim(p.order, p.frames);
    if |p.frames| >= p.cap && v >= 0 {
      assert p.order[v] in p.frames;
      EvictKeepsFlat(p, v);
    }
  }

  lemma MoveToFront(order: seq<PageId>, id: PageId)
    requires NoDup(order) && id in order
    ensures NoDup([id] + Without(order, id))
    ensures |Without(order, id)| == |order| - 1
    ensures forall x :: x in [id] + Without(order, id) <==> x in order
  {
    var i :| 0 <= i < |order| && order[i] == id;
    WithoutIs(order, i);
    RemoveAtNoDup(order, i);
  }

  lemma LoadConsistent(p: Pool, id: PageId, f: Frame)
    requires Consistent(p) && id !in p.frames && |p.order| < p.cap && id < |p.disk|
    ensures Consistent(Load(p, id, f))
  {
    var q := Load(p, id, f);
    assert forall x :: x in q.order <==> x == id || x in p.order;
  }

  lemma LoadKeeps(p: Pool, id: PageId, f: Frame)
    requires WF(p) && id !in p.frames && |p.order| < p.cap && id < |p.disk| && f.pins > 0
    ensures var q := Load(p, id, f); WF(q) && Flat(q) == Flat(p)[id := f.block]
  {
    hide NoDup;
    LoadConsistent(p, id, f);
  }

  lemma HitConsistent(p: Pool, id: PageId)
    requires Consistent(p) && id in p.frames
    ensures Consistent(Fetch(p, id).1)
  {
    hide NoDup, Without;
    MoveToFront(p.order, id);
  }

  lemma HitKeeps(p: Pool, id: PageId)
    requires WF(p) && id in p.frames
    ensures var q := Fetch(p, id).1;
      && WF(q) && Flat(q) == Flat(p) && Preserves(p, q, id) && id < |p.disk|
      && id in q.frames && q.frames[id] == p.frames[id].(pins := p.frames[id].pins + 1)
  {
    hide NoDup, Without;
    HitConsistent(p, id);
    var q := Fetch(p, id).1;
    assert forall i :: 0 <= i < |p.disk| ==> Flat(q)[i] == Flat(p)[i];
  }

  lemma MissKeeps(p: Pool, id: PageId)
    requires WF(p) && id !in p.frames
    ensures var (st, q) := Fetch(p, id);
      && WF(q) && Flat(q) == Flat(p) && Preserves(p, q, id)
      && (st == Done ==> id < |p.disk| && id in q.frames && q.frames[id] == Frame(Flat(p)[id], false, 1))
      && (st == PoolFull <==> AllPinned(p))
      && (st == NoSuchPage ==> id >= |p.disk|)
  {
    hide MakeRoom, NoDup, Flat, AllPinned, Clean, Consistent;
    MakeRoomKeeps(p, id);
    var (st, r) := MakeRoom(p);
    if st == Done && id < |r.disk| {
      FlatAbsent(r, id);
      LoadKeeps(r, id, Frame(r.disk[id], false, 1));
    }
  }

  lemma FlatAbsent(p: Pool, id: PageId)
    requires id < |p.disk| && id !in p.frames
    ensures Flat(p)[id] == p.disk[id] && Flat(p)[id := p.disk[id]] == Flat(p)
  {
  }

  /** What fetchPage promises: the flat store is untouched, the page is pinned once more and
      holds the flat store's bytes, pinned pages stay, and it fails only when it must. */
  lemma FetchKeeps(p: Pool, id: PageId)
    requires WF(p)
    ensures var (st, q) := Fetch(p, id);
      && WF(q) && Flat(q) == Flat(p) && Preserves(p, q, id)
      && (st == Done ==>
            && id < |p.disk| && id in q.frames
            && q.frames[id] == if id in p.frames then p.frames[id].(pins := p.frames[id].pins + 1)
                               else Frame(Flat(p)[id], false, 1))
      && (st == PoolFull <==> id !in p.frames && AllPinned(p))
      && (st == NoSuchPage ==> id >= |p.disk|)
  {
    hide MakeRoom, Flat, AllPinned, Clean, Consistent, Preserves, Without;
    if id in p.frames {
      HitKeeps(p, id);
    } else {
      MissKeeps(p, id);
    }
  }

  lemma NewPageKeeps(p: Pool)
    requires WF(p)
    ensures var (st, q) := NewPage(p);
      var id := |p.disk|;
      && WF(q) && Preserves(p, q, id)
      && st == (if AllPinned(p) then PoolFull else Done)
      && Flat(q) == (if st == Done then Flat(p) + [EmptyBlock(id)] else Flat(p))
      && (st == Done ==> id in q.frames && q.frames[id] == Frame(EmptyBlock(id), true, 1))
  {
    hide MakeRoom, NoDup;
    MakeRoomKeeps(p, |p.disk|);
    var (st, r) := MakeRoom(p);
    if st == Done {
      var id := |r.disk|;
      var r' := r.(disk := r.disk + [EmptyBlock(id)]);
      assert Flat(r') == Flat(r) + [EmptyBlock(id)];
      LoadKeeps(r', id, Frame(EmptyBlock(id), true, 1));
    }
  }

  /** unpin may end the last pin of a changed page only as dirty. */
  ghost predicate MayUnpin(p: Pool, id: PageId, isDirty: bool)
    requires Consistent(p)
  {
    id in p.frames && p.frames[id].pins <= 1 && !isDirty && !p.frames[id].dirty ==>
      p.frames[id].block == p.disk[id]
  }

  lemma UnpinKeeps(p: Pool, id: PageId, isDirty: bool)
    requires WF(p) && MayUnpin(p, id, isDirty)
    ensures var q := Unpin(p, id, isDirty); WF(q) && Flat(q) == Flat(p)
  {
  }

  /** Any other last unpin loses the change as soon as the page is evicted. */
  lemma UnpinLosesIff(p: Pool, id: PageId, isDirty: bool, v: nat)
    requires WF(p) && v < |p.order| && p.order[v] == id && p.frames[id].pins <= 1
    ensures var q := Unpin(p, id, isDirty);
      && Consistent(q) && (WF(q) <==> MayUnpin(p, id, isDirty))
      && (Flat(EvictAt(q, v)) == Flat(p) <==> MayUnpin(p, id, isDirty))
  {
    hide NoDup;
    var q := Unpin(p, id, isDirty);
    var r := EvictAt(q, v);
    if MayUnpin(p, id, isDirty) {
      EvictKeepsFlat(q, v);
    } else {
      assert Flat(r)[id] == p.disk[id] && Flat(p)[id] == p.frames[id].block;
    }
  }

  // ----- pin counts -----

  /** The page fetched n times. */
  ghost function FetchTimes(p: Pool, id: PageId, n: nat): Pool {
    if n == 0 then p
    else
      var q := FetchTimes(p, id, n - 1);
      if Consistent(q) then Fetch(q, id).1 else q
  }

  /** The page unpinned n times. */
  ghost function UnpinTimes(p: Pool, id: PageId, isDirty: bool, n: nat): Pool {
    if n == 0 then p else Unpin(UnpinTimes(p, id, isDirty, n - 1), id, isDirty)
  }

  /** Fetching a resident page n times and unpinning it n times gives back its pin count, and it may be
      evicted again iff it might before; between, it may not. */
  lemma PinsReturn(p: Pool, id: PageId, isDirty: bool, n: nat)
    requires WF(p) && id in p.frames
    ensures var q := FetchTimes(p, id, n);
      && WF(q) && id in q.frames && q.frames[id].pins == p.frames[id].pins + n
      && var r := UnpinTimes(q, id, isDirty, n); id in r.frames && r.frames[id].pins == p.frames[id].pins
  {
    FetchCounts(p, id, n);
    UnpinCounts(FetchTimes(p, id, n), id, isDirty, n);
  }

  lemma {:induction false} FetchCounts(p: Pool, id: PageId, n: nat)
    requires WF(p) && id in p.frames
    ensures var q := FetchTimes(p, id, n); WF(q) && id in q.frames && q.frames[id].pins == p.frames[id].pins + n
  {
    hide Fetch, Clean, Flat, Preserves, AllPinned;
    if n > 0 {
      FetchCounts(p, id, n - 1);
      FetchKeeps(FetchTimes(p, id, n - 1), id);
    }
  }

  /** Unpinning counts down, and stays at zero. */
  lemma {:induction false} UnpinCounts(p: Pool, id: PageId, isDirty: bool, n: nat)
    requires id in p.frames
    ensures var q := UnpinTimes(p, id, isDirty, n);
      && id in q.frames && q.frames[id].pins == (if n <= p.frames[id].pins then p.frames[id].pins - n else 0)
      && q.frames[id].block == p.frames[id].block && (q.frames[id].dirty <==> p.frames[id].dirty || (isDirty && n > 0))
  {
    if n > 0 {
      UnpinCounts(p, id, isDirty, n - 1);
    }
  }

  /** Flushing a dirty page writes that page and marks it clean; nothing else changes. */
  lemma FlushKeeps(p: Pool, id: PageId)
    requires WF(p)
    ensures var q := FlushPage(p, id);
      && WF(q) && Flat(q) == Flat(p)
      && (id in p.frames && (p.frames[id].pins == 0 || p.frames[id].dirty) ==> q.disk[id] == Flat(p)[id])
      && q.order == p.order && q.frames.Keys == p.frames.Keys && |q.disk| == |p.disk|
      && (forall x :: x in p.frames ==> q.frames[x] == if x == id then p.frames[x].(dirty := false) else p.frames[x])
      && (forall i :: 0 <= i < |p.disk| && i != id ==> q.disk[i] == p.disk[i])
  {
  }

  /** After flushAll the disk alone holds the flat store, apart from pages that a client
      still has pinned and has changed without saying so. */
  lemma FlushAllKeeps(p: Pool)
    requires WF(p)
    ensures var q := FlushAll(p);
      && WF(q) && Flat(q) == Flat(p)
      && forall id :: 0 <= id < |p.disk| && (id in p.frames ==> p.frames[id].pins == 0 || p.frames[id].dirty)
                      ==> q.disk[id] == Flat(p)[id]
    ensures var q := FlushAll(p);
      && q.order == p.order && q.frames.Keys == p.frames.Keys && |q.disk| == |p.disk|
      && (forall x :: x in p.frames ==> q.frames[x] == p.frames[x].(dirty := false))
      && (forall i :: 0 <= i < |p.disk| && i !in p.frames ==> q.disk[i] == p.disk[i])
  {
  }

  lemma StoreKeeps(p: Pool, id: PageId, b: Block)
    requires WF(p) && id in p.frames && p.frames[id].pins > 0
    ensures var q := Store(p, id, b); WF(q) && Flat(q) == Flat(p)[id := b]
  {
  }

  // ----- whole runs: the pool cannot be told from a flat page store -----

  datatype Op =
    | FetchOp(id: PageId)
    | NewOp
    | StoreOp(id: PageId, block: Block)
    | UnpinOp(id: PageId, isDirty: bool)
    | FlushOp(id: PageId)
    | FlushAllOp

  /** What the client may do. `pending` holds the pages written since they were last unpinned as
      dirty: it stores only through a pin it has, and never gives up the last pin of a pending
      page as clean. */
  ghost predicate Allowed(p: Pool, pending: set<PageId>, op: Op) {
    match op
    case StoreOp(id, _) => id in p.frames && p.frames[id].pins > 0
    case UnpinOp(id, isDirty) => id in pending && id in p.frames && p.frames[id].pins <= 1 ==> isDirty
    case _ => true
  }

  ghost function NextPending(pending: set<PageId>, op: Op): set<PageId> {
    match op
    case StoreOp(id, _) => pending + {id}
    case UnpinOp(id, isDirty) => if isDirty then pending - {id} else pending
    case _ => pending
  }

  ghost function Step(p: Pool, op: Op): Pool
    requires Consistent(p)
    requires op.StoreOp? ==> op.id in p.frames
  {
    match op
    case FetchOp(id) => Fetch(p, id).1
    case NewOp => NewPage(p).1
    case StoreOp(id, b) => Store(p, id, b)
    case UnpinOp(id, d) => Unpin(p, id, d)
    case FlushOp(id) => FlushPage(p, id)
    case FlushAllOp => FlushAll(p)
  }

  /** The same operation on a plain sequence of blocks; `full` says that no page could be had. */
  ghost function FlatStep(s: seq<Block>, op: Op, full: bool): seq<Block> {
    match op
    case NewOp => if full then s else s + [EmptyBlock(|s|)]
    case StoreOp(id, b) => if id < |s| then s[id := b] else s
    case _ => s
  }

  /** A changed page is dirty, or it is pinned and still pending. */
  ghost predicate Accounted(p: Pool, pending: set<PageId>)
    requires Consistent(p)
  {
    forall id :: id in p.frames && !p.frames[id].dirty && p.frames[id].block != p.disk[id] ==>
      id in pending && p.frames[id].pins > 0
  }

  /** An eviction writes no page but the victim. */
  lemma MakeRoomDisk(p: Pool)
    requires Consistent(p)
    ensures var (_, q) := MakeRoom(p);
      |q.disk| == |p.disk| && forall x :: x in q.frames ==> x in p.frames && q.disk[x] == p.disk[x]
  {
    var v := Victim(p.order, p.frames);
    if |p.frames| >= p.cap && v >= 0 {
      assert p.order[v] in p.frames;
      assert MakeRoom(p).1 == EvictAt(p, v);
    }
  }

  lemma FetchDisk(p: Pool, id: PageId)
    requires WF(p)
    ensures var (_, q) := Fetch(p, id);
      && |q.disk| == |p.disk|
      && (forall x :: x in q.frames && x in p.frames ==> x < |p.disk| && q.disk[x] == p.disk[x])
      && (id in q.frames && id !in p.frames ==> id < |q.disk| && q.frames[id].block == q.disk[id])
  {
    MakeRoomDisk(p);
    FetchKeeps(p, id);
  }

  /** What one step must keep, and what it must do to the flat store. */
  ghost predicate Refines(p: Pool, q: Pool, pending: set<PageId>, flat: seq<Block>)
    requires Consistent(p)
  {
    WF(q) && Accounted(q, pending) && q.cap == p.cap && Flat(q) == flat
  }

  lemma FetchRefines(p: Pool, pending: set<PageId>, id: PageId)
    requires WF(p) && Accounted(p, pending)
    ensures Refines(p, Fetch(p, id).1, pending, Flat(p))
  {
    FetchKeeps(p, id);
    FetchDisk(p, id);
  }

  lemma NewRefines(p: Pool, pending: set<PageId>)
    requires WF(p) && Accounted(p, pending)
    ensures Refines(p, NewPage(p).1, pending, FlatStep(Flat(p), NewOp, AllPinned(p)))
  {
    hide MakeRoom, NoDup, Flat;
    NewPageKeeps(p);
    MakeRoomDisk(p);
  }

  lemma UnpinRefines(p: Pool, pending: set<PageId>, id: PageId, isDirty: bool)
    requires WF(p) && Accounted(p, pending) && Allowed(p, pending, UnpinOp(id, isDirty))
    ensures Refines(p, Unpin(p, id, isDirty), NextPending(pending, UnpinOp(id, isDirty)), Flat(p))
  {
    UnpinKeeps(p, id, isDirty);
  }

  lemma FlushRefines(p: Pool, pending: set<PageId>, id: PageId)
    requires WF(p) && Accounted(p, pending)
    ensures Refines(p, FlushPage(p, id), pending, Flat(p))
  {
    FlushKeeps(p, id);
  }

  lemma FlushAllRefines(p: Pool, pending: set<PageId>)
    requires WF(p) && Accounted(p, pending)
    ensures Refines(p, FlushAll(p), pending, Flat(p))
  {
    FlushAllKeeps(p);
  }

  lemma StoreRefines(p: Pool, pending: set<PageId>, id: PageId, b: Block)
    requires WF(p) && Accounted(p, pending) && Allowed(p, pending, StoreOp(id, b))
    ensures Refines(p, Store(p, id, b), pending + {id}, Flat(p)[id := b])
  {
    StoreKeeps(p, id, b);
  }

  lemma StepRefines(p: Pool, pending: set<PageId>, op: Op)
    requires WF(p) && Accounted(p, pending) && Allowed(p, pending, op)
    ensures Refines(p, Step(p, op), NextPending(pending, op), FlatStep(Flat(p), op, AllPinned(p)))
  {
    match op
    case FetchOp(id) => FetchRefines(p, pending, id);
    case NewOp => NewRefines(p, pending);
    case StoreOp(id, b) => StoreRefines(p, pending, id, b);
    case UnpinOp(id, d) => UnpinRefines(p, pending, id, d);
    case FlushOp(id) => FlushRefines(p, pending, id);
    case FlushAllOp => FlushAllRefines(p, pending);
  }

  /** Every run of a disciplined client, with the flat store run beside it: each step is
      allowed, and each successful fetch hands out the last bytes written. */
  ghost predicate Disciplined(p: Pool, pending: set<PageId>, ops: seq<Op>)
    requires WF(p)
    decreases |ops|
  {
    ops != [] ==>
      && Allowed(p, pending, ops[0])
      && (WF(Step(p, ops[0])) ==> Disciplined(Step(p, ops[0]), NextPending(pending, ops[0]), ops[1..]))
  }

  ghost predicate ReadsLastWrite(p: Pool, s: seq<Block>, ops: seq<Op>)
    decreases |ops|
  {
    ops != [] ==>
      && Consistent(p)
      && (ops[0].StoreOp? ==> ops[0].id in p.frames)
      && (ops[0].FetchOp? && Fetch(p, ops[0].id).0 == Done ==>
            && ops[0].id < |s| && ops[0].id in Fetch(p, ops[0].id).1.frames
            && Fetch(p, ops[0].id).1.frames[ops[0].id].block == s[ops[0].id])
      && ReadsLastWrite(Step(p, ops[0]), FlatStep(s, ops[0], AllPinned(p)), ops[1..])
  }

  lemma {:induction false} RunRefines(p: Pool, pending: set<PageId>, ops: seq<Op>)
    requires WF(p) && Accounted(p, pending) && Disciplined(p, pending, ops)
    ensures ReadsLastWrite(p, Flat(p), ops)
    decreases |ops|
  {
    if ops != [] {
      var op := ops[0];
      StepRefines(p, pending, op);
      if op.FetchOp? {
        FetchKeeps(p, op.id);
      }
      RunRefines(Step(p, op), NextPending(pending, op), ops[1..]);
    }
  }

  // ----- whole runs: the LRU stack property -----

  /** A use of the pool that unpins at once. */
  datatype Access = Get(id: PageId, isDirty: bool) | Make

  ghost function AccessId(p: Pool, a: Access): PageId {
    match a
    case Get(id, _) => id
    case Make => |p.disk|
  }

  ghost function AccessStep(p: Pool, a: Access): Pool
    requires Consistent(p)
  {
    match a
    case Get(id, d) => Unpin(Fetch(p, id).1, id, d)
    case Make => Unpin(NewPage(p).1, |p.disk|, true)
  }

  /** The distinct pages of a trace, most recently used first. */
  ghost function Recent(ids: seq<PageId>): seq<PageId> {
    if ids == [] then []
    else
      var id := ids[|ids| - 1];
      [id] + Without(Recent(ids[..|ids| - 1]), id)
  }

  ghost function Take(s: seq<PageId>, n: nat): seq<PageId> {
    if |s| <= n then s else s[..n]
  }

  ghost predicate Holds(p: Pool, ids: seq<PageId>) {
    WF(p) && Idle(p) && p.cap > 0 && p.order == Take(Recent(ids), p.cap)
  }

  lemma {:induction false} RecentNoDup(ids: seq<PageId>)
    ensures NoDup(Recent(ids))
    ensures forall x :: x in Recent(ids) <==> x in ids
  {
    if ids != [] {
      var id, front := ids[|ids| - 1], ids[..|ids| - 1];
      RecentNoDup(front);
      assert ids == front + [id];
      if id in front {
        MoveToFront(Recent(front), id);
      } else {
        WithoutAbsent(Recent(front), id);
      }
    }
  }

  lemma TakeCons(a: PageId, s: seq<PageId>, n: nat)
    requires n > 0
    ensures Take([a] + s, n) == [a] + Take(s, n - 1)
  {
  }

  lemma WithoutCons(a: PageId, s: seq<PageId>, x: PageId)
    ensures Without([a] + s, x) == if a == x then s else [a] + Without(s, x)
  {
    assert ([a] + s)[1..] == s;
  }

  lemma TakeNone(s: seq<PageId>)
    ensures Take(s, 0) == []
  {
  }

  lemma WithoutNone(x: PageId, n: nat)
    ensures Without([], x) == [] == Take([], n)
  {
  }

  /** Taking x out of a list takes it out of the list's first n. */
  lemma {:induction false} TakeWithout(r: seq<PageId>, x: PageId, n: nat)
    requires n > 0
    ensures Take(Without(r, x), n - 1) == if x in Take(r, n) then Without(Take(r, n), x) else Take(r, n - 1)
  {
    hide Take, Without;
    if r == [] {
      WithoutNone(x, n);
      WithoutNone(x, n - 1);
    } else {
      var a, s := r[0], r[1..];
      assert r == [a] + s;
      TakeCons(a, s, n);
      WithoutCons(a, s, x);
      WithoutCons(a, Take(s, n - 1), x);
      if a != x && n == 1 {
        TakeNone(s);
        TakeNone(r);
        TakeNone(Without(r, x));
      } else if a != x {
        TakeWithout(s, x, n - 1);
        TakeCons(a, s, n - 1);
        TakeCons(a, Without(s, x), n - 1);
      }
    }
  }

  /** In an idle pool the victim is the last page of the order. */
  lemma IdleVictim(p: Pool)
    requires WF(p) && Idle(p) && p.cap > 0
    ensures var (st, q) := MakeRoom(p);
      st == Done && q.order == Take(p.order, p.cap - 1) && q.frames.Keys <= p.frames.Keys
  {
    CardinalityIsOrder(p);
  }

  ghost predicate OnlyPinned(q: Pool, id: PageId) {
    id in q.frames && q.frames[id].pins == 1 && forall x :: x in q.frames && x != id ==> q.frames[x].pins == 0
  }

  ghost function UsedOrder(p: Pool, id: PageId): seq<PageId>
    requires p.cap > 0
  {
    [id] + if id in p.order then Without(p.order, id) else Take(p.order, p.cap - 1)
  }

  lemma UnpinLast(q: Pool, id: PageId, d: bool)
    requires WF(q) && OnlyPinned(q, id) && MayUnpin(q, id, d)
    ensures var r := Unpin(q, id, d); WF(r) && Idle(r) && r.cap == q.cap && r.order == q.order
  {
    UnpinKeeps(q, id, d);
  }

  lemma GetOrder(p: Pool, id: PageId)
    requires WF(p) && Idle(p) && p.cap > 0 && id < |p.disk|
    ensures var (st, q) := Fetch(p, id);
      st == Done && OnlyPinned(q, id) && q.order == UsedOrder(p, id)
  {
    FetchKeeps(p, id);
    if id !in p.frames {
      IdleVictim(p);
    }
  }

  lemma MakeOrder(p: Pool)
    requires WF(p) && Idle(p) && p.cap > 0
    ensures var (st, q) := NewPage(p);
      st == Done && OnlyPinned(q, |p.disk|) && q.order == UsedOrder(p, |p.disk|)
  {
    NewPageKeeps(p);
    IdleVictim(p);
  }

  lemma GetMayUnpin(p: Pool, id: PageId, d: bool)
    requires WF(p) && Idle(p)
    ensures WF(Fetch(p, id).1) && MayUnpin(Fetch(p, id).1, id, d)
  {
    FetchKeeps(p, id);
    FetchDisk(p, id);
  }

  /** An access in an idle pool never fails: one eviction always finds an unpinned page. */
  lemma AccessOrder(p: Pool, a: Access)
    requires WF(p) && Idle(p) && p.cap > 0
    requires a.Get? ==> a.id < |p.disk|
    ensures var q := AccessStep(p, a);
      WF(q) && Idle(q) && q.cap == p.cap && q.order == UsedOrder(p, AccessId(p, a))
  {
    match a
    case Get(id, d) =>
      GetOrder(p, id);
      FetchKeeps(p, id);
      GetMayUnpin(p, id, d);
      UnpinLast(Fetch(p, id).1, id, d);
    case Make =>
      NewPageKeeps(p);
      MakeOrder(p);
      UnpinLast(NewPage(p).1, |p.disk|, true);
  }

  lemma UsedIsRecent(p: Pool, ids: seq<PageId>, id: PageId)
    requires p.cap > 0 && p.order == Take(Recent(ids), p.cap)
    ensures UsedOrder(p, id) == Take(Recent(ids + [id]), p.cap)
  {
    var r := Recent(ids);
    TakeWithout(r, id, p.cap);
    assert (ids + [id])[..|ids|] == ids;
    assert Take([id] + Without(r, id), p.cap) == [id] + Take(Without(r, id), p.cap - 1);
    assert Take(Take(r, p.cap), p.cap - 1) == Take(r, p.cap - 1);
  }

  /** A run of accesses, each to a page that exists by then, on a file of n pages at first. */
  ghost predicate InFile(n: nat, trace: seq<Access>) {
    trace == [] ||
    (var front, a := trace[..|trace| - 1], trace[|trace| - 1];
     InFile(n, front) && (a.Get? ==> a.id < n + Makes(front)))
  }

  ghost function Makes(trace: seq<Access>): nat {
    if trace == [] then 0
    else Makes(trace[..|trace| - 1]) + if trace[|trace| - 1].Make? then 1 else 0
  }

  /** The pages a trace uses, in order. */
  ghost function Uses(n: nat, trace: seq<Access>): seq<PageId> {
    if trace == [] then []
    else
      var front, a := trace[..|trace| - 1], trace[|trace| - 1];
      Uses(n, front) + [if a.Make? then n + Makes(front) else a.id]
  }

  ghost function Run(p: Pool, trace: seq<Access>): Pool {
    if trace == [] then p
    else
      var q := Run(p, trace[..|trace| - 1]);
      if Consistent(q) then AccessStep(q, trace[|trace| - 1]) else q
  }

  /** A pool that has just been opened on a file. */
  ghost function Fresh(cap: nat, disk: seq<Block>): Pool {
    Pool(cap, [], map[], disk)
  }

  lemma FreshHolds(cap: nat, disk: seq<Block>)
    ensures WF(Fresh(cap, disk)) && Idle(Fresh(cap, disk)) && Take(Recent([]), cap) == []
  {
  }

  /** After any run a pool of size cap holds exactly the cap most recently used distinct pages,
      in that order. */
  lemma {:induction false} HoldsMostRecent(cap: nat, disk: seq<Block>, trace: seq<Access>)
    requires cap > 0 && InFile(|disk|, trace)
    ensures var q := Run(Fresh(cap, disk), trace);
      && WF(q) && Idle(q) && q.cap == cap && |q.disk| == |disk| + Makes(trace)
      && q.order == Take(Recent(Uses(|disk|, trace)), cap)
  {
    hide AccessStep, Recent, Take, UsedOrder;
    if trace == [] {
      FreshHolds(cap, disk);
    } else {
      var front, a := trace[..|trace| - 1], trace[|trace| - 1];
      HoldsMostRecent(cap, disk, front);
      var p := Run(Fresh(cap, disk), front);
      AccessOrder(p, a);
      AccessGrows(p, a);
      UsedIsRecent(p, Uses(|disk|, front), AccessId(p, a));
    }
  }

  lemma AccessGrows(p: Pool, a: Access)
    requires WF(p) && Idle(p) && p.cap > 0
    ensures |AccessStep(p, a).disk| == |p.disk| + if a.Make? then 1 else 0
  {
    MakeRoomDisk(p);
    IdleVictim(p);
  }

  /** The stack property: on one trace, a smaller pool's contents are a prefix of a larger pool's,
      so every hit in the smaller pool is a hit in the larger. */
  lemma StackInclusion(small: nat, large: nat, disk: seq<Block>, trace: seq<Access>)
    requires 0 < small <= large && InFile(|disk|, trace)
    ensures var p, q := Run(Fresh(small, disk), trace), Run(Fresh(large, disk), trace);
      && p.order <= q.order
      && |p.order| == (if |q.order| < small then |q.order| else small)
      && forall id :: id in p.frames ==> id in q.frames
  {
    hide Run, Recent;
    HoldsMostRecent(small, disk, trace);
    HoldsMostRecent(large, disk, trace);
    var p, q := Run(Fresh(small, disk), trace), Run(Fresh(large, disk), trace);
    assert forall id :: id in p.order ==> id in q.order;
  }

  /** Index of the last use of x. */
  ghost function LastUse(ids: seq<PageId>, x: PageId): (i: nat)
    requires x in ids
    ensures i < |ids| && ids[i] == x && x !in ids[i + 1..]
  {
    if ids[|ids| - 1] == x then |ids| - 1 else LastUse(ids[..|ids| - 1], x)
  }

  lemma {:induction false} WithoutSplit(s: seq<PageId>, x: PageId) returns (k: nat)
    ensures k <= |Without(s, x)| <= |s|
    ensures forall i :: 0 <= i < |Without(s, x)| ==> Without(s, x)[i] == s[if i < k then i else i + |s| - |Without(s, x)|]
  {
    hide Without;
    if s == [] {
      WithoutNone(x, 0);
      k := 0;
    } else {
      var a, t := s[0], s[1..];
      assert s == [a] + t;
      WithoutCons(a, t, x);
      if a == x {
        k := 0;
      } else {
        k := WithoutSplit(t, x);
        var v, w := Without(t, x), Without(s, x);
        assert forall i :: 0 <= i < |w| ==> w[i] == if i == 0 then a else v[i - 1];
        k := k + 1;
      }
    }
  }

  lemma FirstOnce(s: seq<PageId>)
    requires NoDup(s) && s != []
    ensures s[0] !in s[1..]
  {
  }

  /** Where the items of Recent(ids) after the first come from. */
  lemma RecentRest(ids: seq<PageId>) returns (from: seq<nat>)
    requires ids != []
    ensures |from| == |Recent(ids)| - 1 && Recent(ids)[0] == ids[|ids| - 1]
    ensures forall i :: 0 <= i < |from| ==>
      from[i] < |Recent(ids[..|ids| - 1])| && Recent(ids)[i + 1] == Recent(ids[..|ids| - 1])[from[i]] != ids[|ids| - 1]
    ensures forall i, j :: 0 <= i < j < |from| ==> from[i] < from[j]
  {
    hide Without, NoDup;
    var r, id := Recent(ids[..|ids| - 1]), ids[|ids| - 1];
    var w := Without(r, id);
    assert Recent(ids) == [id] + w;
    assert id !in w by {
      RecentNoDup(ids);
      FirstOnce(Recent(ids));
      assert Recent(ids)[1..] == w;
    }
    var k := WithoutSplit(r, id);
    from := seq(|w|, i => if i < k then i else i + |r| - |w|);
    forall i | 0 <= i < |from|
      ensures from[i] < |r| && Recent(ids)[i + 1] == r[from[i]] != id
    {
      assert Recent(ids)[i + 1] == w[i] && w[i] in w;
    }
  }

  /** `Recent` is what its name says: the distinct pages of a trace by decreasing last use. */
  lemma {:induction false} RecentByLastUse(ids: seq<PageId>, i: nat, j: nat)
    requires i < j < |Recent(ids)|
    ensures Recent(ids)[i] in ids && Recent(ids)[j] in ids
    ensures LastUse(ids, Recent(ids)[i]) > LastUse(ids, Recent(ids)[j])
  {
    hide Without, NoDup;
    RecentNoDup(ids);
    RecentNoDup(ids[..|ids| - 1]);
    var from := RecentRest(ids);
    if i > 0 {
      RecentByLastUse(ids[..|ids| - 1], from[i - 1], from[j - 1]);
    }
  }
}
