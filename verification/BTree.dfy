/** BTree: the B+ tree of src/btree.cpp on the buffer pool, proved to do what BTreeModel says.
    It never meets "all pages pinned", whatever the size of the pool. */
module BTree {
  import opened BTreeModel
  import opened BTreeNode
  import opened BTreeQueries
  import opened BTreeTexts
  import opened BufferPool
  import opened EntryLists
  import opened KeyOrder
  import opened NodeCodec
  import opened Nodes
  import opened Options
  import opened Pages
  import opened PoolModel

  // ----- one access to an idle pool -----

  ghost predicate Quiet(p: Pool) {
    WF(p) && Idle(p) && p.cap > 0
  }

  lemma FlatAt(p: Pool, id: PageId)
    requires id < |p.disk|
    ensures Flat(p)[id] == if id in p.frames then p.frames[id].block else p.disk[id]
  {
  }

  lemma FetchQuiet(p: Pool, id: PageId)
    requires Quiet(p) && id < |p.disk|
    ensures var (st, q) := Fetch(p, id);
      && st == Done && WF(q) && OnlyPinned(q, id) && Flat(q) == Flat(p) && q.cap == p.cap
      && q.frames[id].block == Flat(p)[id] && MayUnpin(q, id, false)
  {
    hide Fetch, Flat, MayUnpin, Consistent, Clean, Idle;
    GetOrder(p, id);
    FetchKeeps(p, id);
    GetMayUnpin(p, id, false);
    FlatAt(p, id);
  }

  lemma LoadQuiet(p: Pool, id: PageId)
    requires Quiet(p) && id < |p.disk|
    ensures var (st, q) := Fetch(p, id);
      && st == Done && id in q.frames && q.frames[id].block == Flat(p)[id]
      && WF(q) && MayUnpin(q, id, false)
      && var r := Unpin(q, id, false); Quiet(r) && Flat(r) == Flat(p) && r.cap == p.cap
  {
    hide Fetch, Unpin, Flat, MayUnpin, Consistent, Clean, Idle;
    FetchQuiet(p, id);
    var q := Fetch(p, id).1;
    UnpinLast(q, id, false);
    UnpinKeeps(q, id, false);
  }

  lemma SaveQuiet(p: Pool, id: PageId, b: Block)
    requires Quiet(p) && id < |p.disk|
    ensures var (st, q) := Fetch(p, id);
      && st == Done && id in q.frames && q.frames[id].block == Flat(p)[id]
      && var s := Store(q, id, b);
      WF(s) && MayUnpin(s, id, true)
      && var r := Unpin(s, id, true); Quiet(r) && Flat(r) == Flat(p)[id := b] && r.cap == p.cap
  {
    hide Fetch, Unpin, Flat, Consistent, Clean, Idle;
    FetchQuiet(p, id);
    var q := Fetch(p, id).1;
    StoreKeeps(q, id, b);
    var s := Store(q, id, b);
    Dirtied(s, id);
    UnpinLast(s, id, true);
    UnpinKeeps(s, id, true);
  }

  lemma Dirtied(p: Pool, id: PageId)
    requires WF(p)
    ensures MayUnpin(p, id, true)
  {
  }

  lemma AllocQuiet(p: Pool)
    requires Quiet(p)
    ensures var (st, q) := PoolModel.NewPage(p);
      var id := |p.disk|;
      && st == Done && WF(q) && MayUnpin(q, id, true)
      && var r := Unpin(q, id, true); Quiet(r) && Flat(r) == Flat(p) + [EmptyBlock(id)] && r.cap == p.cap
  {
    hide PoolModel.NewPage, Unpin, Flat, MayUnpin, Consistent, Clean, Idle;
    MakeOrder(p);
    NewPageKeeps(p);
    var q := PoolModel.NewPage(p).1;
    Dirtied(q, |p.disk|);
    UnpinLast(q, |p.disk|, true);
    UnpinKeeps(q, |p.disk|, true);
  }

  // ----- nodes on pages -----

  ghost predicate Ended(b: Block) {
    b.body[BODY_SIZE - 1] == '\0'
  }

  /** Page id of the flat store holds the text of node n, and can be overwritten. */
  ghost predicate Holds(flat: seq<Block>, id: PageId, n: Node) {
    id < |flat| && Ended(flat[id]) && Decode(CString(flat[id].body)) == Some(n)
  }

  ghost predicate AllHeld(flat: seq<Block>, nodes: map<PageId, Node>) {
    forall id :: id in nodes ==> Holds(flat, id, nodes[id])
  }

  lemma SaveHeld(flat: seq<Block>, nodes: map<PageId, Node>, id: PageId, n: Node, b: Block)
    requires AllHeld(flat, nodes) && id < |flat| && Ended(flat[id]) && FitsPage(n)
    requires b.body == Overlay(flat[id].body, Encode(n))
    ensures AllHeld(flat[id := b], nodes[id := n]) && Ended(b)
  {
    hide Encode, Decode, CString, Overlay;
    SaveThenLoad(n, flat[id].body);
  }

  lemma AllocHeld(flat: seq<Block>, nodes: map<PageId, Node>, b: Block)
    requires AllHeld(flat, nodes)
    ensures AllHeld(flat + [b], nodes)
  {
    hide Decode, CString;
  }

  lemma NothingHeld(flat: seq<Block>)
    ensures AllHeld(flat, map[])
  {
  }

  lemma EmptyRoot(id: PageId, free: PageId)
    requires id < free
    ensures FitsPage(LeafNode([], INVALID_PAGE_ID)) && Ended(EmptyBlock(id))
    ensures Good(Leaf(id, []), 0, free)
    ensures Stored(map[id := LeafNode([], INVALID_PAGE_ID)], Leaf(id, []), INVALID_PAGE_ID)
  {
    hide PairText, KeyText, FitsPage;
    EncodeFits(LeafNode([], INVALID_PAGE_ID));
  }

  lemma StillEnded(flat: seq<Block>, nodes: map<PageId, Node>, id: PageId, b: Block)
    requires AllHeld(flat, nodes) && id in nodes
    ensures id < |flat| && Ended(flat[id]) && (b == EmptyBlock(|flat|) ==> Ended(b))
  {
    hide Decode, CString;
  }

  /** What insertRec returns to its caller. */
  ghost function SplitOf(r: Result): Option<(string, PageId)> {
    if r.split.NoSplit? then None else Some((r.split.key, r.split.right.id))
  }

  lemma LeafSaved(nodes: map<PageId, Node>, t: Tree, e: Entry, free: PageId, next: PageId)
    requires t.Leaf? && |t.entries| <= ORDER && PartsFit(BTreeModel.InsertRec(t, e, free), next)
    ensures var r, n := BTreeModel.InsertRec(t, e, free), LeafNode(Inserted(t.entries, e), next);
      && (Count(n) <= ORDER ==>
            FitsPage(n) && Saved(nodes, r, next) == nodes[t.id := n] && r.split.NoSplit? && r.next == free)
      && (Count(n) > ORDER ==>
            && Count(n) == ORDER + 1 && HalvesFit(n, free)
            && r.next == free + 1 && SplitOf(r) == Some((Halves(n, free).1, free))
            && Saved(nodes, r, next) == nodes[t.id := Halves(n, free).0][free := Halves(n, free).2])
  {
    hide InsertPos, FitsPage, AllSized;
    TopSized(BTreeModel.InsertRec(t, e, free), next);
  }

  /** Both halves of a node that is split onto page rightId fit their pages. */
  ghost predicate HalvesFit(n: Node, rightId: PageId) {
    && Count(n) > 0 && (n.InnerNode? ==> |n.children| == |n.keys| + 1)
    && FitsPage(Halves(n, rightId).0) && FitsPage(Halves(n, rightId).2)
  }

  /** A branch with what child i became in its place. */
  ghost function Spliced(t: Tree, i: nat, q: Result): Result
    requires t.Branch? && |t.kids| == |t.keys| + 1 && i < |t.kids|
  {
    Rebuild(t.id, t.keys[..i] + q.Seps() + t.keys[i..], t.kids[..i] + q.Parts() + t.kids[i + 1..], q.next)
  }

  /** The node of a branch once child i has split, before a split of its own. */
  ghost function GrownNode(t: Tree, i: nat, q: Result): Node
    requires t.Branch? && |t.kids| == |t.keys| + 1 && i < |t.kids| && q.split.Split?
  {
    InnerNode(t.keys[..i] + [q.split.key] + t.keys[i..],
              Ids(t.kids)[..i + 1] + [q.split.right.id] + Ids(t.kids)[i + 1..])
  }

  lemma BranchSaved(nodes: map<PageId, Node>, t: Tree, i: nat, q: Result, next: PageId)
    requires t.Branch? && |t.kids| == |t.keys| + 1 && i < |t.kids| && q.split.Split? && q.left.id == t.kids[i].id
    requires |t.keys| <= ORDER && PartsFit(Spliced(t, i, q), next)
    ensures var r, n := Spliced(t, i, q), GrownNode(t, i, q);
      && (Count(n) <= ORDER ==>
            FitsPage(n) && Saved(nodes, r, next) == nodes[t.id := n] && r.split.NoSplit? && r.next == q.next)
      && (Count(n) > ORDER ==>
            && Count(n) == ORDER + 1 && HalvesFit(n, q.next)
            && r.next == q.next + 1 && SplitOf(r) == Some((Halves(n, q.next).1, q.next))
            && Saved(nodes, r, next) == nodes[t.id := Halves(n, q.next).0][q.next := Halves(n, q.next).2])
  {
    hide FitsPage, PagesOf, Shaped, First, Ids, AllSized;
    TopSized(Spliced(t, i, q), next);
    var keys', kids' := t.keys[..i] + q.Seps() + t.keys[i..], t.kids[..i] + q.Parts() + t.kids[i + 1..];
    SplicedIds(t, i, q);
    IdsSlice(kids', |keys'| / 2 + 1);
  }

  lemma SplicedIds(t: Tree, i: nat, q: Result)
    requires t.Branch? && |t.kids| == |t.keys| + 1 && i < |t.kids| && q.split.Split? && q.left.id == t.kids[i].id
    ensures Ids(t.kids[..i] + q.Parts() + t.kids[i + 1..]) == GrownNode(t, i, q).children
  {
  }

  lemma IdsSlice(kids: seq<Tree>, m: nat)
    requires m <= |kids|
    ensures |Ids(kids)| == |kids| && Ids(kids[..m]) == Ids(kids)[..m] && Ids(kids[m..]) == Ids(kids)[m..]
  {
  }

  /** What a stored subtree gives the code before it looks at the node. */
  lemma Unstore(nodes: map<PageId, Node>, t: Tree, h: nat, root: bool, free: PageId, next: PageId)
    requires Fit(t, h, root, free) && Stored(nodes, t, next)
    ensures t.id in nodes && nodes[t.id] == NodeOf(t, next) && t.id < free
    ensures t.Leaf? ==> |t.entries| <= ORDER
    ensures t.Branch? ==> |t.kids| == |t.keys| + 1 <= ORDER + 1
  {
    RootInPages(t);
  }

  lemma LeafDone(nodes: map<PageId, Node>, t: Tree, e: Entry, free: PageId, next: PageId)
    requires t.Leaf? && t.id < free && Below(nodes.Keys, free)
    ensures var r := BTreeModel.InsertRec(t, e, free);
      && AllShaped(r.Parts()) && AllStored(Saved(nodes, r, next), r.Parts(), next)
      && Kept(nodes, Saved(nodes, r, next), PageSet(t))
  {
    hide Inserted;
    LeafStored(nodes, t, e, free, next);
  }

  /** The chosen child is ready to be inserted into. */
  lemma Descend(nodes: map<PageId, Node>, t: Tree, e: Entry, h: nat, root: bool, free: PageId, next: PageId)
    requires t.Branch? && Fit(t, h, root, free) && Stored(nodes, t, next)
    requires PartsFit(BTreeModel.InsertRec(t, e, free), next)
    ensures var i := ChildIndex(t.keys, e.key);
      && i < |t.kids| && h > 0 && Fit(t.kids[i], h - 1, false, free) && Shaped(t.kids[i]) && t.kids[i] < t
      && AllShaped(t.kids[i + 1..])
      && Stored(nodes, t.kids[i], FirstOf(t.kids[i + 1..], next))
      && PartsFit(BTreeModel.InsertRec(t.kids[i], e, free), FirstOf(t.kids[i + 1..], next))
  {
    hide InsertPos, PartsFit;
    var i := ChildIndex(t.keys, e.key);
    FitChild(t, h, root, free, i);
    StoredAround(nodes, t.kids, i, next);
    ChildFits(t, e, h, root, free, next);
  }

  /** The child is done (store nodes'): what is left for the branch. */
  lemma BranchDone(nodes: map<PageId, Node>, nodes': map<PageId, Node>,
                   t: Tree, e: Entry, h: nat, root: bool, free: PageId, next: PageId)
    requires t.Branch? && Fit(t, h, root, free) && Stored(nodes, t, next) && Below(nodes.Keys, free)
    requires var i := ChildIndex(t.keys, e.key);
      var q := BTreeModel.InsertRec(t.kids[i], e, free);
      && AllShaped(q.Parts()) && AllShaped(t.kids[i + 1..])
      && AllStored(nodes', q.Parts(), FirstOf(t.kids[i + 1..], next))
      && Kept(nodes, nodes', PageSet(t.kids[i]))
    ensures var i := ChildIndex(t.keys, e.key);
      var q, r := BTreeModel.InsertRec(t.kids[i], e, free), BTreeModel.InsertRec(t, e, free);
      && |t.kids| == |t.keys| + 1 && r == Spliced(t, i, q) && AllShaped(r.Parts())
      && t.id in nodes' && nodes'[t.id] == NodeOf(t, next)
      && q.left.id == t.kids[i].id
      && (q.split.NoSplit? ==>
            SplitOf(r) == None && r.next == q.next && AllStored(nodes', r.Parts(), next)
            && Kept(nodes, nodes', PageSet(t)))
      && (q.split.Split? ==>
            && AllStored(Saved(nodes', r, next), r.Parts(), next)
            && Kept(nodes, Saved(nodes', r, next), PageSet(t)))
  {
    hide BTreeModel.InsertRec, Rebuild, Stored, AllStored, Shaped, Balanced, First, PagesOf, PageSet, AllApart, Apart,
      Saved;
    var i := ChildIndex(t.keys, e.key);
    ShapedKid(t, i);
    BranchIs(t, e, free);
    BranchStored(nodes, nodes', t, e, h, root, free, next);
    ChildResult(t, e, h, root, free);
    KeptAbove(nodes, nodes', t, i, BTreeModel.InsertRec(t.kids[i], e, free), free, next);
  }

  lemma ChildResult(t: Tree, e: Entry, h: nat, root: bool, free: PageId)
    requires t.Branch? && Fit(t, h, root, free)
    ensures var i := ChildIndex(t.keys, e.key);
      var q := BTreeModel.InsertRec(t.kids[i], e, free);
      q.left.id == t.kids[i].id && free <= q.next && PageSet(t.kids[i]) <= PagesOf(t.kids)
  {
    hide BTreeModel.InsertRec, Stored, AllStored, Balanced, First, PagesOf, AllApart;
    var i := ChildIndex(t.keys, e.key);
    FitChild(t, h, root, free, i);
    InsertPages(t.kids[i], e, free, h - 1, false);
  }

  lemma KeptAbove(nodes: map<PageId, Node>, nodes': map<PageId, Node>, t: Tree, i: nat, q: Result, free: PageId, next: PageId)
    requires t.Branch? && |t.kids| == |t.keys| + 1 && i < |t.kids| && free <= q.next
    requires Below(nodes.Keys, free) && PageSet(t.kids[i]) <= PagesOf(t.kids)
    requires Kept(nodes, nodes', PageSet(t.kids[i])) && AllShaped(Spliced(t, i, q).Parts())
    ensures Kept(nodes, nodes', PageSet(t))
    ensures Kept(nodes, Saved(nodes', Spliced(t, i, q), next), PageSet(t))
  {
    hide PagesOf, Shaped, First;
    assert PagesOf(t.kids) <= PageSet(t);
  }

  lemma WillFit(t: Tree, e: Entry, h: nat, free: PageId)
    requires Good(t, h, free) && IndexFits(BTreeModel.Insert(t, e, free).0, BTreeModel.Insert(t, e, free).1)
    ensures var r := BTreeModel.InsertRec(t, e, free);
      && Shaped(t) && Fit(t, h, true, free) && PartsFit(r, INVALID_PAGE_ID)
      && (r.split.Split? ==> r.next < INVALID_PAGE_ID && FitsPage(RootNode(r)))
  {
    hide Balanced, Apart, PageSet, Sized, AllSized, Ordered, BTreeModel.InsertRec, BTreeModel.Insert, FitsPage;
    InsertShaped(t, e, free, h, true);
    RootFits(t, e, free);
  }

  /** The node above a split root. */
  ghost function RootNode(r: Result): Node
    requires r.split.Split?
  {
    InnerNode([r.split.key], [r.left.id, r.split.right.id])
  }

  /** The tree that insert leaves behind is stored, with its new root if the old one split. */
  lemma AfterInsert(nodes: map<PageId, Node>, t: Tree, e: Entry, h: nat, free: PageId)
    requires Good(t, h, free)
    requires var r := BTreeModel.InsertRec(t, e, free);
      AllShaped(r.Parts()) && AllStored(nodes, r.Parts(), INVALID_PAGE_ID)
    ensures var r, t' := BTreeModel.InsertRec(t, e, free), BTreeModel.Insert(t, e, free).0;
      && Shaped(t') && r.left.id == t.id && t.id in nodes
      && (r.split.NoSplit? ==> t'.id == t.id && Stored(nodes, t', INVALID_PAGE_ID))
      && (r.split.Split? ==> t'.id == r.next && Stored(nodes[r.next := RootNode(r)], t', INVALID_PAGE_ID))
  {
    hide BTreeModel.InsertRec, Stored, AllStored, PagesOf, PageSet, Apart, AllApart, First, Shaped, Balanced, Ordered;
    var r := BTreeModel.InsertRec(t, e, free);
    InsertPages(t, e, free, h, true);
    PartsPages(r);
    HeadStored(nodes, r.Parts(), INVALID_PAGE_ID);
    if r.split.Split? {
      NewRootStored(nodes, r, INVALID_PAGE_ID);
    } else {
      assert r.Parts()[1..] == [];
    }
  }

  lemma HeadStored(nodes: map<PageId, Node>, ts: seq<Tree>, next: PageId)
    requires ts != [] && AllShaped(ts) && AllStored(nodes, ts, next)
    ensures AllShaped(ts[1..]) && Stored(nodes, ts[0], FirstOf(ts[1..], next)) && ts[0].id in nodes
  {
  }

  lemma NewRootStored(nodes: map<PageId, Node>, r: Result, next: PageId)
    requires r.split.Split? && AllShaped(r.Parts()) && AllStored(nodes, r.Parts(), next)
    requires Below(PagesOf(r.Parts()), r.next)
    ensures var t := Branch(r.next, [r.split.key], [r.left, r.split.right]);
      Shaped(t) && Stored(nodes[r.next := RootNode(r)], t, next)
  {
    hide First;
    var t := Branch(r.next, [r.split.key], [r.left, r.split.right]);
    assert t.kids == r.Parts();
    AllStoredElsewhere(nodes, nodes[r.next := RootNode(r)], t.kids, next);
    IdsBelow(t.kids, r.next);
    assert t.kids[0].id < r.next && t.kids[1].id < r.next;
    assert Shaped(t.kids[0]) && Shaped(t.kids[1]);
    assert Ids(t.kids) == [r.left.id, r.split.right.id];
  }

  /** One level of findLeaf. */
  lemma StepDown(nodes: map<PageId, Node>, t: Tree, k: string, next: PageId, h: nat, root: bool)
    requires Shaped(t) && Stored(nodes, t, next) && Balanced(t, h, root)
    ensures t.id in nodes && nodes[t.id] == NodeOf(t, next)
    ensures t.Leaf? ==> h == 0 && LeavesFrom(t, k)[0] == t
    ensures t.Branch? ==>
      var i := ChildIndex(t.keys, k);
      && h > 0 && i < |t.kids| && AllShaped(t.kids[i + 1..]) && Shaped(t.kids[i]) && t.kids[i] < t
      && Stored(nodes, t.kids[i], FirstOf(t.kids[i + 1..], next))
      && Balanced(t.kids[i], h - 1, false)
      && LeavesFrom(t, k)[0] == LeavesFrom(t.kids[i], k)[0]
  {
    if t.Branch? {
      assert AllBalanced(t.kids, h - 1);
      StoredAround(nodes, t.kids, ChildIndex(t.keys, k), next);
    }
  }

  lemma LeafFirst(ls: seq<Tree>)
    requires ls != [] && ls[0].Leaf?
    ensures EntriesOf(ls) == ls[0].entries + EntriesOf(ls[1..])
  {
  }

  lemma ScanStep(es: seq<Entry>, i: nat, rest: seq<Entry>, from: string, to: string)
    requires i < |es|
    ensures Scan(es[i..] + rest, from, to) ==
      if Less(to, es[i].key) then []
      else (if Less(es[i].key, from) then [] else [es[i]]) + Scan(es[i + 1..] + rest, from, to)
  {
    assert (es[i..] + rest)[1..] == es[i + 1..] + rest;
  }

  lemma NothingLeft(ls: seq<Tree>, from: string, to: string)
    requires ls == []
    ensures Scan(EntriesOf(ls), from, to) == []
  {
  }

  class BTree {

    const pool: BufferPool
    var rootId: PageId

    ghost var tree: Tree
    ghost var height: nat
    ghost var nodes: map<PageId, Node> // the nodes on the pages

    /** Between operations no page is pinned, and every node is on its page. */
    ghost predicate Ready()
      reads this, pool, pool.Repr
    {
      && pool.Valid() && pool in pool.Repr && this !in pool.Repr
      && Quiet(pool.view) && AllHeld(Flat(pool.view), nodes) && Free() <= INVALID_PAGE_ID
    }

    /** The number of pages in the file: the next page id. */
    ghost function Free(): PageId
      reads pool
    {
      |pool.view.disk|
    }

    ghost predicate Valid()
      reads this, pool, pool.Repr
    {
      && Ready()
      && rootId == tree.id
      && Good(tree, height, Free())
      && Stored(nodes, tree, INVALID_PAGE_ID)
    }

    /** The pairs in the index, in key order. */
    ghost function Contents(): seq<Entry>
      reads this
    {
      Entries(tree)
    }

    /** An empty root leaf on a page of its own. */
    constructor (pool: BufferPool)
      requires pool.Valid() && pool in pool.Repr && Quiet(pool.view) && |pool.view.disk| < INVALID_PAGE_ID
      modifies pool.Repr
      ensures Valid() && this.pool == pool && fresh(pool.Repr - old(pool.Repr))
      ensures Index(tree, Free(), height) == Index(Leaf(|old(pool.view).disk|, []), |old(pool.view).disk| + 1, 0)
      ensures Contents() == []
    {
      hide Quiet, BufferPool.Valid, Good, Stored, Flat, FitsPage, AllHeld, Ended;
      this.pool := pool;
      rootId, tree, height, nodes := 0, Leaf(0, []), 0, map[];
      new;
      NothingHeld(Flat(pool.view));
      var id := AllocNode();
      var root := new BTreeNode();
      EmptyRoot(id, Free());
      SaveNode(id, root);
      rootId, tree := id, Leaf(id, []);
    }

    method LoadNode(id: PageId) returns (node: BTreeNode)
      requires Ready() && id in nodes
      modifies pool.Repr
      ensures Ready() && fresh(pool.Repr - old(pool.Repr)) && Free() == old(Free())
      ensures fresh(node) && fresh(node.keys) && fresh(node.children) && fresh(node.values)
      ensures {node, node.keys, node.children, node.values} !! pool.Repr
      ensures node.Valid() && node.Abs() == nodes[id]
    {
      hide Quiet, Fetch, PoolModel.Unpin, Flat, Decode, CString, WF, BufferPool.Valid;
      LoadQuiet(pool.view, id);
      var status, page := pool.FetchPage(id);
      node := new BTreeNode();
      node.Deserialize(page.block.body);
      pool.Unpin(id, false);
    }

    lemma NodesBelow()
      requires Ready()
      ensures Below(nodes.Keys, Free())
    {
      hide Decode, CString, Quiet, BufferPool.Valid;
    }

    lemma NodeEnded(id: PageId)
      requires Ready() && id in nodes
      ensures id < Free() && Ended(Flat(pool.view)[id])
    {
      hide Decode, CString, Quiet, BufferPool.Valid;
    }

    method SaveNode(id: PageId, node: BTreeNode)
      requires Ready() && node.Valid() && FitsPage(node.Abs())
      requires {node, node.keys, node.children, node.values} !! pool.Repr + {this}
      requires id < Free() && Ended(Flat(pool.view)[id])
      modifies pool.Repr, this`nodes
      ensures Ready() && fresh(pool.Repr - old(pool.Repr)) && Free() == old(Free())
      ensures nodes == old(nodes)[id := node.Abs()]
      ensures Flat(pool.view) == old(Flat(pool.view))[id := Flat(pool.view)[id]] // no other page changes
    {
      hide Quiet, Fetch, PoolModel.Unpin, Flat, Decode, CString, WF, BufferPool.Valid, Encode, Store, Overlay,
        FitsPage, AllHeld;
      ghost var n, flat := node.Abs(), Flat(pool.view);
      ghost var written := flat[id].(body := Overlay(flat[id].body, Encode(n)));
      SaveQuiet(pool.view, id, written);
      SaveHeld(flat, nodes, id, n, written);
      var status, page := pool.FetchPage(id);
      var text := node.Serialize();
      pool.Write(page, page.block.(body := Overlay(page.block.body, text)));
      pool.Unpin(id, true);
      assert Flat(pool.view) == flat[id := written];
      nodes := nodes[id := n];
    }

    method AllocNode() returns (id: PageId)
      requires Ready() && Free() < INVALID_PAGE_ID
      modifies pool.Repr
      ensures Ready() && fresh(pool.Repr - old(pool.Repr)) && Free() == old(Free()) + 1
      ensures id == old(Free()) && Flat(pool.view) == old(Flat(pool.view)) + [EmptyBlock(id)]
    {
      hide Quiet, PoolModel.NewPage, PoolModel.Unpin, Flat, Decode, CString, WF, BufferPool.Valid;
      AllocQuiet(pool.view);
      AllocHeld(Flat(pool.view), nodes, EmptyBlock(Free()));
      var status, page := pool.NewPage();
      id := page.block.header.pageId;
      pool.Unpin(id, true);
    }

    /** Splits a node that has ORDER + 1 keys: the lower half stays on its page, the upper half goes
        to a new one. */
    method SplitNode(id: PageId, node: BTreeNode) returns (key: string, rightId: PageId)
      requires Ready() && id in nodes && Free() < INVALID_PAGE_ID
      requires node.Valid() && node.keyCount == ORDER + 1 && HalvesFit(node.Abs(), Free())
      requires {node, node.keys, node.children, node.values} !! pool.Repr + {this}
      modifies pool.Repr, this`nodes, node, node.keys, node.children, node.values
      ensures Ready() && fresh(pool.Repr - old(pool.Repr)) && Free() == old(Free()) + 1
      ensures rightId == old(Free())
      ensures var (a, k, b) := Halves(old(node.Abs()), rightId);
        key == k && nodes == old(nodes)[id := a][rightId := b]
    {
      hide Quiet, Flat, FitsPage, AllHeld, Ended, BufferPool.Valid, Halves, Chained;
      ghost var n := node.Abs();
      HalvesChained(n, node.nextLeaf, Free());
      StillEnded(Flat(pool.view), nodes, id, EmptyBlock(Free()));
      var right;
      right, key := node.SplitOff();
      rightId := AllocNode();
      node.Link(rightId);
      SaveNode(id, node);
      SaveNode(rightId, right);
    }

    /** The leaf case of insertRec, on the loaded node. */
    method InsertIntoLeaf(id: PageId, node: BTreeNode, key: string, value: string, ghost t: Tree, ghost next: PageId)
      returns (split: Option<(string, PageId)>)
      requires Ready() && t.Leaf? && id == t.id && id in nodes && id < Free()
      requires node.Valid() && node.Abs() == NodeOf(t, next) && |t.entries| <= ORDER
      requires {node, node.keys, node.children, node.values} !! pool.Repr + {this}
      requires PartsFit(BTreeModel.InsertRec(t, Entry(key, value), Free()), next)
      modifies pool.Repr, this`nodes, node, node.keys, node.children, node.values
      ensures Ready() && fresh(pool.Repr - old(pool.Repr))
      ensures var r := BTreeModel.InsertRec(t, Entry(key, value), old(Free()));
        && Free() == r.next && AllShaped(r.Parts()) && nodes == Saved(old(nodes), r, next)
        && split == SplitOf(r)
    {
      hide Ready, Inserted, Halves, FitsPage, HalvesFit, Ended, Flat, AllSized;
      NodeEnded(id);
      ghost var e, free := Entry(key, value), Free();
      LeafSaved(nodes, t, e, free, next);
      node.InsertPair(key, value);
      assert node.Abs() == LeafNode(Inserted(t.entries, e), next);
      if node.keyCount <= ORDER {
        SaveNode(id, node);
        split := None;
      } else {
        var k, page := SplitNode(id, node);
        split := Some((k, page));
      }
    }

    /** The internal case of insertRec once child i has split: room for the new key and page, then
        a save, or another split. */
    method InsertIntoBranch(id: PageId, node: BTreeNode, i: nat, key: string, page: PageId,
                            ghost t: Tree, ghost q: Result, ghost next: PageId)
      returns (split: Option<(string, PageId)>)
      requires Ready() && t.Branch? && id == t.id && id in nodes && Free() == q.next
      requires node.Valid() && node.Abs() == NodeOf(t, next)
      requires |t.kids| == |t.keys| + 1 <= ORDER + 1 && i < |t.kids|
      requires q.split.Split? && q.left.id == t.kids[i].id && key == q.split.key && page == q.split.right.id
      requires {node, node.keys, node.children, node.values} !! pool.Repr + {this}
      requires PartsFit(Spliced(t, i, q), next)
      modifies pool.Repr, this`nodes, node, node.keys, node.children, node.values
      ensures Ready() && fresh(pool.Repr - old(pool.Repr))
      ensures var r := Spliced(t, i, q);
        Free() == r.next && nodes == Saved(old(nodes), r, next) && split == SplitOf(r)
    {
      hide Ready, Halves, FitsPage, HalvesFit, Ended, Flat, PagesOf, Shaped, AllSized;
      NodeEnded(id);
      BranchSaved(nodes, t, i, q, next);
      node.InsertChild(i, key, page);
      assert node.Abs() == GrownNode(t, i, q);
      if node.keyCount <= ORDER {
        SaveNode(id, node);
        split := None;
      } else {
        var k, rightId := SplitNode(id, node);
        split := Some((k, rightId));
      }
    }

    /** Inserts below page id, which holds subtree t, and reports a split as (key, new page). */
    method InsertRec(id: PageId, key: string, value: string,
                     ghost t: Tree, ghost h: nat, ghost root: bool, ghost next: PageId)
      returns (split: Option<(string, PageId)>)
      requires Ready() && id == t.id && Fit(t, h, root, Free()) && Stored(nodes, t, next)
      requires PartsFit(BTreeModel.InsertRec(t, Entry(key, value), Free()), next)
      modifies pool.Repr, this`nodes
      ensures Ready() && fresh(pool.Repr - old(pool.Repr))
      ensures var r := BTreeModel.InsertRec(t, Entry(key, value), old(Free()));
        Free() == r.next && split == SplitOf(r) && AllShaped(r.Parts()) && AllStored(nodes, r.Parts(), next)
      ensures Kept(old(nodes), nodes, PageSet(t))
      decreases t, 1
    {
      hide Quiet, AllHeld, Flat, BufferPool.Valid, Fit, Stored, AllStored, PartsFit, BTreeModel.InsertRec, Saved, Kept,
        PageSet;
      ghost var e, free, before := Entry(key, value), Free(), nodes;
      Unstore(nodes, t, h, root, free, next);
      NodesBelow();
      var node := LoadNode(id);
      if node.isLeaf {
        split := InsertIntoLeaf(id, node, key, value, t, next);
        LeafDone(before, t, e, free, next);
      } else {
        split := InsertBelow(id, node, key, value, t, h, root, next);
      }
    }

    /** The internal case: recurse into the child, and take in what it split off. */
    method InsertBelow(id: PageId, node: BTreeNode, key: string, value: string,
                       ghost t: Tree, ghost h: nat, ghost root: bool, ghost next: PageId)
      returns (split: Option<(string, PageId)>)
      requires Ready() && id == t.id && Fit(t, h, root, Free()) && Stored(nodes, t, next)
      requires node.Valid() && !node.isLeaf && node.Abs() == NodeOf(t, next)
      requires {node, node.keys, node.children, node.values} !! pool.Repr + {this}
      requires PartsFit(BTreeModel.InsertRec(t, Entry(key, value), Free()), next)
      modifies pool.Repr, this`nodes, node, node.keys, node.children, node.values
      ensures Ready() && fresh(pool.Repr - old(pool.Repr))
      ensures var r := BTreeModel.InsertRec(t, Entry(key, value), old(Free()));
        Free() == r.next && split == SplitOf(r) && AllShaped(r.Parts()) && AllStored(nodes, r.Parts(), next)
      ensures Kept(old(nodes), nodes, PageSet(t))
      decreases t, 0
    {
      hide Ready, BTreeNode.Pairs, Fit, Stored, AllStored, PartsFit, BTreeModel.InsertRec, Saved, Kept, PageSet,
        Spliced, PagesOf, Below, Shaped, FirstOf;
      ghost var e, free, before := Entry(key, value), Free(), nodes;
      Unstore(nodes, t, h, root, free, next);
      NodesBelow();
      Descend(nodes, t, e, h, root, free, next);
      var i := node.FindChild(key);
      var child := node.children[i];
      assert child == node.children[..node.keyCount + 1][i] == Ids(t.kids)[i];
      var below := InsertRec(child, key, value, t.kids[i], h - 1, false, FirstOf(t.kids[i + 1..], next));
      BranchDone(before, nodes, t, e, h, root, free, next);
      if below.Some? {
        split := InsertIntoBranch(id, node, i, below.value.0, below.value.1,
                                  t, BTreeModel.InsertRec(t.kids[i], e, free), next);
      } else {
        split := None;
      }
    }

    /** A root above the two halves of the old one. */
    method NewRoot(key: string, page: PageId, ghost r: Result)
      requires Ready() && rootId in nodes && Free() < INVALID_PAGE_ID
      requires SplitOf(r) == Some((key, page)) && rootId == r.left.id && FitsPage(RootNode(r))
      modifies this`rootId, this`nodes, pool.Repr
      ensures Ready() && fresh(pool.Repr - old(pool.Repr)) && Free() == old(Free()) + 1
      ensures rootId == old(Free()) && nodes == old(nodes)[rootId := RootNode(r)]
    {
      hide Quiet, AllHeld, Flat, BufferPool.Valid, FitsPage, Ended;
      StillEnded(Flat(pool.view), nodes, rootId, EmptyBlock(Free()));
      var newRootId := AllocNode();
      var newRoot := new BTreeNode();
      newRoot.isLeaf := false;
      newRoot.keyCount := 1;
      newRoot.keys[0] := key;
      newRoot.children[0] := rootId;
      newRoot.children[1] := page;
      assert newRoot.Abs() == RootNode(r);
      SaveNode(newRootId, newRoot);
      rootId := newRootId;
    }

    /** The tree with the pair inserted fits: every node its page, and its page ids. */
    ghost predicate Room(e: Entry)
      requires Valid()
      reads this, pool, pool.Repr
    {
      var y := Grow(Index(tree, Free(), height), e);
      IndexFits(y.tree, y.free)
    }

    /** Adds a pair, after the pairs with the same key. */
    method Insert(key: string, value: string)
      requires Valid() && Room(Entry(key, value))
      modifies this, pool.Repr
      ensures Valid() && fresh(pool.Repr - old(pool.Repr))
      ensures Index(tree, Free(), height) == Grow(old(Index(tree, Free(), height)), Entry(key, value))
      ensures Contents() == Inserted(old(Contents()), Entry(key, value))
    {
      hide Quiet, AllHeld, Flat, BufferPool.Valid, Good, Fit, Stored, AllStored, PartsFit, BTreeModel.InsertRec,
        Inserted, Entries, Ended, FitsPage, Kept, PagesOf, PageSet, Sized;
      ghost var e, t, h, free := Entry(key, value), tree, height, Free();
      InsertGood(t, e, free, h);
      WillFit(t, e, h, free);
      var split := InsertRec(rootId, key, value, t, h, true, INVALID_PAGE_ID);
      ghost var r := BTreeModel.InsertRec(t, e, free);
      AfterInsert(nodes, t, e, h, free);
      if split.Some? {
        NewRoot(split.value.0, split.value.1, r);
        height := height + 1;
      }
      tree := BTreeModel.Insert(t, e, free).0;
    }

    /** Loads the node of a subtree: a leaf, or the child to go on with. */
    method LoadBelow(id: PageId, key: string, ghost t: Tree, ghost next: PageId, ghost h: nat, ghost root: bool)
      returns (isLeaf: bool, child: PageId)
      requires Ready() && id == t.id && Shaped(t) && Stored(nodes, t, next) && Balanced(t, h, root)
      modifies pool.Repr
      ensures Ready() && fresh(pool.Repr - old(pool.Repr)) && Free() == old(Free()) && unchanged(this)
      ensures isLeaf == t.Leaf?
      ensures t.Branch? ==> var i := ChildIndex(t.keys, key); i < |t.kids| && child == t.kids[i].id
    {
      hide Quiet, AllHeld, Flat, BufferPool.Valid, Stored, Balanced, LeavesFrom;
      StepDown(nodes, t, key, next, h, root);
      var node := LoadNode(id);
      isLeaf, child := node.isLeaf, 0;
      if !isLeaf {
        var i := node.FindChild(key);
        assert node.children[i] == node.children[..node.keyCount + 1][i] == Ids(t.kids)[i];
        child := node.children[i];
      }
    }

    /** Loads one node a level, down to the leaf. */
    method FindLeaf(key: string) returns (leafId: PageId, ghost loads: nat)
      requires Valid()
      modifies pool.Repr
      ensures Valid() && fresh(pool.Repr - old(pool.Repr))
      ensures Free() == old(Free()) && leafId in nodes && leafId == LeavesFrom(tree, key)[0].id
      ensures loads == height + 1
    {
      hide Ready, Stored, Balanced, LeavesFrom, Ordered, Apart, Below, Shaped;
      leafId, loads := rootId, 0;
      ghost var t, next := tree, INVALID_PAGE_ID;
      while true
        invariant Ready() && fresh(pool.Repr - old(pool.Repr)) && Free() == old(Free()) && unchanged(this)
        invariant leafId == t.id && loads <= height
        invariant Shaped(t) && Stored(nodes, t, next) && Balanced(t, height - loads, loads == 0)
        invariant LeavesFrom(tree, key)[0] == LeavesFrom(t, key)[0]
        decreases t
      {
        StepDown(nodes, t, key, next, height - loads, loads == 0);
        var isLeaf, child := LoadBelow(leafId, key, t, next, height - loads, loads == 0);
        loads := loads + 1;
        if isLeaf {
          return;
        }
        leafId := child;
        ghost var i := ChildIndex(t.keys, key);
        next := FirstOf(t.kids[i + 1..], next);
        t := t.kids[i];
      }
    }

    /** The value of the first pair that the scan of the key gives. */
    method Search(key: string) returns (r: Option<string>)
      requires Valid()
      modifies pool.Repr
      ensures Valid() && fresh(pool.Repr - old(pool.Repr)) && Free() == old(Free())
      ensures r == BTreeQueries.Search(tree, key)
      ensures var scan := BTreeQueries.RangeScan(tree, key, key); r == if scan == [] then None else Some(scan[0].value)
      ensures r.None? <==> forall e :: e in Contents() ==> e.key != key
      ensures r.Some? ==> Entry(key, r.value) in Contents()
    {
      hide Quiet, AllHeld, Flat, BufferPool.Valid, Good, LeavesFrom, Stored, Entries;
      Answers(key, key, key);
      LeafAt(key);
      var leafId, _ := FindLeaf(key);
      var leaf := LoadNode(leafId);
      r := FindIn(leaf, key);
    }

    method FindIn(leaf: BTreeNode, key: string) returns (r: Option<string>)
      requires leaf.Valid()
      ensures r == Lookup(leaf.Pairs(), key)
    {
      ghost var es := leaf.Pairs();
      var i := 0;
      while i < leaf.keyCount
        invariant 0 <= i <= leaf.keyCount == |es|
        invariant Lookup(es, key) == Lookup(es[i..], key)
      {
        assert es[i..][1..] == es[i + 1..];
        if leaf.keys[i] == key {
          return Some(leaf.values[i]);
        }
        i := i + 1;
      }
      return None;
    }

    lemma Answers(k: string, from: string, to: string)
      requires Valid()
      ensures var r := BTreeQueries.Search(tree, k);
        && (r.None? <==> forall e :: e in Contents() ==> e.key != k)
        && (r.Some? ==> Entry(k, r.value) in Contents())
        && (var scan := BTreeQueries.RangeScan(tree, k, k); r == if scan == [] then None else Some(scan[0].value))
      ensures StrictlySorted(Contents()) ==> BTreeQueries.RangeScan(tree, from, to) == Between(Contents(), from, to)
    {
      SearchIsRight(tree, k);
      SearchIsFirst(tree, k);
      if StrictlySorted(Contents()) {
        RangeScanDistinct(tree, from, to);
      }
    }

    /** The node of the leaf that a key leads to. */
    lemma LeafAt(key: string)
      requires Valid()
      ensures var ls := LeavesFrom(tree, key);
        ls[0].id in nodes && nodes[ls[0].id].LeafNode? && nodes[ls[0].id].entries == ls[0].entries
    {
      ChainFrom(nodes, tree, INVALID_PAGE_ID, key);
    }

    /** The scan of one leaf; `past` says that a key beyond the range was met. */
    method ScanLeaf(leaf: BTreeNode, from: string, to: string, found: seq<Entry>, ghost rest: seq<Entry>)
      returns (result: seq<Entry>, past: bool)
      requires leaf.Valid()
      ensures result + (if past then [] else Scan(rest, from, to)) == found + Scan(leaf.Pairs() + rest, from, to)
    {
      hide Less, Scan;
      ghost var es := leaf.Pairs();
      result := found;
      var i := 0;
      assert es[0..] == es;
      while i < leaf.keyCount
        invariant 0 <= i <= leaf.keyCount == |es|
        invariant result + Scan(es[i..] + rest, from, to) == found + Scan(es + rest, from, to)
      {
        ScanStep(es, i, rest, from, to);
        if Less(to, leaf.keys[i]) {
          return result, true;
        }
        if !Less(leaf.keys[i], from) {
          result := result + [Entry(leaf.keys[i], leaf.values[i])];
        }
        i := i + 1;
      }
      assert es[|es|..] + rest == rest;
      past := false;
    }

    /** Walks the leaf chain from there on, and stops at the first key past `to`. */
    method RangeScan(from: string, to: string) returns (result: seq<Entry>)
      requires Valid()
      modifies pool.Repr
      ensures Valid() && fresh(pool.Repr - old(pool.Repr)) && Free() == old(Free())
      ensures result == BTreeQueries.RangeScan(tree, from, to)
      ensures StrictlySorted(Contents()) ==> result == Between(Contents(), from, to)
    {
      hide Quiet, AllHeld, Flat, BufferPool.Valid, Balanced, Ordered, Apart, LeavesFrom, Stored, Less, Scan,
        EntriesOf, Entries, StrictlySorted, Between;
      Answers(from, from, to);
      ghost var ls := LeavesFrom(tree, from);
      GoodChain(from);
      var leafId, _ := FindLeaf(from);
      result := [];
      while leafId != INVALID_PAGE_ID
        invariant Valid() && fresh(pool.Repr - old(pool.Repr)) && Free() == old(Free())
        invariant Chain(nodes, ls, INVALID_PAGE_ID) && leafId == ChainStart(ls, INVALID_PAGE_ID)
        invariant result + Scan(EntriesOf(ls), from, to) == BTreeQueries.RangeScan(tree, from, to)
        decreases |ls|
      {
        var leaf := LoadNode(leafId);
        LeafFirst(ls);
        var past;
        result, past := ScanLeaf(leaf, from, to, result, EntriesOf(ls[1..]));
        if past {
          return;
        }
        leafId := leaf.nextLeaf;
        ls := ls[1..];
      }
      NodesBelow();
      NothingLeft(ls, from, to);
    }

    lemma GoodChain(from: string)
      requires Valid()
      ensures Chain(nodes, LeavesFrom(tree, from), INVALID_PAGE_ID)
    {
      ChainFrom(nodes, tree, INVALID_PAGE_ID, from);
    }
  }

  // ----- whole runs through the pool -----

  /** The tree fits after every insert of the run. */
  ghost predicate FitRun(start: PageId, ps: seq<Entry>) {
    forall i :: 0 <= i <= |ps| ==> IndexFits(TreeAfter(start, ps[..i]).tree, TreeAfter(start, ps[..i]).free)
  }

  /** A new index on the pool's file, filled with any run of inserts that fits. */
  method IndexOf(pool: BufferPool, ps: seq<Entry>) returns (index: BTree)
    requires pool.Valid() && pool in pool.Repr && Quiet(pool.view) && FitRun(|pool.view.disk|, ps)
    modifies pool.Repr
    ensures fresh(index) && index.pool == pool && fresh(pool.Repr - old(pool.Repr))
    ensures index.Valid() && Index(index.tree, index.Free(), index.height) == TreeAfter(|old(pool.view).disk|, ps)
    ensures index.Contents() == InsertedAll(ps)
  {
    hide Quiet, BufferPool.Valid, BTree.Valid, IndexFits, Inserted, Grow, GoodIndex;
    ghost var start := |pool.view.disk|;
    NewFits(start, ps);
    index := new BTree(pool);
    var i := 0;
    assert ps[..0] == [];
    while i < |ps|
      invariant 0 <= i <= |ps| && fresh(index) && index.pool == pool && fresh(pool.Repr - old(pool.Repr))
      invariant index.Valid() && Index(index.tree, index.Free(), index.height) == TreeAfter(start, ps[..i])
    {
      assert ps[i] == Entry(ps[i].key, ps[i].value);
      assert ps[..i + 1][..i] == ps[..i] && ps[..i + 1][i] == ps[i];
      assert TreeAfter(start, ps[..i + 1]) == Grow(TreeAfter(start, ps[..i]), ps[i]);
      index.Insert(ps[i].key, ps[i].value);
      i := i + 1;
    }
    assert ps[..|ps|] == ps;
    TreeRun(start, ps);
  }

  lemma NewFits(start: PageId, ps: seq<Entry>)
    requires FitRun(start, ps)
    ensures start < INVALID_PAGE_ID
  {
    hide Sized;
    assert ps[..0] == [];
    assert IndexFits(TreeAfter(start, ps[..0]).tree, TreeAfter(start, ps[..0]).free);
  }

  // ----- runs of short keys and pairs fit -----

  /** Each insert adds at most a page a level and one more, and a level at most. */
  lemma {:induction false} RunBounds(start: PageId, ps: seq<Entry>, n: nat)
    requires |ps| <= n
    ensures var x := TreeAfter(start, ps); x.height <= |ps| && x.free <= start + 1 + |ps| * (n + 2)
    decreases |ps|
  {
    hide GoodIndex, BTreeModel.Insert, BTreeModel.InsertRec;
    if ps != [] {
      var front, e := ps[..|ps| - 1], ps[|ps| - 1];
      RunBounds(start, front, n);
      var x := TreeAfter(start, front);
      GrowBounds(x, e);
      assert |ps| * (n + 2) == |front| * (n + 2) + (n + 2);
    }
  }

  lemma GrowBounds(x: Index, e: Entry)
    requires GoodIndex(x)
    ensures Grow(x, e).height <= x.height + 1 && Grow(x, e).free <= x.free + x.height + 2
  {
    hide Good, BTreeModel.InsertRec;
    InsertGood(x.tree, e, x.free, x.height);
  }

  lemma {:induction false} RunTexts(start: PageId, ps: seq<Entry>)
    requires PairTexts(ps)
    ensures Texts(TreeAfter(start, ps).tree)
    decreases |ps|
  {
    hide PairText, Good, BTreeModel.InsertRec;
    if ps != [] {
      var front, e := ps[..|ps| - 1], ps[|ps| - 1];
      RunTexts(start, front);
      GrowTexts(TreeAfter(start, front), e);
    }
  }

  lemma GrowTexts(x: Index, e: Entry)
    requires GoodIndex(x) && Texts(x.tree) && PairText(e)
    ensures Texts(Grow(x, e).tree)
  {
    hide PairText, KeyText, BTreeModel.InsertRec, Balanced, Ordered, Apart;
    var r := BTreeModel.InsertRec(x.tree, e, x.free);
    InsertTexts(x.tree, e, x.free);
    if r.split.Split? {
      assert AllTexts([r.left, r.split.right]);
    }
  }

  /** Any run of pairs of at most MAX_PAIR bytes, with keys of at most MAX_KEY, fits if the page ids
      suffice. */
  lemma ShortRunFits(start: PageId, ps: seq<Entry>)
    requires PairTexts(ps) && start + 1 + |ps| * (|ps| + 2) <= INVALID_PAGE_ID
    ensures FitRun(start, ps)
  {
    hide PairText, Sized, Texts, Balanced, Ordered, Apart, TreeAfter;
    forall i | 0 <= i <= |ps|
      ensures IndexFits(TreeAfter(start, ps[..i]).tree, TreeAfter(start, ps[..i]).free)
    {
      var x := TreeAfter(start, ps[..i]);
      RunBounds(start, ps[..i], |ps|);
      TimesUp(i, |ps|, |ps| + 2);
      RunTexts(start, ps[..i]);
      TextsSized(x.tree, x.height, true, x.free, INVALID_PAGE_ID);
    }
  }

  lemma {:induction false} TimesUp(i: nat, n: nat, m: nat)
    requires i <= n
    ensures i * m <= n * m
  {
    if i < n {
      TimesUp(i, n - 1, m);
      assert n * m == (n - 1) * m + m;
    }
  }

  /** What such an index answers: a lookup gives the oldest value inserted under the key, but for those
      that the scan of the key skips; a scan misses no pair but some under `from`, and none when at most
      one was inserted under it; and with distinct keys both are what the sorted map of main.cpp gives. */
  method AskIndex(pool: BufferPool, ps: seq<Entry>, key: string, from: string, to: string)
    returns (value: Option<string>, found: seq<Entry>, ghost missed: seq<Entry>, ghost skipped: nat)
    requires pool.Valid() && pool in pool.Repr && Quiet(pool.view) && FitRun(|pool.view.disk|, ps)
    modifies pool.Repr
    ensures value.None? <==> forall e :: e in ps ==> e.key != key
    ensures value.Some? ==> Entry(key, value.value) in ps
    ensures var copies := Between(ps, key, key);
      && skipped <= |copies| && (copies != [] ==> skipped < |copies|)
      && value == (if copies == [] then None else Some(copies[skipped].value))
      && (from == to == key ==> found == copies[skipped..])
    ensures DistinctKeys(ps) ==> value == Lookup(IndexRun(ps), key) && found == Between(IndexRun(ps), from, to)
    ensures |Between(ps, from, from)| <= 1 ==> found == Between(InsertedAll(ps), from, to)
    ensures Between(InsertedAll(ps), from, to) == missed + found && forall e :: e in missed ==> e.key == from
  {
    hide Quiet, BufferPool.Valid, Inserted, InsertedAll, Stored, AllHeld, Sorted, StrictlySorted, Entries, IndexFits,
      Between, BTreeQueries.RangeScan;
    ghost var start := |pool.view.disk|;
    TreeRunOldest(start, ps, key);
    skipped := |Between(ps, key, key)| - |BTreeQueries.RangeScan(TreeAfter(start, ps).tree, key, key)|;
    var index := IndexOf(pool, ps);
    if |Between(ps, from, from)| <= 1 {
      TreeRunScan(start, ps, from, to);
    }
    RunAnswers(index.tree, ps, key);
    RangeScanMisses(index.tree, from, to);
    missed := Between(BTreeModel.Before(index.tree, from), from, to);
    if DistinctKeys(ps) {
      RunsAgree(ps);
    }
    value := index.Search(key);
    found := index.RangeScan(from, to);
  }
}
