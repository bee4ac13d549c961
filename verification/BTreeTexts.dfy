/** When every node of a tree can be written to its page, as all can whose keys and pairs are short. */
module BTreeTexts {
  import opened BTreeModel
  import opened NodeCodec
  import opened Nodes
  import opened Pages

  // ----- nodes that fit their pages -----

  /** Every node of the subtree fits its page; `next` is the leaf after it. */
  ghost predicate Sized(t: Tree, next: PageId)
    requires Shaped(t)
    decreases t, 1
  {
    FitsPage(NodeOf(t, next)) && (t.Branch? ==> AllSized(t.kids, next))
  }

  ghost predicate AllSized(ts: seq<Tree>, next: PageId)
    requires forall i :: 0 <= i < |ts| ==> Shaped(ts[i])
    decreases ts, 0
  {
    ts != [] ==> Sized(ts[0], FirstOf(ts[1..], next)) && AllSized(ts[1..], next)
  }

  /** The whole tree fits, and so do its page ids, all below `free`. */
  ghost predicate IndexFits(t: Tree, free: PageId) {
    Shaped(t) && Sized(t, INVALID_PAGE_ID) && free <= INVALID_PAGE_ID
  }

  /** The same for what insertRec leaves of a subtree. */
  ghost predicate PartsFit(r: Result, next: PageId) {
    AllShaped(r.Parts()) && AllSized(r.Parts(), next) && r.next <= INVALID_PAGE_ID
  }

  lemma {:induction false} SizedConcat(a: seq<Tree>, b: seq<Tree>, next: PageId)
    requires AllShaped(a) && AllShaped(b) && AllShaped(a + b)
    ensures AllSized(a + b, next) <==> AllSized(a, FirstOf(b, next)) && AllSized(b, next)
    decreases a
  {
    hide Sized, Shaped, First;
    if a == [] {
      assert a + b == b;
    } else {
      assert (a + b)[1..] == a[1..] + b;
      SizedConcat(a[1..], b, next);
    }
  }

  /** The parts of a rebuilt branch fit only if all its children do. */
  lemma RebuildSized(id: PageId, keys: seq<string>, kids: seq<Tree>, free: PageId, next: PageId)
    requires |kids| == |keys| + 1 && AllShaped(kids) && PartsFit(Rebuild(id, keys, kids, free), next)
    ensures AllSized(kids, next) && free <= INVALID_PAGE_ID
  {
    hide NodeOf, FitsPage, AllSized;
    var r, mid := Rebuild(id, keys, kids, free), |keys| / 2;
    TopSized(r, next);
    if r.split.Split? {
      var a, b := kids[..mid + 1], kids[mid + 1..];
      assert kids == a + b && r.left.kids == a && r.split.right.kids == b;
      assert First(r.split.right) == FirstOf(b, next);
      SizedConcat(a, b, next);
    }
  }

  lemma HeadSized(ts: seq<Tree>, next: PageId)
    requires ts != [] && AllShaped(ts) && AllSized(ts, next)
    ensures AllShaped(ts[1..]) && Sized(ts[0], FirstOf(ts[1..], next))
  {
  }

  /** What the definitions say of the one or two nodes at the top. */
  lemma TopSized(r: Result, next: PageId)
    requires PartsFit(r, next)
    ensures Shaped(r.left)
    ensures r.split.NoSplit? ==> Sized(r.left, next)
    ensures r.split.Split? ==>
      Shaped(r.split.right) && Sized(r.left, First(r.split.right)) && Sized(r.split.right, next)
  {
    hide Sized, Shaped;
    var parts := r.Parts();
    assert parts[0] == r.left;
    if r.split.Split? {
      assert parts[1] == r.split.right && parts[1..] == [r.split.right];
      HeadSized(parts[1..], next);
    }
  }

  /** If the branch fits after the insert, so does what becomes of the chosen child. */
  lemma ChildFits(t: Tree, e: Entry, h: nat, root: bool, free: PageId, next: PageId)
    requires t.Branch? && Fit(t, h, root, free) && PartsFit(InsertRec(t, e, free), next)
    ensures var i := ChildIndex(t.keys, e.key);
      && i < |t.kids| && Shaped(t.kids[i]) && AllShaped(t.kids[i + 1..])
      && PartsFit(InsertRec(t.kids[i], e, free), FirstOf(t.kids[i + 1..], next))
  {
    hide Shaped, Balanced, Apart, Below, PageSet, PagesOf, AllApart, AllSized, FirstOf, Rebuild, PartsFit, InsertRec,
      InsertPos;
    var i := ChildIndex(t.keys, e.key);
    ShapedKid(t, i);
    FitChild(t, h, root, free, i);
    var q := InsertRec(t.kids[i], e, free);
    var a, parts, b := t.kids[..i], q.Parts(), t.kids[i + 1..];
    InsertShaped(t.kids[i], e, free, h - 1, false);
    SpliceShaped(a, parts, b);
    BranchIs(t, e, free);
    RebuildSized(t.id, t.keys[..i] + q.Seps() + t.keys[i..], a + parts + b, q.next, next);
    MiddleFits(a, q, b, next);
  }

  lemma MiddleFits(a: seq<Tree>, q: Result, b: seq<Tree>, next: PageId)
    requires AllShaped(a) && AllShaped(q.Parts()) && AllShaped(b) && AllShaped(a + q.Parts() + b)
    requires AllSized(a + q.Parts() + b, next) && q.next <= INVALID_PAGE_ID
    ensures PartsFit(q, FirstOf(b, next))
  {
    hide AllSized, Shaped, First;
    var parts := q.Parts();
    SpliceShaped(a, parts, b);
    assert a + parts + b == a + (parts + b);
    SizedConcat(a, parts + b, next);
    SizedConcat(parts, b, next);
  }

  lemma BranchIs(t: Tree, e: Entry, free: PageId)
    requires t.Branch? && Shaped(t)
    ensures var i := ChildIndex(t.keys, e.key);
      var q := InsertRec(t.kids[i], e, free);
      InsertRec(t, e, free) ==
      Rebuild(t.id, t.keys[..i] + q.Seps() + t.keys[i..], t.kids[..i] + q.Parts() + t.kids[i + 1..], q.next)
  {
  }

  lemma OneSized(t: Tree, next: PageId)
    requires Shaped(t) && Sized(t, next)
    ensures AllSized([t], next)
  {
    assert [t][1..] == [];
  }

  /** If the tree fits after the insert, so do the parts of its old root. */
  lemma RootFits(t: Tree, e: Entry, free: PageId)
    requires Shaped(t) && AllShaped(InsertRec(t, e, free).Parts())
    requires IndexFits(Insert(t, e, free).0, Insert(t, e, free).1)
    ensures PartsFit(InsertRec(t, e, free), INVALID_PAGE_ID)
    ensures var r := InsertRec(t, e, free);
      r.split.Split? ==> r.next < INVALID_PAGE_ID && FitsPage(InnerNode([r.split.key], [r.left.id, r.split.right.id]))
  {
    hide InsertRec, FitsPage, Shaped, AllSized;
    var r := InsertRec(t, e, free);
    if r.split.NoSplit? {
      OneSized(r.left, INVALID_PAGE_ID);
    } else {
      assert Insert(t, e, free).0.kids == r.Parts();
      assert Ids(r.Parts()) == [r.left.id, r.split.right.id];
    }
  }

  // ----- short keys and pairs always fit -----

  ghost predicate Texts(t: Tree)
    decreases t, 1
  {
    match t
    case Leaf(_, es) => PairTexts(es)
    case Branch(_, keys, kids) => KeyTexts(keys) && AllTexts(kids)
  }

  ghost predicate AllTexts(ts: seq<Tree>)
    decreases ts, 0
  {
    forall i :: 0 <= i < |ts| ==> Texts(ts[i])
  }

  ghost predicate PairTexts(es: seq<Entry>) {
    forall e :: e in es ==> PairText(e)
  }

  ghost predicate KeyTexts(keys: seq<string>) {
    forall k :: k in keys ==> KeyText(k)
  }

  ghost predicate PartTexts(r: Result) {
    Texts(r.left) && (r.split.Split? ==> KeyText(r.split.key) && Texts(r.split.right))
  }

  lemma {:induction false} InsertTexts(t: Tree, e: Entry, free: PageId)
    requires Shaped(t) && Texts(t) && PairText(e)
    ensures PartTexts(InsertRec(t, e, free))
    decreases t
  {
    match t
    case Leaf(id, es) => LeafTexts(t, e, free);
    case Branch(id, keys, kids) =>
      hide PairText, KeyText;
      var i := ChildIndex(keys, e.key);
      assert AllTexts(kids);
      InsertTexts(kids[i], e, free);
      var q := InsertRec(kids[i], e, free);
      SpliceTexts(keys, kids, i, q);
      RebuildTexts(id, keys[..i] + q.Seps() + keys[i..], kids[..i] + q.Parts() + kids[i + 1..], q.next);
  }

  lemma LeafTexts(t: Tree, e: Entry, free: PageId)
    requires t.Leaf? && Texts(t) && PairText(e)
    ensures PartTexts(InsertRec(t, e, free))
  {
    hide Plain, InsertPos;
    InsertedTexts(t.entries, e);
    var es := Inserted(t.entries, e);
    assert es[|es| / 2] in es;
  }

  lemma InsertedTexts(es: seq<Entry>, e: Entry)
    requires PairTexts(es) && PairText(e)
    ensures PairTexts(Inserted(es, e))
  {
    hide PairText, KeyText, InsertPos;
  }

  lemma SpliceTexts(keys: seq<string>, kids: seq<Tree>, i: nat, q: Result)
    requires KeyTexts(keys) && AllTexts(kids) && PartTexts(q) && i < |kids| && i <= |keys|
    ensures KeyTexts(keys[..i] + q.Seps() + keys[i..]) && AllTexts(kids[..i] + q.Parts() + kids[i + 1..])
  {
    hide PairText, KeyText, Texts;
    var all, parts := kids[..i] + q.Parts() + kids[i + 1..], q.Parts();
    forall j | 0 <= j < |all|
      ensures Texts(all[j])
    {
      assert j >= i + |parts| ==> all[j] == kids[j - |parts| + 1];
    }
  }

  lemma RebuildTexts(id: PageId, keys: seq<string>, kids: seq<Tree>, free: PageId)
    requires |kids| == |keys| + 1 && KeyTexts(keys) && AllTexts(kids)
    ensures PartTexts(Rebuild(id, keys, kids, free))
  {
    hide PairText, KeyText;
    var mid := |keys| / 2;
    assert |keys| > 0 ==> keys[mid] in keys;
    assert AllTexts(kids[..mid + 1]) && AllTexts(kids[mid + 1..]);
    if |keys| > ORDER {
      assert forall k :: k in keys[..mid] || k in keys[mid + 1..] ==> k in keys;
    }
  }

  lemma {:induction false} RootInPages(t: Tree)
    ensures t.id in PageSet(t)
  {
  }

  lemma {:induction false} IdsBelow(ts: seq<Tree>, free: PageId)
    requires Below(PagesOf(ts), free)
    ensures forall i :: 0 <= i < |ts| ==> ts[i].id < free
  {
    if ts != [] {
      RootInPages(ts[0]);
      IdsBelow(ts[1..], free);
      assert forall i :: 0 < i < |ts| ==> ts[i] == ts[1..][i - 1];
    }
  }

  lemma {:induction false} FirstInPages(t: Tree)
    requires Shaped(t)
    ensures First(t) in PageSet(t)
    decreases t
  {
    if t.Branch? {
      FirstInPages(t.kids[0]);
    }
  }

  /** A balanced tree of short texts fits, whatever it holds. */
  lemma {:induction false} TextsSized(t: Tree, h: nat, root: bool, free: PageId, next: PageId)
    requires Shaped(t) && Balanced(t, h, root) && Below(PageSet(t), free) && Texts(t)
    requires free <= INVALID_PAGE_ID && next <= INVALID_PAGE_ID
    ensures Sized(t, next)
    decreases t, 1
  {
    hide PairText, KeyText, Encode, PagesOf, FitsPage;
    match t
    case Leaf(_, es) => EncodeFits(NodeOf(t, next));
    case Branch(_, keys, kids) =>
      IdsBelow(kids, free);
      EncodeFits(NodeOf(t, next));
      assert AllBalanced(kids, h - 1) && AllTexts(kids);
      KidsSized(kids, h - 1, free, next);
  }

  lemma {:induction false} KidsSized(ts: seq<Tree>, h: nat, free: PageId, next: PageId)
    requires AllShaped(ts) && AllBalanced(ts, h) && Below(PagesOf(ts), free) && AllTexts(ts)
    requires free <= INVALID_PAGE_ID && next <= INVALID_PAGE_ID
    ensures AllSized(ts, next)
    decreases ts, 0
  {
    hide Shaped, Balanced, Texts, Sized, First;
    if ts != [] {
      assert AllShaped(ts[1..]) && AllBalanced(ts[1..], h) && AllTexts(ts[1..]);
      if |ts| > 1 {
        FirstInPages(ts[1]);
        assert PageSet(ts[1]) <= PagesOf(ts[1..]);
        assert ts[1..][0] == ts[1];
      }
      TextsSized(ts[0], h, false, free, FirstOf(ts[1..], next));
      KidsSized(ts[1..], h, free, next);
    }
  }
}
