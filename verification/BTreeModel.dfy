/** The B+ tree as a value: insertion, search and range scan on a tree whose nodes carry
    their page ids. BTree.dfy proves that the page-based code does exactly this. */
module BTreeModel {
  import opened EntryLists
  import opened KeyOrder
  import opened Nodes
  import opened Pages

  datatype Tree =
    | Leaf(id: PageId, entries: seq<Entry>)
    | Branch(id: PageId, keys: seq<string>, kids: seq<Tree>)

  /** All (key, value) pairs, left to right. */
  ghost function Entries(t: Tree): seq<Entry>
    decreases t, 1
  {
    match t
    case Leaf(_, es) => es
    case Branch(_, _, kids) => EntriesOf(kids)
  }

  ghost function EntriesOf(ts: seq<Tree>): seq<Entry>
    decreases ts, 0
  {
    if ts == [] then [] else Entries(ts[0]) + EntriesOf(ts[1..])
  }

  // ----- the algorithms -----

  /** The place for a new key in a leaf, found from the right: after every key <= k. */
  function InsertPos(es: seq<Entry>, k: string): (p: nat)
    ensures p <= |es|
  {
    if es == [] || !Less(k, es[|es| - 1].key) then |es| else InsertPos(es[..|es| - 1], k)
  }

  function Inserted(es: seq<Entry>, e: Entry): seq<Entry> {
    var p := InsertPos(es, e.key);
    es[..p] + [e] + es[p..]
  }

  /** The child to follow: the first whose separator is greater than k. */
  function ChildIndex(keys: seq<string>, k: string): (i: nat)
    ensures i <= |keys|
    ensures forall j :: 0 <= j < i ==> !Less(k, keys[j])
    ensures i < |keys| ==> Less(k, keys[i])
  {
    if keys == [] || Less(k, keys[0]) then 0 else 1 + ChildIndex(keys[1..], k)
  }

  datatype Split = NoSplit | Split(key: string, right: Tree)

  /** What inserting into a subtree gives: the subtree, what it split off, the next free page. */
  datatype Result = Result(left: Tree, split: Split, next: PageId) {
    function Parts(): seq<Tree> {
      if split.NoSplit? then [left] else [left, split.right]
    }

    function Seps(): seq<string> {
      if split.NoSplit? then [] else [split.key]
    }
  }

  /** splitNode on a leaf: the upper half moves to a new page; its first key goes up. */
  function SplitLeaf(id: PageId, es: seq<Entry>, free: PageId): Result
    requires es != []
  {
    var mid := |es| / 2;
    Result(Leaf(id, es[..mid]), Split(es[mid].key, Leaf(free, es[mid..])), free + 1)
  }

  /** splitNode on an internal node: the middle key goes up and stays in neither half. */
  function SplitBranch(id: PageId, keys: seq<string>, kids: seq<Tree>, free: PageId): Result
    requires keys != [] && |kids| == |keys| + 1
  {
    var mid := |keys| / 2;
    Result(Branch(id, keys[..mid], kids[..mid + 1]),
           Split(keys[mid], Branch(free, keys[mid + 1..], kids[mid + 1..])), free + 1)
  }

  /** Every internal node has one child more than keys. */
  predicate Shaped(t: Tree)
    decreases t
  {
    t.Branch? ==> |t.kids| == |t.keys| + 1 && forall i :: 0 <= i < |t.kids| ==> Shaped(t.kids[i])
  }

  function InsertRec(t: Tree, e: Entry, free: PageId): Result
    requires Shaped(t)
    decreases t
  {
    match t
    case Leaf(id, es) =>
      var es' := Inserted(es, e);
      if |es'| <= ORDER then Result(Leaf(id, es'), NoSplit, free) else SplitLeaf(id, es', free)
    case Branch(id, keys, kids) =>
      var i := ChildIndex(keys, e.key);
      var r := InsertRec(kids[i], e, free);
      Rebuild(id, keys[..i] + r.Seps() + keys[i..], kids[..i] + r.Parts() + kids[i + 1..], r.next)
  }

  /** The branch with its new keys and children, split if it has become too long. */
  function Rebuild(id: PageId, keys: seq<string>, kids: seq<Tree>, free: PageId): Result
    requires |kids| == |keys| + 1
  {
    if |keys| <= ORDER then Result(Branch(id, keys, kids), NoSplit, free)
    else SplitBranch(id, keys, kids, free)
  }

  /** insert: a split root gets a new root above it. */
  function Insert(t: Tree, e: Entry, free: PageId): (Tree, PageId)
    requires Shaped(t)
  {
    var r := InsertRec(t, e, free);
    if r.split.NoSplit? then (r.left, r.next)
    else (Branch(r.next, [r.split.key], [r.left, r.split.right]), r.next + 1)
  }

  // ----- the invariant -----

  /** All leaves at depth h; 2 to 4 keys in every node but the root. */
  ghost predicate Balanced(t: Tree, h: nat, root: bool)
    decreases t, 0
  {
    match t
    case Leaf(_, es) => h == 0 && |es| <= ORDER && (!root ==> 2 <= |es|)
    case Branch(_, keys, kids) =>
      && h > 0 && 1 <= |keys| <= ORDER && (!root ==> 2 <= |keys|)
      && |kids| == |keys| + 1 && AllBalanced(kids, h - 1)
  }

  ghost predicate AllBalanced(ts: seq<Tree>, h: nat)
    decreases ts, 1
  {
    forall i :: 0 <= i < |ts| ==> Balanced(ts[i], h, false)
  }

  /** Each separator is the first key of the subtree to its right. */
  ghost predicate Separated(t: Tree)
    decreases t, 0
  {
    t.Branch? ==> Separates(t.keys, t.kids)
  }

  ghost predicate Separates(keys: seq<string>, kids: seq<Tree>)
    decreases kids, 1
  {
    && |kids| == |keys| + 1
    && (forall i :: 0 <= i < |kids| ==> Separated(kids[i]))
    && (forall i :: 0 <= i < |keys| ==> StartsWith(kids[i + 1], keys[i]))
  }

  ghost predicate StartsWith(t: Tree, k: string) {
    Entries(t) != [] && Entries(t)[0].key == k
  }

  ghost predicate Ordered(t: Tree) {
    Sorted(Entries(t)) && Separated(t)
  }

  // ----- sequences of subtrees -----

  lemma {:induction false} EntriesConcat(a: seq<Tree>, b: seq<Tree>)
    ensures EntriesOf(a + b) == EntriesOf(a) + EntriesOf(b)
  {
    hide Entries;
    if a == [] {
      assert a + b == b;
    } else {
      EntriesConcat(a[1..], b);
      assert (a + b)[1..] == a[1..] + b;
      assert EntriesOf(a + b) == Entries(a[0]) + (EntriesOf(a[1..]) + EntriesOf(b));
    }
  }

  /** Entries of a branch, split around child i. */
  lemma Around(kids: seq<Tree>, i: nat)
    requires i < |kids|
    ensures EntriesOf(kids) == EntriesOf(kids[..i]) + Entries(kids[i]) + EntriesOf(kids[i + 1..])
  {
    hide Entries, EntriesOf;
    EntriesConcat(kids[..i], kids[i..]);
    assert kids == kids[..i] + kids[i..];
    HeadEntries(kids[i..]);
    assert kids[i..][1..] == kids[i + 1..];
  }

  lemma HeadEntries(ts: seq<Tree>)
    requires ts != []
    ensures EntriesOf(ts) == Entries(ts[0]) + EntriesOf(ts[1..])
  {
  }

  lemma {:induction false} PosIs(es: seq<Entry>, k: string, p: nat)
    requires p <= |es|
    requires p > 0 ==> Rank(es[p - 1].key) <= Rank(k)
    requires forall j :: p <= j < |es| ==> Rank(k) < Rank(es[j].key)
    ensures InsertPos(es, k) == p
  {
    hide Rank, Less;
    if p < |es| {
      LessIsRank(k, es[|es| - 1].key);
      PosIs(es[..|es| - 1], k, p);
    } else if es != [] {
      LessIsRank(k, es[|es| - 1].key);
    }
  }

  lemma {:induction false} PosSplits(es: seq<Entry>, k: string)
    requires Sorted(es)
    ensures var p := InsertPos(es, k);
      && (forall j :: 0 <= j < p ==> Rank(es[j].key) <= Rank(k))
      && (forall j :: p <= j < |es| ==> Rank(k) < Rank(es[j].key))
  {
    hide Rank, Less;
    if es != [] {
      LessIsRank(k, es[|es| - 1].key);
      if Less(k, es[|es| - 1].key) {
        PosSplits(es[..|es| - 1], k);
      }
    }
  }

  /** Insertion keeps a list sorted, puts the pair after its equals, and adds nothing else. */
  lemma InsertedKeeps(es: seq<Entry>, e: Entry)
    requires Sorted(es)
    ensures Sorted(Inserted(es, e))
    ensures multiset(Inserted(es, e)) == multiset(es) + multiset{e}
    ensures es != [] && Rank(es[0].key) <= Rank(e.key) ==> Inserted(es, e)[0] == es[0]
  {
    hide Rank, Less, InsertPos;
    PosSplits(es, e.key);
    var p := InsertPos(es, e.key);
    assert es == es[..p] + es[p..];
  }

  lemma {:induction false} PosAfter(a: seq<Entry>, es: seq<Entry>, k: string)
    requires a != [] ==> !Less(k, a[|a| - 1].key)
    ensures InsertPos(a + es, k) == |a| + InsertPos(es, k)
  {
    hide Less;
    if es == [] {
      assert a + es == a;
    } else {
      PosAfter(a, es[..|es| - 1], k);
      assert (a + es)[..|a + es| - 1] == a + es[..|es| - 1];
    }
  }

  lemma {:induction false} PosBefore(es: seq<Entry>, b: seq<Entry>, k: string)
    requires forall j :: 0 <= j < |b| ==> Less(k, b[j].key)
    ensures InsertPos(es + b, k) == InsertPos(es, k)
  {
    hide Less;
    if b == [] {
      assert es + b == es;
    } else {
      PosBefore(es, b[..|b| - 1], k);
      assert (es + b)[..|es + b| - 1] == es + b[..|b| - 1];
    }
  }

  /** Inserting into the middle of a list whose left part is <= k and right part > k. */
  lemma InsertedAround(a: seq<Entry>, es: seq<Entry>, b: seq<Entry>, e: Entry)
    requires a != [] ==> !Less(e.key, a[|a| - 1].key)
    requires forall j :: 0 <= j < |b| ==> Less(e.key, b[j].key)
    ensures Inserted(a + es + b, e) == a + Inserted(es, e) + b
  {
    hide Less, InsertPos;
    PosBefore(a + es, b, e.key);
    PosAfter(a, es, e.key);
    var p := InsertPos(es, e.key);
    assert (a + es + b)[..|a| + p] == a + es[..p];
    assert (a + es + b)[|a| + p..] == es[p..] + b;
  }

  lemma SortedParts(a: seq<Entry>, b: seq<Entry>)
    requires Sorted(a + b)
    ensures Sorted(a) && Sorted(b)
    ensures forall i, j :: 0 <= i < |a| && 0 <= j < |b| ==> Rank(a[i].key) <= Rank(b[j].key)
  {
    hide Rank;
    var all := a + b;
    assert forall i :: 0 <= i < |a| ==> a[i] == all[i];
    assert forall j :: 0 <= j < |b| ==> b[j] == all[|a| + j];
  }

  /** The child that ChildIndex picks: what is left of it is <= k, what is right of it is > k,
      and its own first key is <= k unless it is the first child. */
  lemma ChildBounds(t: Tree, k: string)
    requires t.Branch? && Shaped(t) && Ordered(t)
    ensures var i := ChildIndex(t.keys, k);
      var a, es, b := EntriesOf(t.kids[..i]), Entries(t.kids[i]), EntriesOf(t.kids[i + 1..]);
      && Entries(t) == a + es + b && Sorted(es)
      && (forall j :: 0 <= j < |a| ==> !Less(k, a[j].key))
      && (forall j :: 0 <= j < |b| ==> Less(k, b[j].key))
      && (i > 0 ==> es != [] && !Less(k, es[0].key))
  {
    hide Rank, Less, Sorted, EntriesOf;
    var i := ChildIndex(t.keys, k);
    var a, es, b := EntriesOf(t.kids[..i]), Entries(t.kids[i]), EntriesOf(t.kids[i + 1..]);
    Around(t.kids, i);
    SortedParts(a + es, b);
    SortedParts(a, es);
    if i > 0 {
      assert Separates(t.keys, t.kids);
      assert StartsWith(t.kids[i - 1 + 1], t.keys[i - 1]);
      forall j | 0 <= j < |a|
        ensures !Less(k, a[j].key)
      {
        LessIsRank(k, es[0].key);
        LessIsRank(k, a[j].key);
      }
    } else {
      assert a == [] by { assert t.kids[..0] == []; NoEntries(); }
    }
    if b != [] {
      FirstOfRest(t, i);
      assert b == [b[0]] + b[1..];
      SortedParts([b[0]], b[1..]);
      forall j | 0 <= j < |b|
        ensures Less(k, b[j].key)
      {
        LessIsRank(k, b[0].key);
        LessIsRank(k, b[j].key);
        assert j > 0 ==> b[j] == b[1..][j - 1];
      }
    }
  }

  lemma NoEntries()
    ensures EntriesOf([]) == []
  {
  }

  lemma FirstOfRest(t: Tree, i: nat)
    requires t.Branch? && Shaped(t) && Separated(t) && i < |t.kids| && EntriesOf(t.kids[i + 1..]) != []
    ensures i < |t.keys| && EntriesOf(t.kids[i + 1..])[0].key == t.keys[i]
  {
    if i < |t.keys| {
      assert Separates(t.keys, t.kids);
      assert StartsWith(t.kids[i + 1], t.keys[i]);
    }
  }

  // ----- insertion keeps the tree ordered and adds exactly the new pair -----

  ghost predicate GoodParts(r: Result) {
    && Separated(r.left) && Entries(r.left) != []
    && (r.split.Split? ==> Separated(r.split.right) && StartsWith(r.split.right, r.split.key))
  }

  lemma Splice(keys: seq<string>, kids: seq<Tree>, i: nat, r: Result)
    requires Separates(keys, kids) && i < |kids| && GoodParts(r)
    requires i > 0 ==> StartsWith(r.left, keys[i - 1])
    ensures Separates(keys[..i] + r.Seps() + keys[i..], kids[..i] + r.Parts() + kids[i + 1..])
  {
    hide StartsWith, Separated;
    if r.split.NoSplit? {
      assert keys[..i] + r.Seps() + keys[i..] == keys;
      assert kids[..i] + r.Parts() + kids[i + 1..] == kids[i := r.left];
    } else {
      SpliceSplit(keys, kids, i, r);
    }
  }

  /** The same when the child has split in two. */
  lemma SpliceSplit(keys: seq<string>, kids: seq<Tree>, i: nat, r: Result)
    requires Separates(keys, kids) && i < |kids| && GoodParts(r) && r.split.Split?
    requires i > 0 ==> StartsWith(r.left, keys[i - 1])
    ensures Separates(keys[..i] + r.Seps() + keys[i..], kids[..i] + r.Parts() + kids[i + 1..])
  {
    hide StartsWith, Separated;
    var keys', kids' := keys[..i] + r.Seps() + keys[i..], kids[..i] + r.Parts() + kids[i + 1..];
    assert forall j :: 0 <= j < |kids'| ==>
      kids'[j] == if j < i then kids[j] else if j == i then r.left else if j == i + 1 then r.split.right else kids[j - 1];
    assert forall j :: 0 <= j < |keys'| ==>
      keys'[j] == if j < i then keys[j] else if j == i then r.split.key else keys[j - 1];
    forall j | 0 <= j < |keys'|
      ensures StartsWith(kids'[j + 1], keys'[j])
    {
      assert j < i ==> StartsWith(kids[j + 1], keys[j]) || j + 1 == i;
      assert j > i ==> StartsWith(kids[j - 1 + 1], keys[j - 1]);
    }
  }

  lemma Cut(keys: seq<string>, kids: seq<Tree>, mid: nat)
    requires Separates(keys, kids) && mid < |keys|
    ensures Separates(keys[..mid], kids[..mid + 1]) && Separates(keys[mid + 1..], kids[mid + 1..])
    ensures EntriesOf(kids[mid + 1..]) != [] && EntriesOf(kids[mid + 1..])[0].key == keys[mid]
    ensures EntriesOf(kids) == EntriesOf(kids[..mid + 1]) + EntriesOf(kids[mid + 1..])
  {
    hide Separated, Entries, EntriesOf;
    assert StartsWith(kids[mid + 1], keys[mid]);
    EntriesConcat(kids[..mid + 1], kids[mid + 1..]);
    assert kids == kids[..mid + 1] + kids[mid + 1..];
    HeadEntries(kids[mid + 1..]);
    var keys', kids' := keys[mid + 1..], kids[mid + 1..];
    forall j | 0 <= j < |keys'|
      ensures StartsWith(kids'[j + 1], keys'[j])
    {
      var k := mid + 1 + j;
      assert StartsWith(kids[k + 1], keys[k]);
    }
  }

  lemma LeafInsert(es: seq<Entry>, e: Entry, id: PageId, free: PageId)
    requires Sorted(es)
    ensures var r := InsertRec(Leaf(id, es), e, free);
      GoodParts(r) && EntriesOf(r.Parts()) == Inserted(es, e)
  {
    hide Rank, Less, InsertPos;
    var r := InsertRec(Leaf(id, es), e, free);
    PartsEntries(r);
  }

  lemma PartsEntries(r: Result)
    ensures EntriesOf(r.Parts()) == Entries(r.left) + if r.split.Split? then Entries(r.split.right) else []
  {
    hide Entries, EntriesOf;
    NoEntries();
    HeadEntries(r.Parts());
    if r.split.Split? {
      assert r.Parts()[1..] == [r.split.right] && [r.split.right][1..] == [];
      HeadEntries([r.split.right]);
    } else {
      assert r.Parts()[1..] == [];
    }
  }

  lemma Unpack(t: Tree, i: nat)
    requires t.Branch? && Shaped(t) && Ordered(t) && i < |t.kids|
    ensures Separates(t.keys, t.kids) && Separated(t.kids[i])
    ensures i > 0 ==> StartsWith(t.kids[i], t.keys[i - 1])
  {
    assert i > 0 ==> StartsWith(t.kids[i - 1 + 1], t.keys[i - 1]);
  }

  lemma SpliceEntries(kids: seq<Tree>, i: nat, parts: seq<Tree>)
    requires i < |kids|
    ensures EntriesOf(kids[..i] + parts + kids[i + 1..])
         == EntriesOf(kids[..i]) + EntriesOf(parts) + EntriesOf(kids[i + 1..])
  {
    hide Entries, EntriesOf;
    EntriesConcat(kids[..i] + parts, kids[i + 1..]);
    EntriesConcat(kids[..i], parts);
  }

  /** A branch rebuilt, split or not, has the same entries in good parts. */
  lemma RebuildKeeps(id: PageId, keys: seq<string>, kids: seq<Tree>, free: PageId)
    requires Separates(keys, kids) && EntriesOf(kids) != []
    ensures |kids| == |keys| + 1
    ensures var r := Rebuild(id, keys, kids, free);
      GoodParts(r) && EntriesOf(r.Parts()) == EntriesOf(kids)
  {
    hide EntriesOf, Separates;
    SeparatesCounts(keys, kids);
    var r, mid := Rebuild(id, keys, kids, free), |keys| / 2;
    PartsEntries(r);
    if |keys| > ORDER {
      Cut(keys, kids, mid);
      Cut(keys[..mid], kids[..mid + 1], 0);
    }
  }

  lemma SeparatesCounts(keys: seq<string>, kids: seq<Tree>)
    requires Separates(keys, kids)
    ensures |kids| == |keys| + 1
  {
  }

  /** What the recursion gave for the chosen child, put into the branch. */
  lemma BranchInsert(t: Tree, e: Entry, free: PageId)
    requires t.Branch? && Shaped(t) && Ordered(t)
    requires var i := ChildIndex(t.keys, e.key);
      var r := InsertRec(t.kids[i], e, free);
      GoodParts(r) && EntriesOf(r.Parts()) == Inserted(Entries(t.kids[i]), e)
    ensures var r := InsertRec(t, e, free);
      GoodParts(r) && EntriesOf(r.Parts()) == Inserted(Entries(t), e)
  {
    hide Rank, Less, Inserted, Sorted, Separates, EntriesOf, Rebuild, Entries;
    var i := ChildIndex(t.keys, e.key);
    var es, r := Entries(t.kids[i]), InsertRec(t.kids[i], e, free);
    ChildBounds(t, e.key);
    Unpack(t, i);
    PartsEntries(r);
    if i > 0 {
      LessIsRank(e.key, es[0].key);
      InsertedKeeps(es, e);
    }
    Splice(t.keys, t.kids, i, r);
    SpliceEntries(t.kids, i, r.Parts());
    InsertedAround(EntriesOf(t.kids[..i]), es, EntriesOf(t.kids[i + 1..]), e);
    RebuildKeeps(t.id, t.keys[..i] + r.Seps() + t.keys[i..], t.kids[..i] + r.Parts() + t.kids[i + 1..], r.next);
  }

  /** Insertion, at every level: good parts, whose entries are the old ones with the new pair in
      its place. */
  lemma {:induction false} InsertOrdered(t: Tree, e: Entry, free: PageId)
    requires Shaped(t) && Ordered(t)
    ensures var r := InsertRec(t, e, free);
      GoodParts(r) && EntriesOf(r.Parts()) == Inserted(Entries(t), e)
    decreases t
  {
    match t
    case Leaf(id, es) => LeafInsert(es, e, id, free);
    case Branch(_, keys, kids) =>
      hide GoodParts, Separates, Less;
      ChildBounds(t, e.key);
      Unpack(t, ChildIndex(keys, e.key));
      InsertOrdered(kids[ChildIndex(keys, e.key)], e, free);
      BranchInsert(t, e, free);
  }

  // ----- insertion keeps the tree balanced -----

  lemma {:induction false} BalancedShaped(t: Tree, h: nat, root: bool)
    requires Balanced(t, h, root)
    ensures Shaped(t)
    decreases t
  {
    if t.Branch? {
      assert AllBalanced(t.kids, h - 1);
      forall i | 0 <= i < |t.kids|
        ensures Shaped(t.kids[i])
      {
        BalancedShaped(t.kids[i], h - 1, false);
      }
    }
  }

  ghost predicate BalancedResult(r: Result, h: nat, root: bool) {
    if r.split.NoSplit? then Balanced(r.left, h, root)
    else Balanced(r.left, h, false) && Balanced(r.split.right, h, false)
  }

  lemma {:induction false} InsertBalanced(t: Tree, e: Entry, free: PageId, h: nat, root: bool)
    requires Shaped(t) && Balanced(t, h, root)
    ensures BalancedResult(InsertRec(t, e, free), h, root)
    decreases t
  {
    match t
    case Leaf(_, es) => LeafBalanced(t, e, free, h, root);
    case Branch(_, keys, kids) =>
      assert AllBalanced(kids, h - 1);
      InsertBalanced(kids[ChildIndex(keys, e.key)], e, free, h - 1, false);
      BranchBalanced(t, e, free, h, root);
  }

  lemma LeafBalanced(t: Tree, e: Entry, free: PageId, h: nat, root: bool)
    requires t.Leaf? && Balanced(t, h, root)
    ensures BalancedResult(InsertRec(t, e, free), h, root)
  {
    hide Inserted;
    InsertedLength(t.entries, e);
  }

  lemma BranchBalanced(t: Tree, e: Entry, free: PageId, h: nat, root: bool)
    requires t.Branch? && Shaped(t) && Balanced(t, h, root)
    requires h > 0 && BalancedResult(InsertRec(t.kids[ChildIndex(t.keys, e.key)], e, free), h - 1, false)
    ensures BalancedResult(InsertRec(t, e, free), h, root)
  {
    hide Inserted, BalancedResult, Rebuild;
    var i := ChildIndex(t.keys, e.key);
    var r := InsertRec(t.kids[i], e, free);
    PartsBalanced(r, h - 1);
    SpliceBalanced(t.kids, i, r.Parts(), h - 1);
    RebuildBalanced(t.id, t.keys[..i] + r.Seps() + t.keys[i..], t.kids[..i] + r.Parts() + t.kids[i + 1..], r.next, h, root);
  }

  lemma PartsBalanced(r: Result, h: nat)
    requires BalancedResult(r, h, false)
    ensures AllBalanced(r.Parts(), h)
  {
  }

  lemma InsertedLength(es: seq<Entry>, e: Entry)
    ensures |Inserted(es, e)| == |es| + 1
  {
  }

  lemma SpliceBalanced(kids: seq<Tree>, i: nat, parts: seq<Tree>, h: nat)
    requires i < |kids| && AllBalanced(kids, h) && AllBalanced(parts, h)
    ensures AllBalanced(kids[..i] + parts + kids[i + 1..], h)
  {
    hide Balanced;
    var all := kids[..i] + parts + kids[i + 1..];
    forall j | 0 <= j < |all|
      ensures Balanced(all[j], h, false)
    {
      if j >= i + |parts| {
        assert all[j] == kids[j - |parts| + 1];
      } else if j >= i {
        assert all[j] == parts[j - i];
      }
    }
  }

  lemma RebuildBalanced(id: PageId, keys: seq<string>, kids: seq<Tree>, free: PageId, h: nat, root: bool)
    requires |kids| == |keys| + 1 && h > 0 && AllBalanced(kids, h - 1)
    requires 1 <= |keys| <= ORDER + 1 && (!root ==> 2 <= |keys|)
    ensures BalancedResult(Rebuild(id, keys, kids, free), h, root)
  {
  }

  ghost function Pow3(n: nat): nat {
    if n == 0 then 1 else 3 * Pow3(n - 1)
  }

  lemma {:induction false} FullBelow(t: Tree, h: nat)
    requires Balanced(t, h, false)
    ensures |Entries(t)| >= 2 * Pow3(h)
    decreases t, 1
  {
    if t.Branch? {
      FullBelowAll(t.kids, h - 1);
    }
  }

  lemma {:induction false} FullBelowAll(ts: seq<Tree>, h: nat)
    requires AllBalanced(ts, h)
    ensures |EntriesOf(ts)| >= |ts| * 2 * Pow3(h)
    decreases ts, 0
  {
    hide Pow3;
    if ts != [] {
      FullBelow(ts[0], h);
      FullBelowAll(ts[1..], h);
      var p := Pow3(h);
      assert |ts| * 2 * p == 2 * p + |ts[1..]| * 2 * p;
    }
  }

  /** A tree of height h >= 1 holds at least 4 * 3^(h-1) pairs. */
  lemma HeightBound(t: Tree, h: nat)
    requires Balanced(t, h, true) && h >= 1
    ensures |Entries(t)| >= 4 * Pow3(h - 1)
  {
    FullBelowAll(t.kids, h - 1);
  }

  // ----- the tree in a store of nodes -----

  ghost function PageSet(t: Tree): set<PageId>
    decreases t, 1
  {
    match t
    case Leaf(id, _) => {id}
    case Branch(id, _, kids) => {id} + PagesOf(kids)
  }

  ghost function PagesOf(ts: seq<Tree>): set<PageId>
    decreases ts, 0
  {
    if ts == [] then {} else PageSet(ts[0]) + PagesOf(ts[1..])
  }

  /** No page is used by two nodes. */
  ghost predicate Apart(t: Tree)
    decreases t, 1
  {
    t.Branch? ==> t.id !in PagesOf(t.kids) && AllApart(t.kids)
  }

  ghost predicate AllApart(ts: seq<Tree>)
    decreases ts, 0
  {
    ts != [] ==> Apart(ts[0]) && AllApart(ts[1..]) && PageSet(ts[0]) !! PagesOf(ts[1..])
  }

  /** The leftmost leaf. */
  ghost function First(t: Tree): PageId
    requires Shaped(t)
  {
    if t.Leaf? then t.id else First(t.kids[0])
  }

  ghost function Ids(ts: seq<Tree>): seq<PageId> {
    seq(|ts|, i requires 0 <= i < |ts| => ts[i].id)
  }

  /** The first leaf of a list of subtrees, or what comes after the list. */
  ghost function FirstOf(ts: seq<Tree>, next: PageId): PageId
    requires forall i :: 0 <= i < |ts| ==> Shaped(ts[i])
  {
    if ts == [] then next else First(ts[0])
  }

  ghost function NodeOf(t: Tree, next: PageId): Node {
    match t
    case Leaf(_, es) => LeafNode(es, next)
    case Branch(_, keys, kids) => InnerNode(keys, Ids(kids))
  }

  /** The store holds every node of t, and its leaves are chained left to right, up to `next`. */
  ghost predicate Stored(nodes: map<PageId, Node>, t: Tree, next: PageId)
    requires Shaped(t)
    decreases t, 1
  {
    && t.id in nodes && nodes[t.id] == NodeOf(t, next)
    && (t.Branch? ==> AllStored(nodes, t.kids, next))
  }

  ghost predicate AllStored(nodes: map<PageId, Node>, ts: seq<Tree>, next: PageId)
    requires forall i :: 0 <= i < |ts| ==> Shaped(ts[i])
    decreases ts, 0
  {
    ts != [] ==> Stored(nodes, ts[0], FirstOf(ts[1..], next)) && AllStored(nodes, ts[1..], next)
  }

  lemma {:induction false} PagesConcat(a: seq<Tree>, b: seq<Tree>)
    ensures PagesOf(a + b) == PagesOf(a) + PagesOf(b)
  {
    hide PageSet;
    if a == [] {
      assert a + b == b;
    } else {
      PagesConcat(a[1..], b);
      assert (a + b)[1..] == a[1..] + b;
    }
  }

  lemma {:induction false} ApartConcat(a: seq<Tree>, b: seq<Tree>)
    ensures AllApart(a + b) <==> AllApart(a) && AllApart(b) && PagesOf(a) !! PagesOf(b)
  {
    hide PageSet, Apart;
    if a == [] {
      assert a + b == b;
    } else {
      ApartConcat(a[1..], b);
      PagesConcat(a[1..], b);
      assert (a + b)[1..] == a[1..] + b;
    }
  }

  lemma {:induction false} StoredConcat(nodes: map<PageId, Node>, a: seq<Tree>, b: seq<Tree>, next: PageId)
    requires forall i :: 0 <= i < |a + b| ==> Shaped((a + b)[i])
    requires forall i :: 0 <= i < |a| ==> Shaped(a[i])
    requires forall i :: 0 <= i < |b| ==> Shaped(b[i])
    ensures AllStored(nodes, a + b, next) <==> AllStored(nodes, a, FirstOf(b, next)) && AllStored(nodes, b, next)
  {
    hide Stored, Shaped, First;
    if a == [] {
      assert a + b == b;
    } else {
      assert (a + b)[1..] == a[1..] + b;
      StoredConcat(nodes, a[1..], b, next);
    }
  }

  /** Changing pages that a tree does not use leaves it stored. */
  lemma {:induction false} StoredElsewhere(nodes: map<PageId, Node>, nodes': map<PageId, Node>, t: Tree, next: PageId)
    requires Shaped(t) && Stored(nodes, t, next)
    requires forall id :: id in PageSet(t) && id in nodes ==> id in nodes' && nodes'[id] == nodes[id]
    ensures Stored(nodes', t, next)
    decreases t, 1
  {
    if t.Branch? {
      AllStoredElsewhere(nodes, nodes', t.kids, next);
    }
  }

  lemma {:induction false} AllStoredElsewhere(
      nodes: map<PageId, Node>, nodes': map<PageId, Node>, ts: seq<Tree>, next: PageId)
    requires forall i :: 0 <= i < |ts| ==> Shaped(ts[i])
    requires AllStored(nodes, ts, next)
    requires forall id :: id in PagesOf(ts) && id in nodes ==> id in nodes' && nodes'[id] == nodes[id]
    ensures AllStored(nodes', ts, next)
    decreases ts, 0
  {
    if ts != [] {
      StoredElsewhere(nodes, nodes', ts[0], FirstOf(ts[1..], next));
      AllStoredElsewhere(nodes, nodes', ts[1..], next);
    }
  }

  // ----- insertion and pages -----

  ghost predicate AllShaped(ts: seq<Tree>) {
    forall i :: 0 <= i < |ts| ==> Shaped(ts[i])
  }

  /** `all` is `before` with the ids from a up to b. */
  ghost predicate Grown(before: set<PageId>, all: set<PageId>, a: PageId, b: PageId) {
    forall x :: x in all <==> x in before || a <= x < b
  }

  /** Every page of the subtree is still used, once; the new ones are the next free ids, at most
      one a level; the subtree keeps its own page and its leftmost leaf. */
  ghost predicate PagesKept(t: Tree, h: nat, free: PageId, r: Result)
    requires Shaped(t)
  {
    && AllShaped(r.Parts()) && AllApart(r.Parts())
    && free <= r.next <= free + h + 1
    && Grown(PageSet(t), PagesOf(r.Parts()), free, r.next)
    && r.left.id == t.id && Shaped(r.left) && First(r.left) == First(t)
  }

  ghost predicate Below(ids: set<PageId>, free: PageId) {
    forall id :: id in ids ==> id < free
  }

  lemma PartsPages(r: Result)
    ensures PagesOf(r.Parts()) == PageSet(r.left) + if r.split.Split? then PageSet(r.split.right) else {}
    ensures AllApart(r.Parts()) <==>
      Apart(r.left) && (r.split.Split? ==> Apart(r.split.right) && PageSet(r.left) !! PageSet(r.split.right))
  {
    hide PageSet, Apart;
    if r.split.Split? {
      assert r.Parts()[1..] == [r.split.right] && [r.split.right][1..] == [];
      assert PagesOf([r.split.right]) == PageSet(r.split.right);
      assert AllApart([r.split.right]) == Apart(r.split.right);
    } else {
      assert r.Parts()[1..] == [];
    }
  }

  lemma ApartAround(kids: seq<Tree>, i: nat)
    requires i < |kids| && AllApart(kids)
    ensures PagesOf(kids) == PagesOf(kids[..i]) + PageSet(kids[i]) + PagesOf(kids[i + 1..])
    ensures AllApart(kids[..i]) && Apart(kids[i]) && AllApart(kids[i + 1..])
    ensures PagesOf(kids[..i]) !! PageSet(kids[i]) !! PagesOf(kids[i + 1..])
  {
    hide PageSet, Apart;
    assert kids == kids[..i] + kids[i..] && kids[i..][1..] == kids[i + 1..];
    PagesConcat(kids[..i], kids[i..]);
    ApartConcat(kids[..i], kids[i..]);
    assert PagesOf(kids[i..]) == PageSet(kids[i]) + PagesOf(kids[i + 1..]);
  }

  lemma SplicePages(kids: seq<Tree>, i: nat, parts: seq<Tree>, a: PageId, b: PageId)
    requires i < |kids| && AllApart(kids) && AllApart(parts)
    requires Grown(PageSet(kids[i]), PagesOf(parts), a, b) && Below(PagesOf(kids), a)
    ensures AllApart(kids[..i] + parts + kids[i + 1..])
    ensures Grown(PagesOf(kids), PagesOf(kids[..i] + parts + kids[i + 1..]), a, b)
  {
    hide PageSet, Apart, PagesOf, AllApart;
    ApartAround(kids, i);
    PagesConcat(kids[..i] + parts, kids[i + 1..]);
    PagesConcat(kids[..i], parts);
    ApartConcat(kids[..i] + parts, kids[i + 1..]);
    ApartConcat(kids[..i], parts);
  }

  lemma RebuildPages(id: PageId, keys: seq<string>, kids: seq<Tree>, free: PageId)
    requires |kids| == |keys| + 1 && AllApart(kids) && id !in PagesOf(kids)
    requires Below(PagesOf(kids) + {id}, free)
    ensures var r := Rebuild(id, keys, kids, free);
      && AllApart(r.Parts()) && Grown({id} + PagesOf(kids), PagesOf(r.Parts()), free, r.next)
  {
    hide PagesOf, AllApart;
    var r, mid := Rebuild(id, keys, kids, free), |keys| / 2;
    PartsPages(r);
    if r.split.Split? {
      assert kids == kids[..mid + 1] + kids[mid + 1..];
      PagesConcat(kids[..mid + 1], kids[mid + 1..]);
      ApartConcat(kids[..mid + 1], kids[mid + 1..]);
    }
  }

  lemma LeafPages(t: Tree, e: Entry, free: PageId)
    requires t.Leaf? && t.id < free
    ensures PagesKept(t, 0, free, InsertRec(t, e, free))
  {
    hide Inserted;
    PartsPages(InsertRec(t, e, free));
  }

  lemma {:induction false} InsertPages(t: Tree, e: Entry, free: PageId, h: nat, root: bool)
    requires Shaped(t) && Balanced(t, h, root) && Apart(t) && Below(PageSet(t), free)
    ensures PagesKept(t, h, free, InsertRec(t, e, free))
    decreases t
  {
    match t
    case Leaf(_, _) => LeafPages(t, e, free);
    case Branch(id, keys, kids) =>
      hide PagesOf, AllApart, Rebuild, Below;
      var i := ChildIndex(keys, e.key);
      assert AllBalanced(kids, h - 1);
      ApartAround(kids, i);
      BelowAround(t, i, free);
      InsertPages(kids[i], e, free, h - 1, false);
      BranchPages(t, e, free, h, root);
  }

  lemma BelowAround(t: Tree, i: nat, free: PageId)
    requires t.Branch? && AllApart(t.kids) && i < |t.kids| && Below(PageSet(t), free)
    ensures Below(PageSet(t.kids[i]), free) && Below(PagesOf(t.kids), free)
  {
    ApartAround(t.kids, i);
  }

  lemma BranchGrown(t: Tree, e: Entry, free: PageId, h: nat)
    requires t.Branch? && Shaped(t) && Apart(t) && Below(PageSet(t), free) && h > 0
    requires var kid := t.kids[ChildIndex(t.keys, e.key)];
      PagesKept(kid, h - 1, free, InsertRec(kid, e, free))
    ensures var r := InsertRec(t, e, free); AllApart(r.Parts()) && Grown(PageSet(t), PagesOf(r.Parts()), free, r.next)
  {
    hide PagesOf, AllApart, Rebuild, Shaped, First, Below, Grown;
    ShapedKid(t, ChildIndex(t.keys, e.key));
    BelowAround(t, ChildIndex(t.keys, e.key), free);
    OwnPage(t, free);
    GrownStep(t, ChildIndex(t.keys, e.key), InsertRec(t.kids[ChildIndex(t.keys, e.key)], e, free), free);
  }

  lemma OwnPage(t: Tree, free: PageId)
    requires t.Branch? && Apart(t) && Below(PageSet(t), free)
    ensures t.id !in PagesOf(t.kids) && AllApart(t.kids) && t.id < free && PageSet(t) == {t.id} + PagesOf(t.kids)
  {
  }

  lemma GrownStep(t: Tree, i: nat, q: Result, free: PageId)
    requires t.Branch? && |t.kids| == |t.keys| + 1 && i < |t.kids| && free <= q.next
    requires t.id !in PagesOf(t.kids) && AllApart(t.kids) && t.id < free && Below(PagesOf(t.kids), free)
    requires AllApart(q.Parts()) && Grown(PageSet(t.kids[i]), PagesOf(q.Parts()), free, q.next)
    ensures var r := Rebuild(t.id, t.keys[..i] + q.Seps() + t.keys[i..], t.kids[..i] + q.Parts() + t.kids[i + 1..], q.next);
      AllApart(r.Parts()) && Grown({t.id} + PagesOf(t.kids), PagesOf(r.Parts()), free, r.next)
  {
    hide PagesOf, PageSet, AllApart, Rebuild;
    var keys', kids' := t.keys[..i] + q.Seps() + t.keys[i..], t.kids[..i] + q.Parts() + t.kids[i + 1..];
    SplicePages(t.kids, i, q.Parts(), free, q.next);
    RebuildPages(t.id, keys', kids', q.next);
    RebuildNext(t.id, keys', kids', q.next);
  }

  lemma RebuildNext(id: PageId, keys: seq<string>, kids: seq<Tree>, free: PageId)
    requires |kids| == |keys| + 1
    ensures free <= Rebuild(id, keys, kids, free).next <= free + 1
    ensures Rebuild(id, keys, kids, free).left.id == id
  {
  }

  lemma BranchPages(t: Tree, e: Entry, free: PageId, h: nat, root: bool)
    requires t.Branch? && Shaped(t) && Balanced(t, h, root) && Apart(t) && Below(PageSet(t), free)
    requires var kid := t.kids[ChildIndex(t.keys, e.key)];
      h > 0 && PagesKept(kid, h - 1, free, InsertRec(kid, e, free))
    ensures PagesKept(t, h, free, InsertRec(t, e, free))
  {
    hide PagesOf, PageSet, Apart, AllApart, InsertRec, Balanced, Shaped, First, Grown;
    assert h > 0;
    ShapedKid(t, ChildIndex(t.keys, e.key));
    BranchGrown(t, e, free, h);
    InsertShaped(t, e, free, h, root);
    FirstKept(t, e, free);
  }

  lemma InsertShaped(t: Tree, e: Entry, free: PageId, h: nat, root: bool)
    requires Shaped(t) && Balanced(t, h, root)
    ensures AllShaped(InsertRec(t, e, free).Parts()) && Shaped(InsertRec(t, e, free).left)
  {
    hide InsertRec, Balanced;
    InsertBalanced(t, e, free, h, root);
    var r := InsertRec(t, e, free);
    BalancedShaped(r.left, h, if r.split.NoSplit? then root else false);
    if r.split.Split? {
      BalancedShaped(r.split.right, h, false);
    }
  }

  lemma FirstKept(t: Tree, e: Entry, free: PageId)
    requires t.Branch? && Shaped(t)
    requires var i := ChildIndex(t.keys, e.key);
      var q := InsertRec(t.kids[i], e, free);
      Shaped(q.left) && First(q.left) == First(t.kids[i])
    requires Shaped(InsertRec(t, e, free).left)
    ensures First(InsertRec(t, e, free).left) == First(t)
    ensures InsertRec(t, e, free).left.id == t.id
    ensures 0 <= InsertRec(t, e, free).next - InsertRec(t.kids[ChildIndex(t.keys, e.key)], e, free).next <= 1
  {
  }

  // ----- insertion and the store -----

  /** Every node outside `ids` is as it was. */
  ghost predicate Kept(nodes: map<PageId, Node>, nodes': map<PageId, Node>, ids: set<PageId>) {
    forall x :: x in nodes && x !in ids ==> x in nodes' && nodes'[x] == nodes[x]
  }

  /** The store after the nodes at the top of the parts are saved. */
  ghost function Saved(nodes: map<PageId, Node>, r: Result, next: PageId): map<PageId, Node>
    requires AllShaped(r.Parts())
  {
    if r.split.NoSplit? then nodes[r.left.id := NodeOf(r.left, next)]
    else nodes[r.left.id := NodeOf(r.left, RightFirst(r))][r.split.right.id := NodeOf(r.split.right, next)]
  }

  ghost function RightFirst(r: Result): PageId
    requires r.split.Split? && AllShaped(r.Parts())
  {
    assert Shaped(r.Parts()[1]);
    First(r.split.right)
  }

  lemma StoredAround(nodes: map<PageId, Node>, kids: seq<Tree>, i: nat, next: PageId)
    requires i < |kids| && AllShaped(kids) && AllStored(nodes, kids, next)
    ensures AllShaped(kids[..i]) && AllShaped(kids[i + 1..]) && Shaped(kids[i])
    ensures AllStored(nodes, kids[..i], First(kids[i]))
    ensures Stored(nodes, kids[i], FirstOf(kids[i + 1..], next))
    ensures AllStored(nodes, kids[i + 1..], next)
  {
    hide Stored, Shaped;
    assert kids == kids[..i] + kids[i..] && kids[i..][1..] == kids[i + 1..];
    StoredConcat(nodes, kids[..i], kids[i..], next);
  }

  lemma SpliceStored(nodes: map<PageId, Node>, nodes': map<PageId, Node>,
                     kids: seq<Tree>, i: nat, parts: seq<Tree>, next: PageId)
    requires i < |kids| && AllShaped(kids) && AllShaped(parts) && AllApart(kids)
    requires AllStored(nodes, kids, next) && Kept(nodes, nodes', PageSet(kids[i]))
    requires AllShaped(kids[i + 1..]) && AllStored(nodes', parts, FirstOf(kids[i + 1..], next))
    requires parts != [] && First(parts[0]) == First(kids[i])
    ensures AllShaped(kids[..i] + parts + kids[i + 1..])
    ensures AllStored(nodes', kids[..i] + parts + kids[i + 1..], next)
  {
    hide Stored, Shaped, First, PageSet, Apart, AllApart, AllStored, PagesOf;
    var a, b := kids[..i], kids[i + 1..];
    StoredAround(nodes, kids, i, next);
    ApartAround(kids, i);
    AllStoredElsewhere(nodes, nodes', a, First(kids[i]));
    AllStoredElsewhere(nodes, nodes', b, next);
    SpliceShaped(a, parts, b);
    StoredConcat(nodes', parts, b, next);
    assert a + parts + b == a + (parts + b);
    StoredConcat(nodes', a, parts + b, next);
  }

  lemma SpliceShaped(a: seq<Tree>, parts: seq<Tree>, b: seq<Tree>)
    requires AllShaped(a) && AllShaped(parts) && AllShaped(b)
    ensures AllShaped(parts + b) && AllShaped(a + (parts + b)) && AllShaped(a + parts + b)
  {
    hide Shaped;
  }

  /** Saving a rebuilt branch, and its new right half if it split. */
  lemma RebuildStored(nodes: map<PageId, Node>, id: PageId, keys: seq<string>, kids: seq<Tree>, free: PageId, next: PageId)
    requires |kids| == |keys| + 1 && AllShaped(kids) && AllStored(nodes, kids, next)
    requires Below(PagesOf(kids) + {id}, free) && id !in PagesOf(kids)
    ensures AllShaped(Rebuild(id, keys, kids, free).Parts())
    ensures AllStored(Saved(nodes, Rebuild(id, keys, kids, free), next), Rebuild(id, keys, kids, free).Parts(), next)
  {
    hide PagesOf, AllStored;
    var r, mid := Rebuild(id, keys, kids, free), |keys| / 2;
    if r.split.NoSplit? {
      AllStoredElsewhere(nodes, Saved(nodes, r, next), kids, next);
      OneStored(Saved(nodes, r, next), r.left, next);
    } else {
      var a, b := kids[..mid + 1], kids[mid + 1..];
      assert kids == a + b;
      StoredConcat(nodes, a, b, next);
      PagesConcat(a, b);
      assert Shaped(r.left) && Shaped(r.split.right);
      var nodes' := Saved(nodes, r, next);
      AllStoredElsewhere(nodes, nodes', a, First(b[0]));
      AllStoredElsewhere(nodes, nodes', b, next);
      TwoStored(nodes', r.left, r.split.right, next);
    }
  }

  lemma OneStored(nodes: map<PageId, Node>, t: Tree, next: PageId)
    requires Shaped(t) && Stored(nodes, t, next)
    ensures AllStored(nodes, [t], next)
  {
    assert [t][1..] == [];
  }

  lemma TwoStored(nodes: map<PageId, Node>, t: Tree, u: Tree, next: PageId)
    requires Shaped(t) && Shaped(u) && Stored(nodes, t, First(u)) && Stored(nodes, u, next)
    ensures AllStored(nodes, [t, u], next)
  {
    OneStored(nodes, u, next);
    assert [t, u][1..] == [u];
  }

  lemma LeafStored(nodes: map<PageId, Node>, t: Tree, e: Entry, free: PageId, next: PageId)
    requires t.Leaf? && t.id < free
    ensures var r := InsertRec(t, e, free);
      AllShaped(r.Parts()) && AllStored(Saved(nodes, r, next), r.Parts(), next)
  {
    hide Inserted;
    var r := InsertRec(t, e, free);
    if r.split.NoSplit? {
      OneStored(Saved(nodes, r, next), r.left, next);
    } else {
      TwoStored(Saved(nodes, r, next), r.left, r.split.right, next);
    }
  }

  ghost predicate Fit(t: Tree, h: nat, root: bool, free: PageId) {
    Shaped(t) && Balanced(t, h, root) && Apart(t) && Below(PageSet(t), free)
  }

  lemma FitChild(t: Tree, h: nat, root: bool, free: PageId, i: nat)
    requires t.Branch? && Fit(t, h, root, free) && i < |t.kids|
    ensures h > 0 && Fit(t.kids[i], h - 1, false, free)
    ensures AllShaped(t.kids) && AllShaped(t.kids[i + 1..]) && AllApart(t.kids)
    ensures t.id !in PagesOf(t.kids) && Below(PagesOf(t.kids) + {t.id}, free)
    ensures PageSet(t.kids[i]) <= PagesOf(t.kids)
  {
    hide PagesOf, AllApart;
    assert AllBalanced(t.kids, h - 1);
    ApartAround(t.kids, i);
  }

  /** The chosen child has been inserted into (store nodes'); what the branch has to save. */
  lemma BranchStored(nodes: map<PageId, Node>, nodes': map<PageId, Node>,
                     t: Tree, e: Entry, h: nat, root: bool, free: PageId, next: PageId)
    requires t.Branch? && Fit(t, h, root, free) && Stored(nodes, t, next)
    requires var i := ChildIndex(t.keys, e.key);
      var q := InsertRec(t.kids[i], e, free);
      && AllShaped(q.Parts()) && AllShaped(t.kids[i + 1..])
      && AllStored(nodes', q.Parts(), FirstOf(t.kids[i + 1..], next))
      && Kept(nodes, nodes', PageSet(t.kids[i]))
    ensures var q, r := InsertRec(t.kids[ChildIndex(t.keys, e.key)], e, free), InsertRec(t, e, free);
      && AllShaped(r.Parts())
      && t.id in nodes' && nodes'[t.id] == NodeOf(t, next)
      && (q.split.NoSplit? ==> r.split.NoSplit? && r.next == q.next && AllStored(nodes', r.Parts(), next))
      && (q.split.Split? ==> AllStored(Saved(nodes', r, next), r.Parts(), next))
  {
    hide PagesOf, AllApart, Balanced, PageSet, Rebuild, AllStored;
    var i := ChildIndex(t.keys, e.key);
    var q := InsertRec(t.kids[i], e, free);
    var keys', kids' := t.keys[..i] + q.Seps() + t.keys[i..], t.kids[..i] + q.Parts() + t.kids[i + 1..];
    FitChild(t, h, root, free, i);
    InsertPages(t.kids[i], e, free, h - 1, false);
    SpliceStored(nodes, nodes', t.kids, i, q.Parts(), next);
    SplicePages(t.kids, i, q.Parts(), free, q.next);
    if q.split.NoSplit? {
      UnsplitStored(nodes', t, h, root, free, q, i, next);
    } else {
      RebuildStored(nodes', t.id, keys', kids', q.next, next);
    }
  }

  /** No split below: the branch's own node is already right, because the child kept its page. */
  lemma UnsplitStored(nodes: map<PageId, Node>, t: Tree, h: nat, root: bool, free: PageId, q: Result, i: nat, next: PageId)
    requires t.Branch? && Fit(t, h, root, free) && i < |t.kids| && q.split.NoSplit?
    requires Shaped(q.left) && q.left.id == t.kids[i].id
    requires t.id in nodes && nodes[t.id] == NodeOf(t, next)
    requires AllShaped(t.kids[..i] + q.Parts() + t.kids[i + 1..])
    requires AllStored(nodes, t.kids[..i] + q.Parts() + t.kids[i + 1..], next)
    ensures var r := Rebuild(t.id, t.keys[..i] + q.Seps() + t.keys[i..], t.kids[..i] + q.Parts() + t.kids[i + 1..], q.next);
      AllShaped(r.Parts()) && r.split.NoSplit? && r.next == q.next && AllStored(nodes, r.Parts(), next)
  {
    hide PagesOf, AllApart, PageSet, AllStored;
    var kids' := t.kids[..i] + q.Parts() + t.kids[i + 1..];
    assert t.keys[..i] + q.Seps() + t.keys[i..] == t.keys;
    assert kids' == t.kids[i := q.left];
    assert Ids(kids') == Ids(t.kids);
    OneStored(nodes, Branch(t.id, t.keys, kids'), next);
  }

  // ----- the whole tree -----

  /** The B+ tree invariant of a tree of height h whose pages are all below `free`. */
  ghost predicate Good(t: Tree, h: nat, free: PageId) {
    Fit(t, h, true, free) && Ordered(t)
  }

  /** insert keeps the invariant and adds exactly the new pair, after its equals. */
  lemma InsertGood(t: Tree, e: Entry, free: PageId, h: nat)
    requires Good(t, h, free)
    ensures var (t', free') := Insert(t, e, free);
      && Good(t', if InsertRec(t, e, free).split.NoSplit? then h else h + 1, free')
      && Entries(t') == Inserted(Entries(t), e)
      && free <= free' <= free + h + 2
  {
    hide Sorted, Inserted, InsertRec, PageSet, PagesOf;
    var r := InsertRec(t, e, free);
    InsertOrdered(t, e, free);
    InsertedKeeps(Entries(t), e);
    InsertBalanced(t, e, free, h, true);
    InsertPages(t, e, free, h, true);
    PartsEntries(r);
    PartsPages(r);
    if r.split.Split? {
      NewRoot(r, h);
      assert r.Parts() == [r.left, r.split.right];
    } else {
      assert Entries(r.left) == EntriesOf(r.Parts());
    }
  }

  lemma NewRoot(r: Result, h: nat)
    requires r.split.Split? && AllShaped(r.Parts()) && GoodParts(r)
    requires BalancedResult(r, h, true) && AllApart(r.Parts()) && Below(PagesOf(r.Parts()), r.next)
    requires Sorted(EntriesOf(r.Parts()))
    ensures Good(Branch(r.next, [r.split.key], r.Parts()), h + 1, r.next + 1)
  {
    PartsPages(r);
    assert Separated(r.Parts()[0]) && Separated(r.Parts()[1]);
    assert Separates([r.split.key], r.Parts());
    assert AllBalanced(r.Parts(), h);
  }

  // ----- search and range scan -----

  ghost function LeavesOf(ts: seq<Tree>): seq<Tree>
    decreases ts, 0
  {
    if ts == [] then [] else Leaves(ts[0]) + LeavesOf(ts[1..])
  }

  ghost function Leaves(t: Tree): seq<Tree>
    decreases t, 1
  {
    if t.Leaf? then [t] else LeavesOf(t.kids)
  }

  /** The leaves from the one findLeaf(k) reaches, rightwards. */
  ghost function LeavesFrom(t: Tree, k: string): (r: seq<Tree>)
    requires Shaped(t)
    ensures r != [] && r[0].Leaf?
    decreases t
  {
    if t.Leaf? then [t]
    else
      var i := ChildIndex(t.keys, k);
      LeavesFrom(t.kids[i], k) + LeavesOf(t.kids[i + 1..])
  }

  /** The entries in the leaves before that one. */
  ghost function Before(t: Tree, k: string): seq<Entry>
    requires Shaped(t)
    decreases t
  {
    if t.Leaf? then []
    else
      var i := ChildIndex(t.keys, k);
      EntriesOf(t.kids[..i]) + Before(t.kids[i], k)
  }

  lemma {:induction false} LeavesEntries(t: Tree)
    ensures EntriesOf(Leaves(t)) == Entries(t)
    decreases t, 1
  {
    if t.Leaf? {
      assert [t][1..] == [];
    } else {
      LeavesEntriesOf(t.kids);
    }
  }

  lemma {:induction false} LeavesEntriesOf(ts: seq<Tree>)
    ensures EntriesOf(LeavesOf(ts)) == EntriesOf(ts)
    decreases ts, 0
  {
    hide Entries, Leaves;
    if ts != [] {
      LeavesEntries(ts[0]);
      LeavesEntriesOf(ts[1..]);
      EntriesConcat(Leaves(ts[0]), LeavesOf(ts[1..]));
    }
  }

  /** Where k can be: everything before the leaf is <= k, everything after it is > k; and a leaf
      with entries before it starts with a key <= k. */
  ghost predicate Located(before: seq<Entry>, leaf: seq<Entry>, after: seq<Entry>, k: string) {
    && (forall j :: 0 <= j < |before| ==> !Less(k, before[j].key))
    && (forall j :: 0 <= j < |after| ==> Less(k, after[j].key))
    && (before != [] ==> leaf != [] && !Less(k, leaf[0].key))
  }

  lemma {:induction false} BeforeAndFrom(t: Tree, k: string)
    requires Shaped(t)
    ensures Entries(t) == Before(t, k) + EntriesOf(LeavesFrom(t, k))
    ensures LeavesFrom(t, k)[0].entries + EntriesOf(LeavesFrom(t, k)[1..]) == EntriesOf(LeavesFrom(t, k))
    decreases t
  {
    HeadEntries(LeavesFrom(t, k));
    LeafEntries(LeavesFrom(t, k)[0]);
    if t.Leaf? {
      NoEntries();
    } else {
      hide EntriesOf, LeavesOf;
      var i := ChildIndex(t.keys, k);
      BeforeAndFrom(t.kids[i], k);
      Around(t.kids, i);
      LeavesEntriesOf(t.kids[i + 1..]);
      EntriesConcat(LeavesFrom(t.kids[i], k), LeavesOf(t.kids[i + 1..]));
      Regroup(EntriesOf(t.kids[..i]), Before(t.kids[i], k), EntriesOf(LeavesFrom(t.kids[i], k)), EntriesOf(t.kids[i + 1..]));
    }
  }

  lemma {:induction false} FindsLeaf(t: Tree, k: string)
    requires Shaped(t) && Ordered(t)
    ensures Located(Before(t, k), LeavesFrom(t, k)[0].entries, EntriesOf(LeavesFrom(t, k)[1..]), k)
    decreases t
  {
    if t.Leaf? {
      assert [t][1..] == [];
      NoEntries();
    } else {
      var i := ChildIndex(t.keys, k);
      Unpack(t, i);
      ChildBounds(t, k);
      FindsLeaf(t.kids[i], k);
      FindsLeafBelow(t, k);
    }
  }

  lemma FindsLeafBelow(t: Tree, k: string)
    requires t.Branch? && Shaped(t) && Ordered(t)
    requires var kid := t.kids[ChildIndex(t.keys, k)];
      Located(Before(kid, k), LeavesFrom(kid, k)[0].entries, EntriesOf(LeavesFrom(kid, k)[1..]), k)
    ensures Located(Before(t, k), LeavesFrom(t, k)[0].entries, EntriesOf(LeavesFrom(t, k)[1..]), k)
  {
    hide Less, Sorted, Separates, Separated, Entries, EntriesOf, LeavesOf, Located, Shaped;
    assert Shaped(t.kids[ChildIndex(t.keys, k)]) by { ShapedKid(t, ChildIndex(t.keys, k)); }
    var i := ChildIndex(t.keys, k);
    var ls, rest := LeavesFrom(t.kids[i], k), LeavesOf(t.kids[i + 1..]);
    ChildBounds(t, k);
    BeforeAndFrom(t.kids[i], k);
    assert (ls + rest)[1..] == ls[1..] + rest;
    EntriesConcat(ls[1..], rest);
    LeavesEntriesOf(t.kids[i + 1..]);
    NoEntries();
    assert i == 0 ==> t.kids[..i] == [];
    ConcatLocated(EntriesOf(t.kids[..i]), Before(t.kids[i], k), ls[0].entries, EntriesOf(ls[1..]), EntriesOf(rest), k);
  }

  lemma ShapedKid(t: Tree, i: nat)
    requires t.Branch? && Shaped(t) && i <= |t.keys|
    ensures |t.kids| == |t.keys| + 1 && Shaped(t.kids[i])
  {
  }

  lemma Regroup(a: seq<Entry>, b: seq<Entry>, c: seq<Entry>, d: seq<Entry>)
    ensures a + (b + c) + d == (a + b) + (c + d)
  {
  }

  lemma LeafEntries(t: Tree)
    requires t.Leaf?
    ensures Entries(t) == t.entries
  {
  }

  lemma ConcatLocated(a: seq<Entry>, before: seq<Entry>, leaf: seq<Entry>, after: seq<Entry>, b: seq<Entry>, k: string)
    requires Located(before, leaf, after, k)
    requires forall j :: 0 <= j < |a| ==> !Less(k, a[j].key)
    requires forall j :: 0 <= j < |b| ==> Less(k, b[j].key)
    requires a != [] ==> var es := before + (leaf + after); es != [] && !Less(k, es[0].key)
    ensures Located(a + before, leaf, after + b, k)
  {
    hide Less;
  }

  // ----- the leaf chain -----

  /** The leaves are linked left to right by nextLeaf, the last one to `next`. */
  ghost predicate Chain(nodes: map<PageId, Node>, ls: seq<Tree>, next: PageId) {
    ls != [] ==>
      && ls[0].Leaf? && ls[0].id in nodes
      && nodes[ls[0].id] == LeafNode(ls[0].entries, if |ls| > 1 then ls[1].id else next)
      && Chain(nodes, ls[1..], next)
  }

  ghost function ChainStart(ls: seq<Tree>, next: PageId): PageId {
    if ls == [] then next else ls[0].id
  }

  lemma {:induction false} ChainConcat(nodes: map<PageId, Node>, a: seq<Tree>, b: seq<Tree>, next: PageId)
    requires Chain(nodes, a, ChainStart(b, next)) && Chain(nodes, b, next)
    ensures Chain(nodes, a + b, next)
  {
    if a == [] {
      assert a + b == b;
    } else {
      ChainConcat(nodes, a[1..], b, next);
      assert (a + b)[1..] == a[1..] + b;
    }
  }

  lemma {:induction false} LeavesFirst(t: Tree)
    requires Shaped(t)
    ensures Leaves(t) != [] && Leaves(t)[0].id == First(t)
    decreases t
  {
    if t.Branch? {
      LeavesFirst(t.kids[0]);
      assert LeavesOf(t.kids) == Leaves(t.kids[0]) + LeavesOf(t.kids[1..]);
    }
  }

  /** The nextLeaf chain is the left-to-right sequence of leaves. */
  lemma {:induction false} StoredChain(nodes: map<PageId, Node>, t: Tree, next: PageId)
    requires Shaped(t) && Stored(nodes, t, next)
    ensures Chain(nodes, Leaves(t), next)
    decreases t, 1
  {
    if t.Leaf? {
      assert [t][1..] == [];
    } else {
      AllStoredChain(nodes, t.kids, next);
    }
  }

  lemma {:induction false} AllStoredChain(nodes: map<PageId, Node>, ts: seq<Tree>, next: PageId)
    requires AllShaped(ts) && AllStored(nodes, ts, next)
    ensures Chain(nodes, LeavesOf(ts), next)
    ensures ts != [] ==> LeavesOf(ts) != [] && LeavesOf(ts)[0].id == First(ts[0])
    decreases ts, 0
  {
    if ts != [] {
      assert AllShaped(ts[1..]);
      StoredChain(nodes, ts[0], FirstOf(ts[1..], next));
      AllStoredChain(nodes, ts[1..], next);
      LeavesFirst(ts[0]);
      ChainConcat(nodes, Leaves(ts[0]), LeavesOf(ts[1..]), next);
    }
  }

  /** The same from the leaf that findLeaf reaches. */
  lemma {:induction false} ChainFrom(nodes: map<PageId, Node>, t: Tree, next: PageId, k: string)
    requires Shaped(t) && Stored(nodes, t, next)
    ensures Chain(nodes, LeavesFrom(t, k), next)
    decreases t
  {
    if t.Leaf? {
      assert [t][1..] == [];
    } else {
      var i := ChildIndex(t.keys, k);
      StoredAround(nodes, t.kids, i, next);
      ChainFrom(nodes, t.kids[i], FirstOf(t.kids[i + 1..], next), k);
      AllStoredChain(nodes, t.kids[i + 1..], next);
      ChainConcat(nodes, LeavesFrom(t.kids[i], k), LeavesOf(t.kids[i + 1..]), next);
    }
  }
}
