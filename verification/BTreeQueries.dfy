/** What search and rangeScan return, against the pairs that were inserted, and against the
    sorted map of main.cpp. */
module BTreeQueries {
  import opened BTreeModel
  import opened EntryLists
  import opened KeyOrder
  import opened Nodes
  import opened Options
  import opened Pages
  import SimpleIndex

  /** search on the leaf that findLeaf reaches. */
  ghost function Search(t: Tree, k: string): Option<string>
    requires Shaped(t)
  {
    Lookup(LeavesFrom(t, k)[0].entries, k)
  }

  /** rangeScan along the leaf chain from there on. */
  ghost function RangeScan(t: Tree, from: string, to: string): seq<Entry>
    requires Shaped(t)
  {
    Scan(EntriesOf(LeavesFrom(t, from)), from, to)
  }

  /** search is empty iff the key was never inserted, and otherwise gives a value inserted under
      it, however its copies are spread over the leaves. */
  lemma SearchIsRight(t: Tree, k: string)
    requires Shaped(t) && Ordered(t)
    ensures Search(t, k).None? <==> forall e :: e in Entries(t) ==> e.key != k
    ensures Search(t, k).Some? ==> Entry(k, Search(t, k).value) in Entries(t)
  {
    hide Less, Rank, Sorted, Separated, LeavesFrom, EntriesOf;
    var ls := LeavesFrom(t, k);
    var before, leaf, after := Before(t, k), ls[0].entries, EntriesOf(ls[1..]);
    FindsLeaf(t, k);
    BeforeAndFrom(t, k);
    if e :| e in Entries(t) && e.key == k {
      OnlyInLeaf(before, leaf, after, e);
    }
  }

  /** A key in a list so split is in the leaf, even if copies lie before it. */
  lemma OnlyInLeaf(before: seq<Entry>, leaf: seq<Entry>, after: seq<Entry>, e: Entry)
    requires Located(before, leaf, after, e.key) && Sorted(before + (leaf + after))
    requires e in before + (leaf + after)
    ensures exists x :: x in leaf && x.key == e.key
  {
    hide Less, Rank;
    LessIsRank(e.key, e.key);
    if e in before {
      assert leaf[0] in leaf;
      LessIsRank(e.key, leaf[0].key);
      assert before + (leaf + after) == before + leaf + after;
      SortedParts(before, leaf + after);
      assert (leaf + after)[0] == leaf[0];
    }
  }

  /** search gives the first pair of the scan of that one key. */
  lemma SearchIsFirst(t: Tree, k: string)
    requires Shaped(t) && Ordered(t)
    ensures var scan := RangeScan(t, k, k);
      Search(t, k) == if scan == [] then None else Some(scan[0].value)
  {
    hide Less, Rank, Sorted, Separated, LeavesFrom, EntriesOf, Entries, Lookup, Between, Scan;
    var ls := LeavesFrom(t, k);
    var before, leaf, after := Before(t, k), ls[0].entries, EntriesOf(ls[1..]);
    FindsLeaf(t, k);
    BeforeAndFrom(t, k);
    SortedParts(before, leaf + after);
    ScanIsBetween(leaf + after, k, k);
    BetweenConcat(leaf, after, k, k);
    PastRange(after, k, k);
    LookupIsFirst(leaf, k);
    assert Between(leaf, k, k) + [] == Between(leaf, k, k);
  }

  lemma {:induction false} LookupIsFirst(es: seq<Entry>, k: string)
    ensures var copies := Between(es, k, k);
      Lookup(es, k) == if copies == [] then None else Some(copies[0].value)
  {
    hide Less, Rank;
    if es != [] {
      LessIsRank(k, es[0].key);
      LessIsRank(es[0].key, k);
      LookupIsFirst(es[1..], k);
    }
  }

  /** With distinct keys search is the sorted-map lookup. */
  lemma SearchIsLookup(t: Tree, k: string)
    requires Shaped(t) && Ordered(t) && StrictlySorted(Entries(t))
    ensures Search(t, k) == Lookup(Entries(t), k)
  {
    hide Less, Rank, Sorted, Separated, LeavesFrom, EntriesOf, Entries, StrictlySorted;
    SearchIsRight(t, k);
    if Search(t, k).Some? {
      OneValue(Entries(t), k, Search(t, k).value, Lookup(Entries(t), k).value);
    }
  }

  lemma OneValue(es: seq<Entry>, k: string, v: string, w: string)
    requires StrictlySorted(es) && Entry(k, v) in es && Entry(k, w) in es
    ensures v == w
  {
    hide Rank;
    var i :| 0 <= i < |es| && es[i] == Entry(k, v);
    var j :| 0 <= j < |es| && es[j] == Entry(k, w);
  }

  /** Exactly when rangeScan returns every pair in [from, to]: unless the range is empty, no copy
      of `from` may lie in a leaf before the one that findLeaf(from) reaches. */
  lemma RangeScanExact(t: Tree, from: string, to: string)
    requires Shaped(t) && Ordered(t)
    ensures RangeScan(t, from, to) == Between(Entries(t), from, to)
      <==> Less(to, from) || forall e :: e in Before(t, from) ==> e.key != from
  {
    hide Less, Rank, Sorted, Separated, LeavesFrom, EntriesOf, Entries;
    var before, rest := Before(t, from), EntriesOf(LeavesFrom(t, from));
    FindsLeaf(t, from);
    BeforeAndFrom(t, from);
    SortedParts(before, rest);
    ScanIsBetween(rest, from, to);
    BetweenConcat(before, rest, from, to);
    BeforeBetween(before, from, to);
  }

  /** Among pairs with keys <= from only copies of `from` are in range. */
  lemma {:induction false} BeforeBetween(before: seq<Entry>, from: string, to: string)
    requires forall j :: 0 <= j < |before| ==> !Less(from, before[j].key)
    ensures Between(before, from, to) == [] <==> Less(to, from) || forall e :: e in before ==> e.key != from
  {
    hide Less, Rank;
    if before != [] {
      var k := before[0].key;
      LessIsRank(from, k);
      LessIsRank(k, from);
      LessIsRank(to, k);
      LessIsRank(to, from);
      BeforeBetween(before[1..], from, to);
    }
  }

  /** What is missed is exactly the copies of `from` in earlier leaves. */
  lemma RangeScanMisses(t: Tree, from: string, to: string)
    requires Shaped(t) && Ordered(t)
    ensures Between(Entries(t), from, to) == Between(Before(t, from), from, to) + RangeScan(t, from, to)
    ensures forall e :: e in Between(Before(t, from), from, to) ==> e.key == from
  {
    hide Less, Rank, Sorted, Separated, LeavesFrom, EntriesOf, Entries;
    var before, rest := Before(t, from), EntriesOf(LeavesFrom(t, from));
    FindsLeaf(t, from);
    BeforeAndFrom(t, from);
    SortedParts(before, rest);
    ScanIsBetween(rest, from, to);
    BetweenConcat(before, rest, from, to);
    forall e | e in Between(before, from, to)
      ensures e.key == from
    {
      BetweenIn(before, from, to, e);
      LessIsRank(from, e.key);
      LessIsRank(e.key, from);
    }
  }

  lemma {:induction false} BetweenIn(es: seq<Entry>, from: string, to: string, e: Entry)
    requires e in Between(es, from, to)
    ensures e in es && InRange(e.key, from, to)
  {
    hide InRange;
    if e !in (if InRange(es[0].key, from, to) then [es[0]] else []) {
      BetweenIn(es[1..], from, to, e);
    }
  }

  /** Distinct keys suffice. */
  lemma RangeScanDistinct(t: Tree, from: string, to: string)
    requires Shaped(t) && Ordered(t) && StrictlySorted(Entries(t))
    ensures RangeScan(t, from, to) == Between(Entries(t), from, to)
  {
    hide Less, Rank, Separated, LeavesFrom, EntriesOf, Entries;
    var before, rest := Before(t, from), EntriesOf(LeavesFrom(t, from));
    FindsLeaf(t, from);
    BeforeAndFrom(t, from);
    forall i | 0 <= i < |before|
      ensures before[i].key != from
    {
      var leaf := LeavesFrom(t, from)[0].entries;
      LessIsRank(from, leaf[0].key);
      assert Entries(t)[|before|] == rest[0] == leaf[0];
      assert Entries(t)[i] == before[i];
    }
    RangeScanExact(t, from, to);
  }

  /** So does a single pair under `from`, whatever other keys repeat: a copy that is skipped lies
      before another one in the leaf that is reached. */
  lemma RangeScanOnce(t: Tree, from: string, to: string)
    requires Shaped(t) && Ordered(t) && |Between(Entries(t), from, from)| <= 1
    ensures RangeScan(t, from, to) == Between(Entries(t), from, to)
  {
    hide Less, Rank, Sorted, Separated, LeavesFrom, EntriesOf, Entries, Between;
    var before, rest := Before(t, from), EntriesOf(LeavesFrom(t, from));
    var leaf := LeavesFrom(t, from)[0].entries;
    FindsLeaf(t, from);
    BeforeAndFrom(t, from);
    RangeScanExact(t, from, to);
    BetweenConcat(before, rest, from, from);
    forall e | e in before
      ensures e.key != from
    {
      SortedParts(before, rest);
      LessIsRank(e.key, leaf[0].key);
      LessIsRank(leaf[0].key, e.key);
      LessIsRank(from, leaf[0].key);
      assert rest[0] == leaf[0];
      if e.key == from {
        HasCopy(before, e);
        HasCopy(rest, leaf[0]);
      }
    }
  }

  lemma {:induction false} HasCopy(es: seq<Entry>, e: Entry)
    requires e in es
    ensures |Between(es, e.key, e.key)| >= 1
  {
    hide Less;
    LessIsRank(e.key, e.key);
    if es[0] != e {
      HasCopy(es[1..], e);
    }
  }

  // ----- with duplicates a range scan can miss copies of `from` -----

  lemma {:induction false} AppendEqual(es: seq<Entry>, e: Entry)
    requires forall x :: x in es ==> x.key == e.key
    ensures Inserted(es, e) == es + [e]
  {
    hide Less;
    LessIsRank(e.key, e.key);
    if es != [] {
      assert es[|es| - 1] in es;
    }
  }

  /** Five pairs under one key, inserted into an empty tree: the root leaf splits, and the scan of
      exactly that key starts at the right half. */
  lemma DuplicateScanMisses(k: string, v: seq<string>)
    requires |v| == 5
    ensures var t0 := Leaf(0, []);
      var t1 := Insert(t0, Entry(k, v[0]), 1).0;
      var t2 := Insert(t1, Entry(k, v[1]), 1).0;
      var t3 := Insert(t2, Entry(k, v[2]), 1).0;
      var t4 := Insert(t3, Entry(k, v[3]), 1).0;
      var t5 := Insert(t4, Entry(k, v[4]), 1).0;
      && Shaped(t5)
      && RangeScan(t5, k, k) == [Entry(k, v[2]), Entry(k, v[3]), Entry(k, v[4])]
      && Between(Entries(t5), k, k)
         == [Entry(k, v[0]), Entry(k, v[1]), Entry(k, v[2]), Entry(k, v[3]), Entry(k, v[4])]
  {
    hide Less, RangeScan, Insert, Between, Entries, Shaped;
    var es := seq(5, i requires 0 <= i < 5 => Entry(k, v[i]));
    FiveEqual(k, v, es);
    TwoLeaves(es, k);
    assert es[..0] == [];
    assert es == [Entry(k, v[0]), Entry(k, v[1]), Entry(k, v[2]), Entry(k, v[3]), Entry(k, v[4])];
    assert es[2..] == [Entry(k, v[2]), Entry(k, v[3]), Entry(k, v[4])];
  }

  lemma TwoLeaves(es: seq<Entry>, k: string)
    requires |es| == 5 && forall e :: e in es ==> e.key == k
    ensures var t := Branch(2, [k], [Leaf(0, es[..2]), Leaf(1, es[2..])]);
            Shaped(t) && RangeScan(t, k, k) == es[2..] && Between(Entries(t), k, k) == es
  {
    hide Less, Scan, Between;
    LessIsRank(k, k);
    var left, right := Leaf(0, es[..2]), Leaf(1, es[2..]);
    var t := Branch(2, [k], [left, right]);
    AllEqual(es[2..], k);
    AllEqual(es, k);
    assert [k][1..] == [] && [right][1..] == [] && t.kids[2..] == [] && t.kids[1..] == [right];
    assert ChildIndex([k], k) == 1;
    assert LeavesFrom(t, k) == [right];
    assert EntriesOf([right]) == es[2..];
    assert Entries(t) == Entries(left) + EntriesOf([right]);
    assert es[..2] + es[2..] == es;
  }

  lemma {:induction false} AllEqual(es: seq<Entry>, k: string)
    requires forall e :: e in es ==> e.key == k
    ensures Scan(es, k, k) == es && Between(es, k, k) == es
  {
    hide Less;
    LessIsRank(k, k);
    if es != [] {
      AllEqual(es[1..], k);
      assert es == [es[0]] + es[1..];
    }
  }

  lemma FiveEqual(k: string, v: seq<string>, es: seq<Entry>)
    requires |v| == |es| == 5 && forall i :: 0 <= i < 5 ==> es[i] == Entry(k, v[i])
    ensures var t4 := Leaf(0, es[..4]);
      && Insert(Leaf(0, []), es[0], 1).0 == Leaf(0, es[..1])
      && Insert(Leaf(0, es[..1]), es[1], 1).0 == Leaf(0, es[..2])
      && Insert(Leaf(0, es[..2]), es[2], 1).0 == Leaf(0, es[..3])
      && Insert(Leaf(0, es[..3]), es[3], 1).0 == t4
      && Insert(t4, es[4], 1).0 == Branch(2, [k], [Leaf(0, es[..2]), Leaf(1, es[2..])])
  {
    hide Inserted;
    forall i | 0 <= i < 5
      ensures Inserted(es[..i], es[i]) == es[..i + 1]
    {
      AppendEqual(es[..i], es[i]);
    }
    assert es[..0] == [] && es[..5] == es;
  }

  // ----- runs -----

  /** The index after some inserts: its tree, the next free page, and its height. */
  datatype Index = Index(tree: Tree, free: PageId, height: nat)

  ghost predicate GoodIndex(x: Index) {
    Good(x.tree, x.height, x.free)
  }

  /** One insert. */
  ghost function Grow(x: Index, e: Entry): (y: Index)
    requires GoodIndex(x)
    ensures GoodIndex(y)
  {
    InsertGood(x.tree, e, x.free, x.height);
    var (t, free) := Insert(x.tree, e, x.free);
    Index(t, free, if InsertRec(x.tree, e, x.free).split.NoSplit? then x.height else x.height + 1)
  }

  /** The pairs of ps inserted, in order, into a new tree whose root leaf is page start. */
  ghost function TreeAfter(start: PageId, ps: seq<Entry>): (x: Index)
    ensures GoodIndex(x)
  {
    if ps == [] then EmptyGood(start); Index(Leaf(start, []), start + 1, 0)
    else Grow(TreeAfter(start, ps[..|ps| - 1]), ps[|ps| - 1])
  }

  lemma EmptyGood(start: PageId)
    ensures GoodIndex(Index(Leaf(start, []), start + 1, 0))
  {
  }

  /** Each pair put at its sorted place after its equals. */
  ghost function InsertedAll(ps: seq<Entry>): seq<Entry> {
    if ps == [] then [] else Inserted(InsertedAll(ps[..|ps| - 1]), ps[|ps| - 1])
  }

  /** What the tree holds after a run. */
  lemma {:induction false} TreeRun(start: PageId, ps: seq<Entry>)
    ensures Entries(TreeAfter(start, ps).tree) == InsertedAll(ps)
  {
    hide Good, Inserted, Insert, InsertRec;
    if ps != [] {
      var front, e := ps[..|ps| - 1], ps[|ps| - 1];
      TreeRun(start, front);
      var x := TreeAfter(start, front);
      InsertGood(x.tree, e, x.free, x.height);
    }
  }

  /** The same for SimpleIndex. */
  ghost function IndexRun(ps: seq<Entry>): seq<Entry> {
    if ps == [] then [] else SimpleIndex.Put(IndexRun(ps[..|ps| - 1]), ps[|ps| - 1])
  }

  ghost predicate DistinctKeys(ps: seq<Entry>) {
    forall i, j :: 0 <= i < j < |ps| ==> ps[i].key != ps[j].key
  }

  lemma {:induction false} InsertedAllSorts(ps: seq<Entry>)
    ensures Sorted(InsertedAll(ps)) && multiset(InsertedAll(ps)) == multiset(ps)
  {
    hide Sorted, Inserted;
    if ps == [] {
      NothingSorted();
    } else {
      var front, e := ps[..|ps| - 1], ps[|ps| - 1];
      InsertedAllSorts(front);
      InsertedKeeps(InsertedAll(front), e);
      assert ps == front + [e];
    }
  }

  lemma NothingSorted()
    ensures Sorted([])
  {
  }

  lemma {:induction false} InsertedAllStable(ps: seq<Entry>, k: string)
    ensures Between(InsertedAll(ps), k, k) == Between(ps, k, k)
  {
    if ps != [] {
      var front, e := ps[..|ps| - 1], ps[|ps| - 1];
      InsertedAllStable(front, k);
      InsertedAllSorts(front);
      InsertedLast(InsertedAll(front), e, k);
      assert ps == front + [e];
      BetweenConcat(front, [e], k, k);
    }
  }

  lemma InsertedLast(es: seq<Entry>, e: Entry, k: string)
    requires Sorted(es)
    ensures Between(Inserted(es, e), k, k) == Between(es, k, k) + Between([e], k, k)
  {
    hide Less, Rank, InsertPos, Between;
    var p := InsertPos(es, e.key);
    PosSplits(es, e.key);
    assert es == es[..p] + es[p..];
    BetweenConcat(es[..p], es[p..], k, k);
    BetweenConcat(es[..p] + [e], es[p..], k, k);
    BetweenConcat(es[..p], [e], k, k);
    LessIsRank(k, e.key);
    LessIsRank(e.key, k);
    if e.key == k {
      forall x | x in es[p..]
        ensures Less(k, x.key)
      {
        LessIsRank(k, x.key);
      }
      PastRange(es[p..], k, k);
    } else {
      OtherKey(e, k);
    }
  }

  lemma OtherKey(e: Entry, k: string)
    requires e.key != k
    ensures Between([e], k, k) == []
  {
    hide Less, Rank;
    LessIsRank(k, e.key);
    LessIsRank(e.key, k);
  }

  /** With distinct keys the pairs are the sorted map's. */
  lemma {:induction false} RunsAgree(ps: seq<Entry>)
    requires DistinctKeys(ps)
    ensures InsertedAll(ps) == IndexRun(ps) && StrictlySorted(InsertedAll(ps))
  {
    hide Less, Rank, StrictlySorted, Inserted;
    if ps == [] {
      NothingStrict();
    } else {
      var front, e := ps[..|ps| - 1], ps[|ps| - 1];
      RunsAgree(front);
      InsertedAllSorts(front);
      forall x | x in InsertedAll(front)
        ensures x.key != e.key
      {
        assert x in multiset(InsertedAll(front));
        assert x in front;
      }
      PutIsInserted(InsertedAll(front), e);
      SimpleIndex.PutKeepsSorted(InsertedAll(front), e);
    }
  }

  lemma NothingStrict()
    ensures StrictlySorted([])
  {
  }

  lemma PutIsInserted(es: seq<Entry>, e: Entry)
    requires StrictlySorted(es) && forall x :: x in es ==> x.key != e.key
    ensures SimpleIndex.Put(es, e) == Inserted(es, e)
  {
    hide Less, Rank, InsertPos, SimpleIndex.LowerBound;
    SimpleIndex.LowerBoundSplits(es, e.key);
    var p := SimpleIndex.LowerBound(es, e.key);
    if p < |es| {
      LessIsRank(e.key, es[p].key);
      assert es[p] in es;
    }
    PosIs(es, e.key, p);
  }

  /** After any run, duplicates included, the tree holds exactly the inserted pairs, sorted by key. */
  lemma TreeRunSorts(start: PageId, ps: seq<Entry>)
    ensures var t := TreeAfter(start, ps).tree;
      Shaped(t) && Sorted(Entries(t)) && multiset(Entries(t)) == multiset(ps)
  {
    hide Entries, Sorted, InsertedAll;
    TreeRun(start, ps);
    InsertedAllSorts(ps);
  }

  /** The pairs inserted under one key stay in the order of their insertion. */
  lemma TreeRunStable(start: PageId, ps: seq<Entry>, k: string)
    ensures Between(Entries(TreeAfter(start, ps).tree), k, k) == Between(ps, k, k)
  {
    TreeRun(start, ps);
    InsertedAllStable(ps, k);
  }

  /** A search after any run: nothing iff the key was not inserted, else a value inserted under it. */
  lemma TreeRunSearch(start: PageId, ps: seq<Entry>, k: string)
    ensures var r := Search(TreeAfter(start, ps).tree, k);
      && (r.None? <==> forall e :: e in ps ==> e.key != k)
      && (r.Some? ==> Entry(k, r.value) in ps)
  {
    TreeRun(start, ps);
    RunAnswers(TreeAfter(start, ps).tree, ps, k);
  }

  /** After any run the scan of one key gives the pairs inserted under it, in the order of their
      insertion, but for some of the first; and a search gives the oldest value that the scan gives. */
  lemma TreeRunOldest(start: PageId, ps: seq<Entry>, k: string)
    ensures var t, copies := TreeAfter(start, ps).tree, Between(ps, k, k);
      var scan := RangeScan(t, k, k);
      && |scan| <= |copies| && scan == copies[|copies| - |scan|..] && (copies != [] ==> scan != [])
      && Search(t, k) == if copies == [] then None else Some(copies[|copies| - |scan|].value)
  {
    hide Entries, Search, RangeScan, Sorted, Separated, Between;
    var t := TreeAfter(start, ps).tree;
    TreeRun(start, ps);
    InsertedAllStable(ps, k);
    RangeScanMisses(t, k, k);
    SearchIsFirst(t, k);
    TreeRunSearch(start, ps, k);
    if Between(ps, k, k) != [] {
      BetweenIn(ps, k, k, Between(ps, k, k)[0]);
      SameKey(Between(ps, k, k)[0].key, k);
    }
  }

  lemma SameKey(k: string, x: string)
    requires InRange(k, x, x)
    ensures k == x
  {
    hide Less, Rank;
    LessIsRank(k, x);
    LessIsRank(x, k);
  }

  lemma RunAnswers(t: Tree, ps: seq<Entry>, k: string)
    requires Shaped(t) && Ordered(t) && Entries(t) == InsertedAll(ps)
    ensures var r := Search(t, k);
      && (r.None? <==> forall e :: e in ps ==> e.key != k)
      && (r.Some? ==> Entry(k, r.value) in ps)
    ensures DistinctKeys(ps) ==> Search(t, k) == Lookup(IndexRun(ps), k)
  {
    hide Entries, Search, Sorted, InsertedAll, StrictlySorted, Separated, DistinctKeys;
    InsertedAllSorts(ps);
    SearchIsRight(t, k);
    forall e
      ensures e in Entries(t) <==> e in ps
    {
      assert e in Entries(t) <==> e in multiset(Entries(t));
    }
    if DistinctKeys(ps) {
      RunsAgree(ps);
      SearchIsLookup(t, k);
    }
  }

  /** A scan after any run in which at most one pair was inserted under `from`. */
  lemma TreeRunScan(start: PageId, ps: seq<Entry>, from: string, to: string)
    requires |Between(ps, from, from)| <= 1
    ensures RangeScan(TreeAfter(start, ps).tree, from, to) == Between(InsertedAll(ps), from, to)
  {
    hide RangeScan, Between, Entries, Sorted, Separated;
    TreeRun(start, ps);
    InsertedAllStable(ps, from);
    RangeScanOnce(TreeAfter(start, ps).tree, from, to);
  }

  /** After every run of distinct-key inserts tree and SimpleIndex answer alike: each range, also
      an empty one with from > to, and each lookup. */
  lemma TreeMatchesIndex(start: PageId, ps: seq<Entry>, from: string, to: string, k: string)
    requires DistinctKeys(ps)
    ensures var t := TreeAfter(start, ps).tree;
      && RangeScan(t, from, to) == Between(IndexRun(ps), from, to)
      && Search(t, k) == Lookup(IndexRun(ps), k)
      && (Less(to, from) ==> RangeScan(t, from, to) == [])
  {
    hide Less, Rank, Separated, Entries, Search, RangeScan;
    var t := TreeAfter(start, ps).tree;
    TreeRun(start, ps);
    RunsAgree(ps);
    RunAnswers(t, ps, k);
    RangeScanDistinct(t, from, to);
    if Less(to, from) {
      EmptyRange(IndexRun(ps), from, to);
    }
  }

  lemma {:induction false} EmptyRange(es: seq<Entry>, from: string, to: string)
    requires Less(to, from)
    ensures Between(es, from, to) == []
  {
    hide Less, Rank;
    if es != [] {
      LessIsRank(to, from);
      LessIsRank(es[0].key, from);
      LessIsRank(to, es[0].key);
      EmptyRange(es[1..], from, to);
    }
  }
}
