/** BTreeNode: the in-memory node with its fixed arrays, shifted and filled in place. */
module BTreeNode {
  import opened BTreeModel
  import opened KeyOrder
  import opened NodeCodec
  import opened Nodes
  import opened Options
  import opened Pages
  import Decimal

  lemma PosStep(es: seq<Entry>, k: string, pos: nat)
    requires 0 < pos <= |es| && Less(k, es[pos - 1].key)
    ensures InsertPos(es[..pos], k) == InsertPos(es[..pos - 1], k)
  {
    assert es[..pos][..pos - 1] == es[..pos - 1];
  }

  lemma PosStop(es: seq<Entry>, k: string, pos: nat)
    requires pos <= |es| && (pos > 0 ==> !Less(k, es[pos - 1].key))
    ensures InsertPos(es[..pos], k) == pos
  {
  }

  /** A list whose tail was shifted right by one, with x in the gap. */
  lemma Opened<T>(before: seq<T>, after: seq<T>, i: nat, x: T)
    requires i <= |before| && |after| == |before| + 1 && after[i] == x
    requires forall j :: 0 <= j < |after| && j != i ==> after[j] == before[if j < i then j else j - 1]
    ensures after == before[..i] + [x] + before[i..]
  {
  }

  /** The pairs in two arrays, those from place pos on shifted right by one. */
  ghost predicate Shifted(ks: seq<string>, vs: seq<string>, es: seq<Entry>, pos: nat) {
    && |ks| == |vs| && pos <= |es| < |ks|
    && (forall j :: 0 <= j <= |es| && j != pos ==> ks[j] == es[if j < pos then j else j - 1].key)
    && (forall j :: 0 <= j <= |es| && j != pos ==> vs[j] == es[if j < pos then j else j - 1].value)
  }

  lemma ShiftOne(ks: seq<string>, vs: seq<string>, es: seq<Entry>, pos: nat)
    requires Shifted(ks, vs, es, pos) && pos > 0
    ensures Shifted(ks[pos := ks[pos - 1]], vs[pos := vs[pos - 1]], es, pos - 1)
  {
  }

  lemma ShiftDone(ks: seq<string>, vs: seq<string>, es: seq<Entry>, pos: nat, e: Entry)
    requires Shifted(ks, vs, es, pos)
    ensures Zip(ks[pos := e.key][..|es| + 1], vs[pos := e.value][..|es| + 1]) == es[..pos] + [e] + es[pos..]
  {
    Opened(es, Zip(ks[pos := e.key][..|es| + 1], vs[pos := e.value][..|es| + 1]), pos, e);
  }

  lemma ShiftStart(ks: seq<string>, vs: seq<string>, n: nat)
    requires |ks| == |vs| && n < |ks|
    ensures Shifted(ks, vs, Zip(ks[..n], vs[..n]), n)
  {
  }

  lemma ShiftedAt(ks: seq<string>, vs: seq<string>, es: seq<Entry>, pos: nat)
    requires Shifted(ks, vs, es, pos)
    ensures |ks| == |vs| && pos <= |es| < |ks| && (pos > 0 ==> ks[pos - 1] == es[pos - 1].key)
  {
  }

  ghost function Chained(n: Node, next: PageId): Node {
    if n.LeafNode? then n.(next := next) else n
  }

  lemma HalvesChained(n: Node, any: PageId, next: PageId)
    requires Count(n) > 0 && (n.InnerNode? ==> |n.children| == |n.keys| + 1)
    ensures var (a, k, b) := Halves(n, any);
      (Chained(a, next), k, b) == Halves(n, next)
  {
  }

  lemma AddLine(ws: seq<string>, w: string)
    ensures Lines(ws + [w]) == Lines(ws) + w + "\n"
  {
    LinesConcat(ws, [w]);
    LinesOne(w);
  }

  class BTreeNode {
    var isLeaf: bool
    var keyCount: nat
    const keys: array<string> // ORDER + 1 places
    const children: array<PageId> // ORDER + 2 places
    const values: array<string> // ORDER + 1 places
    var nextLeaf: PageId

    ghost predicate Valid()
      reads this
    {
      && keys.Length == values.Length == ORDER + 1 && children.Length == ORDER + 2
      && keys != values
      && keyCount <= ORDER + 1
    }

    ghost function Pairs(): (es: seq<Entry>)
      requires Valid()
      reads this, keys, values
    {
      Zip(keys[..keyCount], values[..keyCount])
    }

    /** The node as a value: the first keyCount places. */
    ghost function Abs(): Node
      requires Valid()
      reads this, keys, children, values
    {
      if isLeaf then LeafNode(Pairs(), nextLeaf)
      else InnerNode(keys[..keyCount], children[..keyCount + 1])
    }

    /** A node as its members' initialisers leave it: an empty leaf. */
    constructor ()
      ensures Valid() && fresh(keys) && fresh(children) && fresh(values)
      ensures isLeaf && keyCount == 0 && nextLeaf == INVALID_PAGE_ID
      ensures Abs() == LeafNode([], INVALID_PAGE_ID)
    {
      isLeaf, keyCount, nextLeaf := true, 0, INVALID_PAGE_ID;
      keys := new string[ORDER + 1](_ => "");
      values := new string[ORDER + 1](_ => "");
      children := new PageId[ORDER + 2](_ => 0);
    }

    /** Shifts the greater pairs one place right and stores the new pair. */
    method InsertPair(key: string, value: string)
      requires Valid() && isLeaf && keyCount <= ORDER
      modifies this`keyCount, keys, values
      ensures Valid() && keyCount == old(keyCount) + 1
      ensures Pairs() == Inserted(old(Pairs()), Entry(key, value))
    {
      hide Less, InsertPos, Shifted, Zip;
      ghost var es := Pairs();
      var pos := keyCount;
      assert es[..pos] == es;
      ShiftStart(keys[..], values[..], keyCount);
      assert keys[..][..keyCount] == keys[..keyCount] && values[..][..keyCount] == values[..keyCount];
      ShiftedAt(keys[..], values[..], es, pos);
      while pos > 0 && Less(key, keys[pos - 1])
        invariant pos <= keyCount == |es| && Shifted(keys[..], values[..], es, pos)
        invariant pos > 0 ==> keys[pos - 1] == es[pos - 1].key
        invariant InsertPos(es, key) == InsertPos(es[..pos], key)
      {
        PosStep(es, key, pos);
        ShiftOne(keys[..], values[..], es, pos);
        ShiftPlace(pos);
        pos := pos - 1;
        ShiftedAt(keys[..], values[..], es, pos);
      }
      PosStop(es, key, pos);
      ShiftDone(keys[..], values[..], es, pos, Entry(key, value));
      StorePlace(pos, key, value);
      keyCount := keyCount + 1;
      assert keys[..][..keyCount] == keys[..keyCount] && values[..][..keyCount] == values[..keyCount];
    }

    method ShiftPlace(pos: nat)
      requires Valid() && 0 < pos <= ORDER
      modifies keys, values
      ensures keys[..] == old(keys[..])[pos := old(keys[pos - 1])]
      ensures values[..] == old(values[..])[pos := old(values[pos - 1])]
    {
      keys[pos] := keys[pos - 1];
      values[pos] := values[pos - 1];
    }

    method StorePlace(pos: nat, key: string, value: string)
      requires Valid() && pos <= ORDER
      modifies keys, values
      ensures keys[..] == old(keys[..])[pos := key] && values[..] == old(values[..])[pos := value]
    {
      keys[pos] := key;
      values[pos] := value;
    }

    /** The child to follow for a key. */
    method FindChild(key: string) returns (i: nat)
      requires Valid()
      ensures i == ChildIndex(keys[..keyCount], key)
    {
      hide Less;
      ghost var ks := keys[..keyCount];
      i := 0;
      assert ks[0..] == ks;
      while i < keyCount && !Less(key, keys[i])
        invariant i <= keyCount == |ks|
        invariant ChildIndex(ks, key) == i + ChildIndex(ks[i..], key)
      {
        assert ks[i..][1..] == ks[i + 1..];
        i := i + 1;
      }
    }

    /** Shifts keys from i on, and children from i + 1 on, one place right. */
    method OpenGap(i: nat)
      requires Valid() && keyCount <= ORDER && i <= keyCount
      modifies keys, children
      ensures forall j :: 0 <= j <= keyCount && j != i ==> keys[j] == old(keys[if j < i then j else j - 1])
      ensures forall j :: 0 <= j <= keyCount + 1 && j != i + 1 ==> children[j] == old(children[if j <= i then j else j - 1])
    {
      var pos := keyCount;
      while pos > i
        invariant i <= pos <= keyCount
        invariant forall j :: 0 <= j <= keyCount && j != pos ==> keys[j] == old(keys[if j < pos then j else j - 1])
        invariant forall j :: 0 <= j <= keyCount + 1 && j != pos + 1 ==>
          children[j] == old(children[if j <= pos then j else j - 1])
      {
        keys[pos] := keys[pos - 1];
        children[pos + 1] := children[pos];
        pos := pos - 1;
      }
    }

    /** Makes room at i and stores what child i split off. */
    method InsertChild(i: nat, key: string, page: PageId)
      requires Valid() && !isLeaf && keyCount <= ORDER && i <= keyCount
      modifies this`keyCount, keys, children
      ensures Valid() && keyCount == old(keyCount) + 1
      ensures keys[..keyCount] == old(keys[..keyCount])[..i] + [key] + old(keys[..keyCount])[i..]
      ensures children[..keyCount + 1] == old(children[..keyCount + 1])[..i + 1] + [page] + old(children[..keyCount + 1])[i + 1..]
    {
      ghost var ks, cs := keys[..keyCount], children[..keyCount + 1];
      OpenGap(i);
      keys[i] := key;
      children[i + 1] := page;
      keyCount := keyCount + 1;
      Opened(ks, keys[..keyCount], i, key);
      Opened(cs, children[..keyCount + 1], i + 1, page);
    }

    /** The leaf half of splitNode: right takes the pairs from mid on. */
    method SplitPairs(right: BTreeNode, mid: nat)
      requires Valid() && right.Valid() && isLeaf && right.isLeaf && mid <= keyCount
      requires {keys, values} !! {right.keys, right.values} && right != this
      modifies this`keyCount, right`keyCount, right.keys, right.values
      ensures Valid() && right.Valid()
      ensures Pairs() == old(Pairs())[..mid] && right.Pairs() == old(Pairs())[mid..]
    {
      ghost var es := Pairs();
      right.keyCount := keyCount - mid;
      var i := 0;
      while i < right.keyCount
        invariant i <= right.keyCount == keyCount - mid && right.Valid() && Valid()
        invariant keyCount == |es| && Pairs() == es
        invariant forall j :: 0 <= j < i ==> right.keys[j] == es[mid + j].key && right.values[j] == es[mid + j].value
      {
        assert Pairs()[mid + i] == es[mid + i];
        right.keys[i] := keys[mid + i];
        right.values[i] := values[mid + i];
        i := i + 1;
      }
      assert right.Pairs() == es[mid..];
      assert es[..mid] == Zip(keys[..mid], values[..mid]);
      keyCount := mid;
    }

    /** The internal half of splitNode: key mid is left out of both nodes. */
    method SplitChildren(right: BTreeNode, mid: nat)
      requires Valid() && right.Valid() && mid < keyCount
      requires keys != right.keys && children != right.children && right != this
      modifies this`keyCount, right`keyCount, right.keys, right.children
      ensures Valid() && right.Valid() && keyCount == mid
      ensures keys[..mid] == old(keys[..keyCount])[..mid]
      ensures children[..mid + 1] == old(children[..keyCount + 1])[..mid + 1]
      ensures right.keyCount == old(keyCount) - mid - 1
      ensures right.keys[..right.keyCount] == old(keys[..keyCount])[mid + 1..]
      ensures right.children[..right.keyCount + 1] == old(children[..keyCount + 1])[mid + 1..]
    {
      right.keyCount := keyCount - mid - 1;
      right.children[0] := children[mid + 1];
      var i := 0;
      while i < right.keyCount
        invariant i <= right.keyCount == keyCount - mid - 1 && right.Valid() && Valid()
        invariant keys[..] == old(keys[..]) && children[..] == old(children[..]) && keyCount == old(keyCount)
        invariant forall j :: 0 <= j < i ==> right.keys[j] == keys[mid + 1 + j]
        invariant forall j :: 0 <= j <= i ==> right.children[j] == children[mid + 1 + j]
      {
        right.keys[i] := keys[mid + 1 + i];
        right.children[i + 1] := children[mid + 2 + i];
        i := i + 1;
      }
      keyCount := mid;
    }

    /** Fills a new right node with the upper half; the page links are the caller's. */
    method SplitOff() returns (right: BTreeNode, key: string)
      requires Valid() && keyCount == ORDER + 1
      modifies this`keyCount
      ensures fresh(right) && fresh(right.keys) && fresh(right.children) && fresh(right.values)
      ensures Valid() && right.Valid()
      ensures (Abs(), key, right.Abs()) == Halves(old(Abs()), nextLeaf)
    {
      var mid := keyCount / 2;
      right := new BTreeNode();
      right.isLeaf := isLeaf;
      if isLeaf {
        SplitPairs(right, mid);
        right.nextLeaf := nextLeaf;
        key := right.keys[0];
      } else {
        key := keys[mid];
        SplitChildren(right, mid);
      }
    }

    /** A leaf's successor in the chain. */
    method Link(next: PageId)
      requires Valid()
      modifies this`nextLeaf
      ensures Valid() && Abs() == Chained(old(Abs()), next)
    {
      if isLeaf {
        nextLeaf := next;
      }
    }

    /** The text of the node, line by line. */
    method Serialize() returns (text: string)
      requires Valid() && (!isLeaf ==> keyCount <= ORDER + 1)
      ensures text == Encode(Abs())
    {
      hide Lines;
      ghost var ws := [if isLeaf then "L" else "I", Decimal.Format(keyCount)];
      text := (if isLeaf then "L" else "I") + "\n" + Decimal.Format(keyCount) + "\n";
      LinesTwo(ws[0], ws[1]);
      assert ws + keys[..0] == ws;
      var i := 0;
      while i < keyCount
        invariant i <= keyCount && text == Lines(ws + keys[..i])
      {
        AddLine(ws + keys[..i], keys[i]);
        assert ws + keys[..i] + [keys[i]] == ws + keys[..i + 1];
        text := text + keys[i] + "\n";
        i := i + 1;
      }
      ws := ws + keys[..keyCount];
      i := 0;
      if !isLeaf {
        assert ws + Formats(children[..0]) == ws;
        while i <= keyCount
          invariant i <= keyCount + 1 && text == Lines(ws + Formats(children[..i]))
        {
          AddLine(ws + Formats(children[..i]), Decimal.Format(children[i]));
          assert ws + Formats(children[..i]) + [Decimal.Format(children[i])] == ws + Formats(children[..i + 1]);
          text := text + Decimal.Format(children[i]) + "\n";
          i := i + 1;
        }
      } else {
        assert ws + values[..0] == ws;
        while i < keyCount
          invariant i <= keyCount && text == Lines(ws + values[..i])
        {
          AddLine(ws + values[..i], values[i]);
          assert ws + values[..i] + [values[i]] == ws + values[..i + 1];
          text := text + values[i] + "\n";
          i := i + 1;
        }
        AddLine(ws + values[..keyCount], Decimal.Format(nextLeaf));
        text := text + Decimal.Format(nextLeaf) + "\n";
        assert Keys(Pairs()) == keys[..keyCount] && Values(Pairs()) == values[..keyCount];
      }
    }

    /** Reads count words into a: `ss >> a[i]` for each i. */
    method ReadWordsInto(a: array<string>, s: string, count: nat) returns (rest: string)
      requires count <= a.Length && ReadWords(s, count).Some?
      modifies a
      ensures ReadWords(s, count) == Some((a[..count], rest))
    {
      hide ReadWord;
      ghost var (ws, end) := ReadWords(s, count).value;
      rest := s;
      var i := 0;
      while i < count
        invariant i <= count && ReadWords(rest, count - i) == Some((ws[i..], end))
        invariant a[..i] == ws[..i]
      {
        assert ws[i..][0] == ws[i] && ws[i..][1..] == ws[i + 1..];
        a[i] := ReadWord(rest).value.0;
        rest := ReadWord(rest).value.1;
        i := i + 1;
      }
      assert ws[..count] == ws && ReadWords(rest, 0) == Some(([], rest));
    }

    method ReadNumbersInto(a: array<PageId>, s: string, count: nat) returns (rest: string)
      requires count <= a.Length && ReadNumbers(s, count).Some?
      modifies a
      ensures ReadNumbers(s, count) == Some((a[..count], rest))
    {
      hide ReadNumber;
      ghost var (xs, end) := ReadNumbers(s, count).value;
      rest := s;
      var i := 0;
      while i < count
        invariant i <= count && ReadNumbers(rest, count - i) == Some((xs[i..], end))
        invariant a[..i] == xs[..i]
      {
        assert xs[i..][0] == xs[i] && xs[i..][1..] == xs[i + 1..];
        a[i] := ReadNumber(rest).value.0;
        rest := ReadNumber(rest).value.1;
        i := i + 1;
      }
      assert xs[..count] == xs && ReadNumbers(rest, 0) == Some(([], rest));
    }

    /** Fills the node from a page body; the text must be one that decodes. */
    method Deserialize(body: string)
      requires Valid() && Decode(CString(body)).Some?
      modifies this, keys, children, values
      ensures Valid() && Abs() == Decode(CString(body)).value
    {
      hide ReadWord, ReadNumber, ReadWords, ReadNumbers, CString;
      var (kind, s1) := ReadWord(CString(body)).value;
      isLeaf := kind == "L";
      var (n, s2) := ReadNumber(s1).value;
      keyCount := n;
      var s3 := ReadWordsInto(keys, s2, n);
      if !isLeaf {
        var _ := ReadNumbersInto(children, s3, n + 1);
      } else {
        var s4 := ReadWordsInto(values, s3, n);
        nextLeaf := ReadNumber(s4).value.0;
      }
    }
  }
}
