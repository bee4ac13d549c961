/** SimpleIndex: the sorted map that the B-tree is meant to agree with. std::map is modelled by
    its in-order sequence of pairs. */
module SimpleIndex {
  import opened KeyOrder
  import opened EntryLists
  import opened Nodes
  import opened Options

  // ----- the map -----

  /** data.lower_bound(k): the first place whose key is not less than k. */
  function LowerBound(es: seq<Entry>, k: string): (p: nat)
    ensures p <= |es|
    ensures forall i :: 0 <= i < p ==> Less(es[i].key, k)
    ensures p < |es| ==> !Less(es[p].key, k)
  {
    if es == [] || !Less(es[0].key, k) then 0 else 1 + LowerBound(es[1..], k)
  }

  /** data[key] = value. */
  function Put(es: seq<Entry>, e: Entry): seq<Entry> {
    var p := LowerBound(es, e.key);
    if p < |es| && es[p].key == e.key then es[p := e] else es[..p] + [e] + es[p..]
  }

  lemma LowerBoundSplits(es: seq<Entry>, k: string)
    requires StrictlySorted(es)
    ensures var p := LowerBound(es, k);
      && (forall i :: 0 <= i < p ==> Rank(es[i].key) < Rank(k))
      && (forall i :: p <= i < |es| ==> Rank(k) <= Rank(es[i].key))
      && (forall i :: p < i < |es| ==> Rank(k) < Rank(es[i].key))
  {
    hide Less, Rank, LowerBound;
    var p := LowerBound(es, k);
    forall i | 0 <= i < p
      ensures Rank(es[i].key) < Rank(k)
    {
      LessIsRank(es[i].key, k);
    }
    if p < |es| {
      LessIsRank(es[p].key, k);
    }
  }

  lemma PutKeepsSorted(es: seq<Entry>, e: Entry)
    requires StrictlySorted(es)
    ensures StrictlySorted(Put(es, e))
  {
    hide Less, Rank, LowerBound;
    LowerBoundSplits(es, e.key);
    var p := LowerBound(es, e.key);
    if p < |es| {
      LessIsRank(es[p].key, e.key);
    }
  }

  /** The map law: the new key has the new value, every other key its old one. */
  lemma PutLookup(es: seq<Entry>, e: Entry, k: string)
    requires StrictlySorted(es)
    ensures Lookup(Put(es, e), k) == if k == e.key then Some(e.value) else Lookup(es, k)
  {
    hide Less, Rank, LowerBound, StrictlySorted;
    NotBelow(es, e.key);
    var p := LowerBound(es, e.key);
    var a, b := es[..p], es[p..];
    assert es == a + b;
    LookupConcat(a, b, k);
    if b != [] && b[0].key == e.key {
      assert Put(es, e) == a + ([e] + b[1..]);
      LookupConcat(a, [e] + b[1..], k);
    } else {
      LookupConcat(a, [e] + b, k);
      assert Put(es, e) == a + ([e] + b);
      assert ([e] + b)[1..] == b;
    }
  }

  lemma NotBelow(es: seq<Entry>, k: string)
    requires StrictlySorted(es)
    ensures Lookup(es[..LowerBound(es, k)], k) == None
  {
    hide Less, Rank, LowerBound;
    LowerBoundSplits(es, k);
  }

  lemma FromLowerBound(es: seq<Entry>, k: string)
    requires StrictlySorted(es)
    ensures forall i :: LowerBound(es, k) <= i < |es| ==> !Less(es[i].key, k)
  {
    hide Less, Rank, LowerBound;
    LowerBoundSplits(es, k);
    forall i | LowerBound(es, k) <= i < |es|
      ensures !Less(es[i].key, k)
    {
      LessIsRank(es[i].key, k);
    }
  }

  class SimpleIndex {
    var data: seq<Entry>

    ghost predicate Valid()
      reads this
    {
      StrictlySorted(data)
    }

    constructor ()
      ensures Valid() && data == []
    {
      data := [];
    }

    method Insert(key: string, value: string)
      requires Valid()
      modifies this
      ensures Valid() && data == Put(old(data), Entry(key, value))
    {
      PutKeepsSorted(data, Entry(key, value));
      data := Put(data, Entry(key, value));
    }

    method Search(key: string) returns (r: Option<string>)
      requires Valid()
      ensures r == Lookup(data, key)
    {
      r := Lookup(data, key);
    }

    method RangeScan(from: string, to: string) returns (result: seq<Entry>)
      requires Valid()
      ensures result == Between(data, from, to)
    {
      hide Less, Rank, LowerBound, Between, StrictlySorted;
      result := [];
      var it := LowerBound(data, from);
      FromLowerBound(data, from);
      BelowRange(data[..it], from, to);
      assert data == data[..it] + data[it..];
      BetweenConcat(data[..it], data[it..], from, to);
      while it < |data| && !Less(to, data[it].key)
        invariant it <= |data|
        invariant forall i :: it <= i < |data| ==> !Less(data[i].key, from)
        invariant Between(data, from, to) == result + Between(data[it..], from, to)
      {
        BetweenStep(data, it, from, to);
        result := result + [data[it]];
        it := it + 1;
      }
      RestPastRange(data, it, from, to);
    }
  }
}
