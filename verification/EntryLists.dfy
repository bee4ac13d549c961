/** Lists of (key, value) pairs: order, lookup and range queries. */
module EntryLists {
  import opened KeyOrder
  import opened Nodes
  import opened Options

  /** The value of the first pair with key k. */
  function Lookup(es: seq<Entry>, k: string): (r: Option<string>)
    ensures r.None? <==> forall e :: e in es ==> e.key != k
    ensures r.Some? ==> Entry(k, r.value) in es
  {
    if es == [] then None else if es[0].key == k then Some(es[0].value) else Lookup(es[1..], k)
  }

  /** from <= k <= to. */
  predicate InRange(k: string, from: string, to: string) {
    !Less(k, from) && !Less(to, k)
  }

  /** The pairs with keys in [from, to], in order. */
  function Between(es: seq<Entry>, from: string, to: string): seq<Entry> {
    if es == [] then []
    else (if InRange(es[0].key, from, to) then [es[0]] else []) + Between(es[1..], from, to)
  }

  /** The scanning loop: stop at the first key past `to`. */
  function Scan(es: seq<Entry>, from: string, to: string): seq<Entry> {
    if es == [] || Less(to, es[0].key) then []
    else (if Less(es[0].key, from) then [] else [es[0]]) + Scan(es[1..], from, to)
  }

  ghost predicate Sorted(es: seq<Entry>) {
    forall i, j :: 0 <= i < j < |es| ==> Rank(es[i].key) <= Rank(es[j].key)
  }

  ghost predicate StrictlySorted(es: seq<Entry>) {
    forall i, j :: 0 <= i < j < |es| ==> Rank(es[i].key) < Rank(es[j].key)
  }

  /** What lies between two keys, both included: each pair as often as it was there, in the same order. */
  lemma {:induction false} BetweenCount(es: seq<Entry>, from: string, to: string, e: Entry)
    ensures multiset(Between(es, from, to))[e] ==
            if Rank(from) <= Rank(e.key) <= Rank(to) then multiset(es)[e] else 0
  {
    hide Less, Rank;
    LessIsRank(e.key, from);
    LessIsRank(to, e.key);
    if es != [] {
      BetweenCount(es[1..], from, to, e);
      assert es == [es[0]] + es[1..];
    }
  }

  lemma {:induction false} PastRange(es: seq<Entry>, from: string, to: string)
    requires forall e :: e in es ==> Less(to, e.key)
    ensures Between(es, from, to) == []
  {
    hide Less;
    if es != [] {
      PastRange(es[1..], from, to);
    }
  }

  lemma {:induction false} BelowRange(es: seq<Entry>, from: string, to: string)
    requires forall e :: e in es ==> Less(e.key, from)
    ensures Between(es, from, to) == []
  {
    hide Less;
    if es != [] {
      BelowRange(es[1..], from, to);
    }
  }

  /** What is left of a sorted list from place `it` on, once its first key is past `to`. */
  lemma RestPastRange(es: seq<Entry>, it: nat, from: string, to: string)
    requires StrictlySorted(es) && it <= |es| && (it < |es| ==> Less(to, es[it].key))
    ensures Between(es[it..], from, to) == []
  {
    hide Less, Rank, Between;
    forall e | e in es[it..]
      ensures Less(to, e.key)
    {
      LessIsRank(to, es[it].key);
      LessIsRank(to, e.key);
    }
    PastRange(es[it..], from, to);
  }

  lemma BetweenStep(es: seq<Entry>, it: nat, from: string, to: string)
    requires it < |es|
    ensures Between(es[it..], from, to)
         == (if InRange(es[it].key, from, to) then [es[it]] else []) + Between(es[it + 1..], from, to)
  {
    hide InRange;
    assert es[it..][1..] == es[it + 1..];
  }

  lemma BetweenNone(from: string, to: string)
    ensures Between([], from, to) == []
  {
  }

  lemma BetweenFirst(es: seq<Entry>, from: string, to: string)
    requires es != []
    ensures Between(es, from, to) == (if InRange(es[0].key, from, to) then [es[0]] else []) + Between(es[1..], from, to)
  {
  }

  lemma {:induction false} BetweenConcat(a: seq<Entry>, b: seq<Entry>, from: string, to: string)
    ensures Between(a + b, from, to) == Between(a, from, to) + Between(b, from, to)
  {
    hide InRange, Between;
    if a == [] {
      assert a + b == b;
      BetweenNone(from, to);
    } else {
      BetweenConcat(a[1..], b, from, to);
      BetweenFirst(a, from, to);
      BetweenFirst(a + b, from, to);
      assert (a + b)[1..] == a[1..] + b;
    }
  }

  /** On a sorted list, stopping early misses nothing. */
  lemma {:induction false} ScanIsBetween(es: seq<Entry>, from: string, to: string)
    requires Sorted(es)
    ensures Scan(es, from, to) == Between(es, from, to)
  {
    hide Less, Rank;
    if es != [] {
      if Less(to, es[0].key) {
        forall e | e in es
          ensures Less(to, e.key)
        {
          LessIsRank(to, es[0].key);
          LessIsRank(to, e.key);
        }
        PastRange(es, from, to);
      } else {
        ScanIsBetween(es[1..], from, to);
      }
    }
  }

  lemma {:induction false} LookupConcat(a: seq<Entry>, b: seq<Entry>, k: string)
    ensures Lookup(a + b, k) == if Lookup(a, k).Some? then Lookup(a, k) else Lookup(b, k)
  {
    if a == [] {
      assert a + b == b;
    } else {
      LookupConcat(a[1..], b, k);
      assert (a + b)[0] == a[0] && (a + b)[1..] == a[1..] + b;
    }
  }
}
