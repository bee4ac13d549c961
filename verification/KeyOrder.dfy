/** The order of index keys: std::string's operator<, lexicographic by byte.
    `Rank` embeds that order in the reals, so that proofs about sorted keys
    become linear arithmetic. */
module KeyOrder {

  /** a < b in the lexicographic order. */
  predicate Less(a: string, b: string) {
    if b == [] then false
    else if a == [] then true
    else a[0] < b[0] || (a[0] == b[0] && Less(a[1..], b[1..]))
  }

  /** More than every character code plus one. */
  const BASE: real := 1114113.0

  ghost function Rank(s: string): (r: real)
    ensures 0.0 <= r < 1.0
    ensures s != [] ==> 0.0 < r
  {
    if s == [] then 0.0 else ((s[0] as int + 1) as real + Rank(s[1..])) / BASE
  }

  /** The embedding is exact, so `Less` is a strict total order. */
  lemma {:induction false} LessIsRank(a: string, b: string)
    ensures Less(a, b) <==> Rank(a) < Rank(b)
    ensures Rank(a) == Rank(b) <==> a == b
  {
    if a != [] && b != [] {
      LessIsRank(a[1..], b[1..]);
      if a[0] == b[0] {
        if a[1..] == b[1..] {
          assert a == [a[0]] + a[1..] == b;
        }
      }
    }
  }

  /** What that order is: a proper prefix comes first, and otherwise the first place decides at which
      the texts differ. */
  lemma {:induction false} LessIff(a: string, b: string)
    ensures Less(a, b) <==> a < b || exists i :: DiffersUp(a, b, i)
  {
    if a != [] && b != [] {
      LessIff(a[1..], b[1..]);
      if a[0] == b[0] {
        DiffersLater(a, b);
      } else {
        assert DiffersUp(a, b, 0) <==> a[0] < b[0];
      }
    }
  }

  predicate DiffersUp(a: string, b: string, i: int) {
    0 <= i < |a| && i < |b| && a[..i] == b[..i] && a[i] < b[i]
  }

  lemma DiffersLater(a: string, b: string)
    requires a != [] && b != [] && a[0] == b[0]
    ensures (exists i :: DiffersUp(a, b, i)) <==> exists i :: DiffersUp(a[1..], b[1..], i)
    ensures a < b <==> a[1..] < b[1..]
  {
    if i :| DiffersUp(a, b, i) {
      assert a[1..][..i - 1] == a[..i][1..] && b[1..][..i - 1] == b[..i][1..];
      assert DiffersUp(a[1..], b[1..], i - 1);
    }
    if i :| DiffersUp(a[1..], b[1..], i) {
      assert a[..i + 1] == [a[0]] + a[1..][..i] && b[..i + 1] == [b[0]] + b[1..][..i];
      assert DiffersUp(a, b, i + 1);
    }
    if a[1..] < b[1..] {
      assert a == [a[0]] + a[1..] && b == [b[0]] + b[1..];
    }
  }
}
