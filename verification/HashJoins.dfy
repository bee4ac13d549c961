/** The hash join on values: a table of build rows by key, probed row by row. */
module HashJoins {
  import opened Options
  import opened Queries
  import opened Rows

  type HashTable = map<string, seq<Row>>

  function Bucket(table: HashTable, k: string): seq<Row> {
    if k in table then table[k] else []
  }

  /** hashTable[key].push_back(row), unless the row has no key. */
  function PutRow(table: HashTable, key: string, row: Row): HashTable {
    if key in row then table[row[key] := Bucket(table, row[key]) + [row]] else table
  }

  function Grouped(rows: seq<Row>, key: string): HashTable {
    if rows == [] then map[] else PutRow(Grouped(rows[..|rows| - 1], key), key, rows[|rows| - 1])
  }

  /** Each build row of a bucket with the probe row's columns over it. */
  function Merged(bucket: seq<Row>, p: Row): (r: seq<Row>)
    ensures |r| == |bucket| && forall i :: 0 <= i < |bucket| ==> r[i] == bucket[i] + p
  {
    seq(|bucket|, i requires 0 <= i < |bucket| => bucket[i] + p)
  }

  function HitsOf(table: HashTable, probeKey: string, p: Row): seq<Row> {
    if probeKey in p then Merged(Bucket(table, p[probeKey]), p) else []
  }

  function HashJoined(table: HashTable, probe: seq<Row>, probeKey: string): seq<Row> {
    if probe == [] then [] else HitsOf(table, probeKey, probe[0]) + HashJoined(table, probe[1..], probeKey)
  }

  // ----- it is the nested-loop join -----

  lemma {:induction false} MatchesSnoc(build: seq<Row>, b: Row, buildKey: string, probeKey: string, p: Row)
    ensures MatchesOf(build + [b], buildKey, probeKey, p) ==
            MatchesOf(build, buildKey, probeKey, p) + (if Agree(buildKey, b, probeKey, p) then [b + p] else [])
  {
    hide Agree;
    if build == [] {
      assert build + [b] == [b] && [b][1..] == [];
    } else {
      MatchesSnoc(build[1..], b, buildKey, probeKey, p);
      assert (build + [b])[1..] == build[1..] + [b];
    }
  }

  lemma {:induction false} BucketMatches(build: seq<Row>, buildKey: string, probeKey: string, p: Row)
    ensures HitsOf(Grouped(build, buildKey), probeKey, p) == MatchesOf(build, buildKey, probeKey, p)
    decreases |build|
  {
    if build == [] {
    } else {
      var front, b := build[..|build| - 1], build[|build| - 1];
      assert build == front + [b];
      BucketMatches(front, buildKey, probeKey, p);
      MatchesSnoc(front, b, buildKey, probeKey, p);
      HitsSnoc(Grouped(front, buildKey), b, buildKey, probeKey, p);
    }
  }

  lemma HitsSnoc(table: HashTable, b: Row, buildKey: string, probeKey: string, p: Row)
    ensures HitsOf(PutRow(table, buildKey, b), probeKey, p) ==
            HitsOf(table, probeKey, p) + (if Agree(buildKey, b, probeKey, p) then [b + p] else [])
  {
  }

  /** Probe order outside, build order inside, equal texts only: the same list, row for row. */
  lemma {:induction false} HashJoinIsNestedLoop(build: seq<Row>, probe: seq<Row>, buildKey: string, probeKey: string)
    ensures HashJoined(Grouped(build, buildKey), probe, probeKey) == NestedLoop(build, probe, buildKey, probeKey)
  {
    hide HitsOf, MatchesOf, Grouped;
    if probe != [] {
      BucketMatches(build, buildKey, probeKey, probe[0]);
      HashJoinIsNestedLoop(build, probe[1..], buildKey, probeKey);
    }
  }
}
