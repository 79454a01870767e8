/**
 * Hash tables of buckets, as both versions of HashTables hold them: a table maps a bucket key
 * to the points of that bucket in insertion order. The bucket statistics and the neighbour
 * count are the same code in both versions and are stated here once, generically over the key.
 */
module Buckets {
  import opened Vectors

  /** One hash table: bucket key to the points in that bucket. */
  type Table<K> = map<K, seq<Point>>

  /** Appends x to bucket k, creating the bucket when it is absent. */
  function Push<K>(m: Table<K>, k: K, x: Point): Table<K>
  {
    m[k := (if k in m then m[k] else []) + [x]]
  }

  /** Every bucket of every table holds at least one point. */
  predicate NonEmptyBuckets<K>(tables: seq<Table<K>>)
  {
    forall t, k :: 0 <= t < |tables| && k in tables[t] ==> |tables[t][k]| > 0
  }

  /** All points held by a table, with multiplicity (the bag union of its buckets). */
  ghost function Contents<K>(m: Table<K>): multiset<Point>
    decreases |m|
  {
    if m == map[] then multiset{}
    else
      var k :| k in m;
      assert (m - {k}).Keys == m.Keys - {k};
      multiset(m[k]) + Contents(m - {k})
  }

  /** Removing a present key removes exactly that key. */
  lemma RemoveKey<K>(m: Table<K>, k: K)
    requires k in m
    ensures (m - {k}).Keys == m.Keys - {k} && |m - {k}| == |m| - 1
  {
    assert (m - {k}).Keys == m.Keys - {k};
  }

  /** The bag union does not depend on which bucket is taken first. */
  lemma {:induction false} ContentsRemove<K>(m: Table<K>, k: K)
    requires k in m
    ensures (m - {k}).Keys == m.Keys - {k} && |m - {k}| == |m| - 1
    ensures Contents(m) == multiset(m[k]) + Contents(m - {k})
    decreases |m|
  {
    RemoveKey(m, k);
    var j :| j in m && Contents(m) == multiset(m[j]) + Contents(m - {j});
    if j != k {
      var withoutJ, withoutK := m - {j}, m - {k};
      RemoveKey(m, j);
      assert withoutJ - {k} == withoutK - {j};
      ContentsRemove(withoutJ, k);
      ContentsRemove(withoutK, j);
    }
  }

  /** Appending a point to one bucket adds exactly that point to the table's contents. */
  lemma PushContents<K>(m: Table<K>, k: K, x: Point)
    ensures Contents(Push(m, k, x)) == Contents(m) + multiset{x}
  {
    if k in m {
      PushExistingContents(m, k, x);
    } else {
      PushFreshContents(m, k, x);
    }
  }

  lemma PushExistingContents<K>(m: Table<K>, k: K, x: Point)
    requires k in m
    ensures Contents(Push(m, k, x)) == Contents(m) + multiset{x}
  {
    var pushed := Push(m, k, x);
    assert pushed - {k} == m - {k};
    assert multiset(pushed[k]) == multiset(m[k]) + multiset{x};
    ContentsRemove(pushed, k);
    ContentsRemove(m, k);
  }

  lemma PushFreshContents<K>(m: Table<K>, k: K, x: Point)
    requires k !in m
    ensures Contents(Push(m, k, x)) == Contents(m) + multiset{x}
  {
    var pushed := Push(m, k, x);
    assert pushed - {k} == m;
    assert multiset(pushed[k]) == multiset{x};
    ContentsRemove(pushed, k);
  }

  /** A point is held by a table exactly when some bucket holds it. */
  lemma {:induction false} ContentsMember<K>(m: Table<K>, p: Point)
    ensures p in Contents(m) <==> exists k :: k in m && p in m[k]
    decreases |m|
  {
    if m != map[] {
      var k :| k in m;
      ContentsRemove(m, k);
      ContentsMember(m - {k}, p);
      if p in Contents(m) && p !in m[k] {
        var j :| j in m - {k} && p in (m - {k})[j];
        assert j in m && p in m[j];
      }
      if exists j :: j in m && p in m[j] {
        var j :| j in m && p in m[j];
        if j != k {
          assert j in m - {k} && p in (m - {k})[j];
        }
      }
    }
  }

  /** When no bucket is empty, a table has at most as many buckets as points. */
  lemma {:induction false} BucketsAtMostPoints<K>(m: Table<K>)
    requires forall k :: k in m ==> |m[k]| > 0
    ensures |m| <= |Contents(m)|
    decreases |m|
  {
    if m != map[] {
      var k :| k in m;
      ContentsRemove(m, k);
      BucketsAtMostPoints(m - {k});
    }
  }

  /** Number of buckets over all tables. */
  ghost function TotalBuckets<K>(tables: seq<Table<K>>): nat
  {
    if tables == [] then 0 else TotalBuckets(tables[..|tables| - 1]) + |tables[|tables| - 1]|
  }

  /** Sum of bucket sizes over all tables. */
  ghost function TotalOccurrences<K>(tables: seq<Table<K>>): nat
  {
    if tables == [] then 0 else TotalOccurrences(tables[..|tables| - 1]) + |Contents(tables[|tables| - 1])|
  }

  /** Buckets are created non-empty, so there are never more buckets than point occurrences. */
  lemma {:induction false} TotalBucketsAtMostOccurrences<K>(tables: seq<Table<K>>)
    requires NonEmptyBuckets(tables)
    ensures TotalBuckets(tables) <= TotalOccurrences(tables)
  {
    if tables != [] {
      var n := |tables| - 1;
      assert NonEmptyBuckets(tables[..n]);
      TotalBucketsAtMostOccurrences(tables[..n]);
      assert forall k :: k in tables[n] ==> |tables[n][k]| > 0;
      BucketsAtMostPoints(tables[n]);
    }
  }

  lemma MultiplySuccessor(n: nat, c: nat)
    ensures (n + 1) * c == n * c + c
  {
  }

  /** Tables that each hold c points hold |tables| * c points in all. */
  lemma {:induction false} TotalOccurrencesUniform<K>(tables: seq<Table<K>>, c: nat)
    requires forall t :: 0 <= t < |tables| ==> |Contents(tables[t])| == c
    ensures TotalOccurrences(tables) == |tables| * c
  {
    if tables != [] {
      var n := |tables| - 1;
      assert forall t :: 0 <= t < n ==> tables[..n][t] == tables[t];
      TotalOccurrencesUniform(tables[..n], c);
      MultiplySuccessor(n, c);
    }
  }

  /** getNumberBucketsAndSumBucketSizes: the number of buckets and the sum of their sizes. */
  method BucketStatistics<K>(tables: seq<Table<K>>) returns (numberBuckets: int, sumBucketSizes: int)
    ensures numberBuckets == TotalBuckets(tables)
    ensures sumBucketSizes == TotalOccurrences(tables)
  {
    numberBuckets, sumBucketSizes := 0, 0;
    var t := 0;
    while t < |tables|
      invariant 0 <= t <= |tables|
      invariant numberBuckets == TotalBuckets(tables[..t])
      invariant sumBucketSizes == TotalOccurrences(tables[..t])
    {
      var rest := tables[t];
      while rest != map[]
        invariant numberBuckets + |rest| == TotalBuckets(tables[..t]) + |tables[t]|
        invariant sumBucketSizes + |Contents(rest)| == TotalOccurrences(tables[..t]) + |Contents(tables[t])|
        decreases |rest|
      {
        var k :| k in rest;
        ContentsRemove(rest, k);
        numberBuckets := numberBuckets + 1;
        sumBucketSizes := sumBucketSizes + |rest[k]|;
        rest := rest - {k};
      }
      assert tables[..t + 1][..t] == tables[..t];
      t := t + 1;
    }
    assert tables[..t] == tables;
  }

  /** The points that share a bucket of `keys` in table m with p. */
  ghost function SharedIn<K>(m: Table<K>, keys: set<K>, p: Point): set<Point>
  {
    set k, q | k in keys && k in m && p in m[k] && q in m[k] :: q
  }

  /** The points that share at least one bucket of some table with p. */
  ghost function CoBucketed<K>(tables: seq<Table<K>>, p: Point): set<Point>
  {
    set t, k, q | 0 <= t < |tables| && k in tables[t] && p in tables[t][k] && q in tables[t][k] :: q
  }

  /** p together with every point found in a bucket that holds p. */
  ghost function NeighborSet<K>(tables: seq<Table<K>>, p: Point): set<Point>
  {
    {p} + CoBucketed(tables, p)
  }

  /** Sharing a bucket is symmetric, so being a neighbour is too. */
  lemma NeighborSymmetric<K>(tables: seq<Table<K>>, p: Point, q: Point)
    ensures q in NeighborSet(tables, p) <==> p in NeighborSet(tables, q)
  {
    if q in CoBucketed(tables, p) {
      var t, k :| 0 <= t < |tables| && k in tables[t] && p in tables[t][k] && q in tables[t][k];
      assert p in CoBucketed(tables, q);
    }
    if p in CoBucketed(tables, q) {
      var t, k :| 0 <= t < |tables| && k in tables[t] && q in tables[t][k] && p in tables[t][k];
      assert q in CoBucketed(tables, p);
    }
  }

  /** A point held by no bucket has no neighbour. */
  lemma UnheldPointHasNoNeighbor<K>(tables: seq<Table<K>>, p: Point)
    requires forall t, k :: 0 <= t < |tables| && k in tables[t] ==> p !in tables[t][k]
    ensures NeighborSet(tables, p) == {p}
  {
  }

  lemma CoBucketedStep<K>(tables: seq<Table<K>>, t: nat, p: Point)
    requires t < |tables|
    ensures CoBucketed(tables[..t + 1], p) == CoBucketed(tables[..t], p) + SharedIn(tables[t], tables[t].Keys, p)
  {
    var lhs := CoBucketed(tables[..t + 1], p);
    var rhs := CoBucketed(tables[..t], p) + SharedIn(tables[t], tables[t].Keys, p);
    forall q | q in lhs ensures q in rhs {
      var i, k :| 0 <= i < t + 1 && k in tables[..t + 1][i] && p in tables[..t + 1][i][k] && q in tables[..t + 1][i][k];
      if i < t {
        assert tables[..t][i] == tables[i];
      }
    }
    forall q | q in rhs ensures q in lhs {
      if q in CoBucketed(tables[..t], p) {
        var i, k :| 0 <= i < t && k in tables[..t][i] && p in tables[..t][i][k] && q in tables[..t][i][k];
        assert tables[..t + 1][i] == tables[i];
      } else {
        var k :| k in tables[t] && p in tables[t][k] && q in tables[t][k];
        assert tables[..t + 1][t] == tables[t];
      }
    }
  }

  /** Taking one more bucket k into account adds its points when it holds p, and nothing otherwise. */
  lemma SharedInStep<K>(m: Table<K>, keys: set<K>, k: K, p: Point)
    requires k in m
    ensures SharedIn(m, keys + {k}, p) == SharedIn(m, keys, p) + (if p in m[k] then set q | q in m[k] else {})
  {
    var lhs := SharedIn(m, keys + {k}, p);
    var rhs := SharedIn(m, keys, p) + (if p in m[k] then set q | q in m[k] else {});
    forall q | q in lhs ensures q in rhs {
      var j :| j in keys + {k} && j in m && p in m[j] && q in m[j];
      if j != k {
        assert q in SharedIn(m, keys, p);
      }
    }
    forall q | q in rhs ensures q in lhs {
      if q in SharedIn(m, keys, p) {
        var j :| j in keys && j in m && p in m[j] && q in m[j];
        assert j in keys + {k};
      } else {
        assert k in keys + {k} && p in m[k] && q in m[k];
      }
    }
  }

  /** One table's part of countNeighbors: adds every point of every bucket of m that holds p. */
  method AddSharedIn<K>(m: Table<K>, p: Point, neighbors: set<Point>) returns (result: set<Point>)
    ensures result == neighbors + SharedIn(m, m.Keys, p)
  {
    result := neighbors;
    var keys := m.Keys;
    ghost var visited: set<K> := {};
    while keys != {}
      invariant keys == m.Keys - visited && visited <= m.Keys
      invariant result == neighbors + SharedIn(m, visited, p)
      decreases |keys|
    {
      var k :| k in keys;
      if p in m[k] {
        result := result + set q | q in m[k];
      }
      SharedInStep(m, visited, k, p);
      visited := visited + {k};
      keys := keys - {k};
    }
    assert visited == m.Keys;
  }

  /** countNeighbors: the size of p's neighbour set, p itself excluded. */
  method CountNeighbors<K>(tables: seq<Table<K>>, p: Point) returns (count: nat)
    ensures count == |NeighborSet(tables, p)| - 1
  {
    var neighbors: set<Point> := {p};
    var t := 0;
    while t < |tables|
      invariant 0 <= t <= |tables|
      invariant neighbors == {p} + CoBucketed(tables[..t], p)
    {
      neighbors := AddSharedIn(tables[t], p, neighbors);
      CoBucketedStep(tables, t, p);
      t := t + 1;
    }
    assert tables[..t] == tables;
    assert p in neighbors;
    count := |neighbors| - 1;
  }

  /** Sum over the points of a bucket of their neighbour counts (the numerator of EB). */
  ghost function NeighborSum<K>(tables: seq<Table<K>>, bucket: seq<Point>): nat
  {
    if bucket == [] then 0
    else NeighborSum(tables, bucket[..|bucket| - 1]) + (|NeighborSet(tables, bucket[|bucket| - 1])| - 1)
  }

  /** The inner loop of the estimator: adds up countNeighbors over the points of one bucket. */
  method SumNeighborCounts<K>(tables: seq<Table<K>>, bucket: seq<Point>) returns (sum: nat)
    ensures sum == NeighborSum(tables, bucket)
  {
    sum := 0;
    var i := 0;
    while i < |bucket|
      invariant 0 <= i <= |bucket|
      invariant sum == NeighborSum(tables, bucket[..i])
    {
      var c := CountNeighbors(tables, bucket[i]);
      assert bucket[..i + 1][..i] == bucket[..i];
      sum := sum + c;
      i := i + 1;
    }
    assert bucket[..i] == bucket;
  }

  /** order lists every key of a map exactly once (an unordered_map enumeration). */
  predicate Enumerates<K(==), V>(order: seq<K>, table: map<K, V>)
  {
    && Distinct(order)
    && (forall k :: k in table ==> k in order)
    && (forall i :: 0 <= i < |order| ==> order[i] in table)
  }

  /** order has no repeated key. */
  predicate Distinct<K(==)>(order: seq<K>)
  {
    forall i, j :: 0 <= i < j < |order| ==> order[i] != order[j]
  }

  lemma AppendFresh<K>(order: seq<K>, key: K, visited: set<K>)
    requires Distinct(order) && forall i :: 0 <= i < |order| ==> order[i] in visited
    requires key !in visited
    ensures Distinct(order + [key])
    ensures forall i :: 0 <= i < |order| + 1 ==> (order + [key])[i] in visited + {key}
  {
  }

  /** The enumeration of an unordered_map: its keys, each once, in an order the model leaves open. */
  method EnumerateKeys<K(==), V>(table: map<K, V>) returns (order: seq<K>)
    ensures Enumerates(order, table)
  {
    var keys := table.Keys;
    ghost var visited: set<K> := {};
    order := [];
    while keys != {}
      invariant keys !! visited && keys + visited == table.Keys
      invariant forall i :: 0 <= i < |order| ==> order[i] in visited
      invariant forall k :: k in visited ==> k in order
      invariant Distinct(order)
      decreases |keys|
    {
      var key :| key in keys;
      AppendFresh(order, key, visited);
      order := order + [key];
      visited := visited + {key};
      keys := keys - {key};
    }
  }

  /** The elements of a sequence. */
  ghost function Elements<K>(s: seq<K>): set<K>
  {
    set x | x in s
  }

  lemma ElementsPrefix<K>(s: seq<K>, i: nat)
    requires i < |s|
    ensures Elements(s[..i + 1]) == Elements(s[..i]) + {s[i]}
  {
    assert s[..i + 1] == s[..i] + [s[i]];
  }
}
