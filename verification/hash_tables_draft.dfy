/**
 * The earlier LSH index (HashTables.h): T hash tables with scalar integer keys. Every call of insert,
 * search and search_tables draws L fresh random keys per table; those draws are the caller-supplied
 * `drawn` (one sequence of L keys per table), which makes everything else deterministic.
 */
module HashTablesDraft {
  import opened Vectors
  import opened Buckets
  import opened Sorting

  /** The L keys drawn for each of the T tables on one call. */
  predicate DrawnKeys(drawn: seq<seq<int>>, L: nat, T: nat)
  {
    |drawn| == T && forall t :: 0 <= t < T ==> |drawn[t]| == L
  }

  /** The keys drawn for each of a sequence of calls. */
  predicate AllDrawn(draws: seq<seq<seq<int>>>, L: nat, T: nat)
  {
    forall i :: 0 <= i < |draws| ==> |draws[i]| == T && forall t :: 0 <= t < T ==> |draws[i][t]| == L
  }

  /** n copies of x. */
  function Copies(x: Point, n: nat): (r: seq<Point>)
    ensures |r| == n && forall i :: 0 <= i < n ==> r[i] == x
  {
    seq(n, _ => x)
  }

  lemma CopiesGrow(x: Point, n: nat)
    ensures Copies(x, n) + [x] == Copies(x, n + 1)
    ensures multiset(Copies(x, n + 1)) == multiset(Copies(x, n)) + multiset{x}
  {
    assert Copies(x, n) + [x] == Copies(x, n + 1);
  }

  /** The inner loop of insert: x is pushed onto the bucket of each drawn key in turn. */
  function PushAll(m: Table<int>, keys: seq<int>, x: Point): Table<int>
  {
    if keys == [] then m else Push(PushAll(m, keys[..|keys| - 1], x), keys[|keys| - 1], x)
  }

  /** A key drawn at least once gets a bucket; no other bucket appears. */
  lemma {:induction false} PushAllKeys(m: Table<int>, keys: seq<int>, x: Point)
    ensures forall k :: k in PushAll(m, keys, x) <==> k in m || k in keys
  {
    if keys != [] {
      var n := |keys| - 1;
      PushAllKeys(m, keys[..n], x);
      assert keys == keys[..n] + [keys[n]];
    }
  }

  /**
   * The bucket of a key receives x once per time the key was drawn; buckets of keys not drawn
   * are unchanged.
   */
  lemma {:induction false} PushAllBuckets(m: Table<int>, keys: seq<int>, x: Point)
    ensures forall k :: k in PushAll(m, keys, x) ==>
      PushAll(m, keys, x)[k] == (if k in m then m[k] else []) + Copies(x, multiset(keys)[k])
  {
    if keys != [] {
      var n := |keys| - 1;
      var prev := PushAll(m, keys[..n], x);
      PushAllBuckets(m, keys[..n], x);
      PushAllKeys(m, keys[..n], x);
      assert keys == keys[..n] + [keys[n]];
      assert multiset(keys) == multiset(keys[..n]) + multiset{keys[n]};
      forall k | k in PushAll(m, keys, x)
        ensures PushAll(m, keys, x)[k] == (if k in m then m[k] else []) + Copies(x, multiset(keys)[k])
      {
        if k == keys[n] {
          PushAllDrawnBucket(m, keys, x);
        }
      }
    }
  }

  /** The step of PushAllBuckets for the key drawn last. */
  lemma PushAllDrawnBucket(m: Table<int>, keys: seq<int>, x: Point)
    requires keys != []
    requires var n := |keys| - 1; var prev := PushAll(m, keys[..n], x);
      && (forall k :: k in prev <==> k in m || k in keys[..n])
      && forall k :: k in prev ==> prev[k] == (if k in m then m[k] else []) + Copies(x, multiset(keys[..n])[k])
    ensures var k := keys[|keys| - 1];
      PushAll(m, keys, x)[k] == (if k in m then m[k] else []) + Copies(x, multiset(keys)[k])
  {
    var n := |keys| - 1;
    var k := keys[n];
    assert keys == keys[..n] + [k];
    assert multiset(keys)[k] == multiset(keys[..n])[k] + 1;
    CopiesGrow(x, multiset(keys[..n])[k]);
    if k !in PushAll(m, keys[..n], x) {
      assert k !in m && multiset(keys[..n])[k] == 0;
    }
  }

  /** insert adds |keys| copies of x to a table's contents. */
  lemma {:induction false} PushAllContents(m: Table<int>, keys: seq<int>, x: Point)
    ensures Contents(PushAll(m, keys, x)) == Contents(m) + multiset(Copies(x, |keys|))
  {
    if keys != [] {
      var n := |keys| - 1;
      PushAllContents(m, keys[..n], x);
      PushContents(PushAll(m, keys[..n], x), keys[n], x);
      CopiesGrow(x, n);
    }
  }

  /** insert on values: every table receives x in the buckets of its drawn keys. */
  ghost function InsertDraw(tables: seq<Table<int>>, drawn: seq<seq<int>>, x: Point): (r: seq<Table<int>>)
    requires |drawn| == |tables|
    ensures |r| == |tables|
  {
    seq(|tables|, t requires 0 <= t < |tables| => PushAll(tables[t], drawn[t], x))
  }

  /** Successive inserts of the first n points of data, the i-th with the keys draws[i]. */
  ghost function InsertDrawAll(tables: seq<Table<int>>, draws: seq<seq<seq<int>>>, data: seq<Point>, n: nat): (r: seq<Table<int>>)
    requires n <= |data| && |draws| == |data| && forall i :: 0 <= i < |data| ==> |draws[i]| == |tables|
    ensures |r| == |tables|
  {
    if n == 0 then tables
    else InsertDraw(InsertDrawAll(tables, draws, data, n - 1), draws[n - 1], data[n - 1])
  }

  /** An insert with L keys per table adds L point occurrences to every table. */
  lemma {:induction false} InsertDrawTotals(tables: seq<Table<int>>, drawn: seq<seq<int>>, x: Point, L: nat)
    requires DrawnKeys(drawn, L, |tables|)
    ensures TotalOccurrences(InsertDraw(tables, drawn, x)) == TotalOccurrences(tables) + |tables| * L
  {
    if tables != [] {
      var n := |tables| - 1;
      var after := InsertDraw(tables, drawn, x);
      assert InsertDraw(tables[..n], drawn[..n], x) == after[..n];
      InsertDrawTotals(tables[..n], drawn[..n], x, L);
      PushAllContents(tables[n], drawn[n], x);
      MultiplySuccessor(n, L);
    }
  }

  /** Each point of points, L times over. */
  ghost function Replicated(points: seq<Point>, L: nat): multiset<Point>
  {
    if points == [] then multiset{}
    else Replicated(points[..|points| - 1], L) + multiset(Copies(points[|points| - 1], L))
  }

  lemma {:induction false} ReplicatedSize(points: seq<Point>, L: nat)
    ensures |Replicated(points, L)| == |points| * L
  {
    if points != [] {
      var n := |points| - 1;
      ReplicatedSize(points[..n], L);
      MultiplySuccessor(n, L);
    }
  }

  /** The invariant of the index: T tables, no empty bucket, each table holding every inserted point L times. */
  ghost predicate DraftInvariant(tables: seq<Table<int>>, points: seq<Point>, L: nat, T: nat)
  {
    && |tables| == T
    && NonEmptyBuckets(tables)
    && forall t :: 0 <= t < T ==> Contents(tables[t]) == Replicated(points, L)
  }

  lemma InsertDrawKeepsInvariant(tables: seq<Table<int>>, points: seq<Point>, L: nat, T: nat, drawn: seq<seq<int>>, x: Point)
    requires DraftInvariant(tables, points, L, T) && DrawnKeys(drawn, L, T)
    ensures DraftInvariant(InsertDraw(tables, drawn, x), points + [x], L, T)
  {
    var r := InsertDraw(tables, drawn, x);
    assert (points + [x])[..|points|] == points;
    forall t | 0 <= t < T ensures Contents(r[t]) == Replicated(points + [x], L) {
      PushAllContents(tables[t], drawn[t], x);
    }
    forall t, k | 0 <= t < T && k in r[t] ensures |r[t][k]| > 0 {
      PushAllBuckets(tables[t], drawn[t], x);
      PushAllKeys(tables[t], drawn[t], x);
      if k !in tables[t] {
        assert k in multiset(drawn[t]);
      }
    }
  }

  /** The points search collects from table m for the drawn keys, in order. */
  ghost function TableHits(m: Table<int>, keys: seq<int>): seq<Point>
  {
    if keys == [] then []
    else TableHits(m, keys[..|keys| - 1]) + (if keys[|keys| - 1] in m then m[keys[|keys| - 1]] else [])
  }

  /** The points search collects from the first n tables. */
  ghost function Hits(tables: seq<Table<int>>, drawn: seq<seq<int>>, n: nat): seq<Point>
    requires n <= |tables| && n <= |drawn|
  {
    if n == 0 then [] else Hits(tables, drawn, n - 1) + TableHits(tables[n - 1], drawn[n - 1])
  }

  lemma {:induction false} TableHitsMember(m: Table<int>, keys: seq<int>, q: Point)
    ensures q in TableHits(m, keys) <==> exists l :: 0 <= l < |keys| && keys[l] in m && q in m[keys[l]]
  {
    if keys != [] {
      var n := |keys| - 1;
      TableHitsMember(m, keys[..n], q);
      if exists l :: 0 <= l < |keys| && keys[l] in m && q in m[keys[l]] {
        var l :| 0 <= l < |keys| && keys[l] in m && q in m[keys[l]];
        if l < n {
          assert keys[..n][l] == keys[l];
        }
      }
    }
  }

  /** search finds exactly the points of the buckets of the drawn keys that exist. */
  lemma {:induction false} HitsMember(tables: seq<Table<int>>, drawn: seq<seq<int>>, n: nat, q: Point)
    requires n <= |tables| && n <= |drawn|
    ensures q in Hits(tables, drawn, n) <==>
      exists t, l :: 0 <= t < n && 0 <= l < |drawn[t]| && drawn[t][l] in tables[t] && q in tables[t][drawn[t][l]]
  {
    if n > 0 {
      HitsMember(tables, drawn, n - 1, q);
      TableHitsMember(tables[n - 1], drawn[n - 1], q);
    }
  }

  /** A search_tables entry: a bucket key and the contents of that bucket. */
  type Entry = (int, seq<Point>)

  /** The entries search_tables collects from table m for the drawn keys, in order. */
  ghost function TableEntries(m: Table<int>, keys: seq<int>): seq<Entry>
  {
    if keys == [] then []
    else
      var k := keys[|keys| - 1];
      TableEntries(m, keys[..|keys| - 1]) + (if k in m then [(k, m[k])] else [])
  }

  /** The entries search_tables collects from the first n tables. */
  ghost function Entries(tables: seq<Table<int>>, drawn: seq<seq<int>>, n: nat): seq<Entry>
    requires n <= |tables| && n <= |drawn|
  {
    if n == 0 then [] else Entries(tables, drawn, n - 1) + TableEntries(tables[n - 1], drawn[n - 1])
  }

  /** Every collected entry pairs a drawn key that has a bucket with that bucket's contents, and vice versa. */
  lemma {:induction false} EntriesMember(tables: seq<Table<int>>, drawn: seq<seq<int>>, n: nat, e: Entry)
    requires n <= |tables| && n <= |drawn|
    ensures e in Entries(tables, drawn, n) <==>
      exists t, l :: 0 <= t < n && 0 <= l < |drawn[t]| && drawn[t][l] in tables[t] && e == (drawn[t][l], tables[t][drawn[t][l]])
  {
    if n > 0 {
      EntriesMember(tables, drawn, n - 1, e);
      TableEntriesMember(tables[n - 1], drawn[n - 1], e);
    }
  }

  lemma {:induction false} TableEntriesMember(m: Table<int>, keys: seq<int>, e: Entry)
    ensures e in TableEntries(m, keys) <==> exists l :: 0 <= l < |keys| && keys[l] in m && e == (keys[l], m[keys[l]])
  {
    if keys != [] {
      var n := |keys| - 1;
      TableEntriesMember(m, keys[..n], e);
      if exists l :: 0 <= l < |keys| && keys[l] in m && e == (keys[l], m[keys[l]]) {
        var l :| 0 <= l < |keys| && keys[l] in m && e == (keys[l], m[keys[l]]);
        if l < n {
          assert keys[..n][l] == keys[l];
        }
      }
    }
  }

  /** The comparator of search_tables: by key only. */
  predicate KeyLt(a: Entry, b: Entry) { a.0 < b.0 }

  /** The equality test of search_tables' std::unique: same key. */
  predicate SameKey(a: Entry, b: Entry) { a.0 == b.0 }

  lemma KeyOrder()
    ensures StrictOrder(KeyLt) && SameCoversTies(KeyLt, SameKey)
  {
  }

  /** The value of an estimator: a real, or the infinity EA / 0 yields in long double. */
  datatype Estimate = Finite(value: real) | Infinite

  /** EA / EB as long double computes it for EA > 0: infinite when EB is zero. */
  function Quotient(ea: real, eb: real): (r: Estimate)
    requires ea > 0.0
    ensures r == Infinite <==> eb == 0.0
    ensures eb > 0.0 ==> r.Finite? && r.value > 0.0
  {
    if eb == 0.0 then Infinite else Finite(ea / eb)
  }

  /** The carried EB after a bucket of ea points whose neighbour counts add up to s. */
  function Carry(eb: real, s: nat, ea: real): real
    requires ea > 0.0
  {
    (eb + s as real) / ea
  }

  /** A non-negative EB stays non-negative, and becomes zero only when it was zero and s is zero. */
  lemma CarryFacts(eb: real, s: nat, ea: real)
    requires eb >= 0.0 && ea > 0.0
    ensures Carry(eb, s, ea) >= 0.0
    ensures Carry(eb, s, ea) == 0.0 <==> eb == 0.0 && s == 0
  {
    QuotientZeroIff(eb + s as real, ea);
  }

  /** Every key of the order has a non-empty bucket in the table. */
  predicate Covered(table: Table<int>, order: seq<int>)
  {
    forall i :: 0 <= i < |order| ==> order[i] in table && |table[order[i]]| > 0
  }

  /** The sum of the neighbour counts of the points of a bucket, as a function of the bucket. */
  ghost function NeighborSums(tables: seq<Table<int>>): seq<Point> -> nat
  {
    bucket => NeighborSum(tables, bucket)
  }

  /**
   * The estimator loop of one table over its buckets in the enumeration `order`, starting from the
   * map est0, with sums(b) the neighbour counts of bucket b added up: returns the final EB and the
   * map. EB is not reset between buckets: EB := (EB + sums(bucket)) / EA.
   */
  ghost function DraftRun(sums: seq<Point> -> nat, table: Table<int>, order: seq<int>, est0: map<Entry, Estimate>): (real, map<Entry, Estimate>)
    requires Covered(table, order)
  {
    if order == [] then (0.0, est0)
    else
      var n := |order| - 1;
      var prev := DraftRun(sums, table, order[..n], est0);
      var bucket := table[order[n]];
      var ea := |bucket| as real;
      var eb := Carry(prev.0, sums(bucket), ea);
      (eb, prev.1[(order[n], bucket) := Quotient(ea, eb)])
  }

  /** One more enumerated bucket, keys[i]: EB is carried over it and its entry is written. */
  lemma DraftRunStep(sums: seq<Point> -> nat, table: Table<int>, keys: seq<int>, i: nat, est0: map<Entry, Estimate>)
    requires i < |keys| && Covered(table, keys[..i]) && keys[i] in table && |table[keys[i]]| > 0
    ensures Covered(table, keys[..i + 1])
    ensures var prev := DraftRun(sums, table, keys[..i], est0);
      var bucket := table[keys[i]];
      var eb := Carry(prev.0, sums(bucket), |bucket| as real);
      DraftRun(sums, table, keys[..i + 1], est0) == (eb, prev.1[(keys[i], bucket) := Quotient(|bucket| as real, eb)])
  {
    assert keys[..i + 1][..i] == keys[..i];
  }

  /** The draft estimator map after the first |orders| tables, table t enumerated in orders[t]. */
  ghost function DraftEstimates(tables: seq<Table<int>>, orders: seq<seq<int>>): map<Entry, Estimate>
    requires EnumeratedAll(tables, orders)
  {
    if orders == [] then map[]
    else
      var n := |orders| - 1;
      DraftRun(NeighborSums(tables), tables[n], orders[n], DraftEstimates(tables, orders[..n])).1
  }

  /** Every table up to |orders| is enumerated by its order. */
  ghost predicate EnumeratedAll(tables: seq<Table<int>>, orders: seq<seq<int>>)
  {
    |orders| <= |tables| && forall u :: 0 <= u < |orders| ==> Enumerates(orders[u], tables[u]) && Covered(tables[u], orders[u])
  }

  /** The estimator map after one more table. */
  lemma DraftEstimatesStep(tables: seq<Table<int>>, orders: seq<seq<int>>, order: seq<int>)
    requires EnumeratedAll(tables, orders) && |orders| < |tables|
    requires Enumerates(order, tables[|orders|]) && Covered(tables[|orders|], order)
    ensures EnumeratedAll(tables, orders + [order])
    ensures DraftEstimates(tables, orders + [order])
      == DraftRun(NeighborSums(tables), tables[|orders|], order, DraftEstimates(tables, orders)).1
  {
    EnumeratedAllAppend(tables, orders, order);
    assert (orders + [order])[..|orders|] == orders;
  }

  lemma EnumeratedAllAppend(tables: seq<Table<int>>, orders: seq<seq<int>>, order: seq<int>)
    requires EnumeratedAll(tables, orders) && |orders| < |tables|
    requires Enumerates(order, tables[|orders|]) && Covered(tables[|orders|], order)
    ensures EnumeratedAll(tables, orders + [order])
  {
    var all := orders + [order];
    forall u | 0 <= u < |all| ensures Enumerates(all[u], tables[u]) && Covered(tables[u], all[u]) {
      if u < |orders| {
        assert all[u] == orders[u];
      }
    }
  }

  /** The carried EB stays non-negative. */
  lemma {:induction false} DraftEBNonNegative(sums: seq<Point> -> nat, table: Table<int>, order: seq<int>, est0: map<Entry, Estimate>)
    requires Covered(table, order)
    ensures DraftRun(sums, table, order, est0).0 >= 0.0
  {
    if order != [] {
      var n := |order| - 1;
      DraftEBNonNegative(sums, table, order[..n], est0);
      var bucket := table[order[n]];
      CarryFacts(DraftRun(sums, table, order[..n], est0).0, sums(bucket), |bucket| as real);
    }
  }

  /** The carried EB is zero exactly when no bucket enumerated so far has a point with a neighbour. */
  lemma {:induction false} DraftEBZeroIff(sums: seq<Point> -> nat, table: Table<int>, order: seq<int>, est0: map<Entry, Estimate>)
    requires Covered(table, order)
    ensures DraftRun(sums, table, order, est0).0 == 0.0 <==>
      forall j :: 0 <= j < |order| ==> sums(table[order[j]]) == 0
  {
    if order != [] {
      var n := |order| - 1;
      DraftEBZeroIff(sums, table, order[..n], est0);
      DraftEBNonNegative(sums, table, order[..n], est0);
      var bucket := table[order[n]];
      CarryFacts(DraftRun(sums, table, order[..n], est0).0, sums(bucket), |bucket| as real);
      assert forall j :: 0 <= j < n ==> order[..n][j] == order[j];
    }
  }

  lemma QuotientZeroIff(a: real, b: real)
    requires a >= 0.0 && b > 0.0
    ensures a / b == 0.0 <==> a == 0.0
    ensures a / b >= 0.0
  {
  }

  /** The loop only writes entries for the enumerated buckets. */
  lemma {:induction false} DraftRunKeys(sums: seq<Point> -> nat, table: Table<int>, order: seq<int>, est0: map<Entry, Estimate>)
    requires Covered(table, order)
    ensures forall e :: e in DraftRun(sums, table, order, est0).1 <==>
      e in est0 || exists i :: 0 <= i < |order| && e == (order[i], table[order[i]])
  {
    if order != [] {
      var n := |order| - 1;
      DraftRunKeys(sums, table, order[..n], est0);
      forall e ensures e in DraftRun(sums, table, order, est0).1 <==>
        e in est0 || exists i :: 0 <= i < |order| && e == (order[i], table[order[i]])
      {
        if exists i :: 0 <= i < |order| && e == (order[i], table[order[i]]) {
          var i :| 0 <= i < |order| && e == (order[i], table[order[i]]);
          if i < n {
            assert order[..n][i] == order[i];
          }
        }
        if exists i :: 0 <= i < n && e == (order[..n][i], table[order[..n][i]]) {
          var i :| 0 <= i < n && e == (order[..n][i], table[order[..n][i]]);
          assert order[..n][i] == order[i];
        }
      }
    }
  }

  /**
   * With distinct keys, the entry of the i-th enumerated bucket is EA / EB with EB the value carried
   * after that bucket.
   */
  lemma {:induction false} DraftEntry(sums: seq<Point> -> nat, table: Table<int>, order: seq<int>, est0: map<Entry, Estimate>, i: nat)
    requires Covered(table, order) && Distinct(order) && i < |order|
    ensures var e := (order[i], table[order[i]]);
      && e in DraftRun(sums, table, order, est0).1
      && DraftRun(sums, table, order, est0).1[e]
         == Quotient(|table[order[i]]| as real, DraftRun(sums, table, order[..i + 1], est0).0)
  {
    var n := |order| - 1;
    if i < n {
      DraftEntry(sums, table, order[..n], est0, i);
      assert order[..n][..i + 1] == order[..i + 1];
      assert order[..n][i] == order[i];
      assert order[n] != order[i];
    } else {
      assert order[..i + 1] == order;
    }
  }

  /**
   * The entry of the i-th enumerated bucket is infinite exactly when none of the buckets enumerated
   * up to and including it has a point with a neighbour.
   */
  lemma DraftEntryInfinite(sums: seq<Point> -> nat, table: Table<int>, order: seq<int>, est0: map<Entry, Estimate>, i: nat)
    requires Covered(table, order) && Distinct(order) && i < |order|
    ensures var e := (order[i], table[order[i]]);
      && e in DraftRun(sums, table, order, est0).1
      && (DraftRun(sums, table, order, est0).1[e] == Infinite <==>
          forall j :: 0 <= j <= i ==> sums(table[order[j]]) == 0)
  {
    DraftEntry(sums, table, order, est0, i);
    DraftEBZeroIff(sums, table, order[..i + 1], est0);
    assert forall j :: 0 <= j <= i ==> order[..i + 1][j] == order[j];
  }

  /** The neighbour set of p in a single table where p shares its only bucket with exactly the points of b. */
  lemma SingleBucketNeighbors(table: Table<int>, key: int, p: Point)
    requires key in table && p in table[key]
    requires forall k :: k in table && k != key ==> p !in table[k]
    ensures NeighborSet([table], p) == set q | q in table[key]
  {
    var tables := [table];
    assert tables[0] == table;
    forall q | q !in table[key] ensures q !in CoBucketed(tables, p) {
      forall t, k | 0 <= t < |tables| && k in tables[t] && p in tables[t][k] ensures q !in tables[t][k] {
        assert t == 0 && k == key;
      }
    }
    forall q | q in table[key] ensures q in NeighborSet(tables, p) {
      assert 0 <= 0 < |tables| && key in tables[0] && p in tables[0][key] && q in tables[0][key];
    }
  }

  /**
   * Nothing guards EB == 0: an index holding one point, which has no neighbour, gets an infinite
   * estimate for its only bucket.
   */
  lemma DraftIsolatedBucketIsInfinite()
    ensures var p: Point := [0.0];
      var table := map[0 := [p]];
      Covered(table, [0]) && DraftEstimates([table], [[0]]) == map[(0, [p]) := Infinite]
  {
    var p: Point := [0.0];
    var table := map[0 := [p]];
    var tables := [table];
    SingleBucketNeighbors(table, 0, p);
    assert (set q | q in table[0]) == {p};
    assert |NeighborSet(tables, p)| == 1;
    assert [p][..0] == [];
    assert NeighborSum(tables, [p]) == 0;
    assert NeighborSums(tables)([p]) == 0;
    assert [0][..0] == [] && [[0]][..0] == [] && tables[0] == table;
    var run := DraftRun(NeighborSums(tables), table, [0], map[]);
    assert DraftRun(NeighborSums(tables), table, [], map[]) == (0.0, map[]);
    assert Carry(0.0, 0, 1.0) == 0.0;
    assert run.0 == 0.0;
    assert DraftEstimates(tables, [[0]]) == run.1;
  }

  /** In the table {0: [p, q], 1: [r]}, p and q are each other's only neighbours and r has none. */
  lemma ExampleSums(p: Point, q: Point, r: Point)
    requires p == [0.0] && q == [1.0] && r == [2.0]
    ensures NeighborSums([map[0 := [p, q], 1 := [r]]])([p, q]) == 2
    ensures NeighborSums([map[0 := [p, q], 1 := [r]]])([r]) == 0
  {
    var table := map[0 := [p, q], 1 := [r]];
    assert p != q && q != r && p != r by {
      assert p[0] != q[0] && q[0] != r[0] && p[0] != r[0];
    }
    PairNeighbors(table, p, q, r);
    SingleBucketNeighbors(table, 1, r);
    assert (set x | x in table[1]) == {r};
    assert [p, q][..1] == [p] && [p][..0] == [] && [r][..0] == [];
    assert NeighborSum([table], [p]) == 1;
  }

  lemma PairNeighbors(table: Table<int>, p: Point, q: Point, r: Point)
    requires table == map[0 := [p, q], 1 := [r]] && p != q && q != r && p != r
    ensures |NeighborSet([table], p)| == 2 && |NeighborSet([table], q)| == 2
  {
    SingleBucketNeighbors(table, 0, p);
    SingleBucketNeighbors(table, 0, q);
    assert (set x | x in table[0]) == {p, q};
  }

  /**
   * EB is carried from bucket to bucket, so the estimate of a bucket depends on the order in which
   * the unordered_map enumerates the buckets: the same table, enumerated in two orders, gives the
   * bucket {r} the estimate 1 or infinity.
   */
  lemma DraftOrderMatters()
    ensures var p: Point, q: Point, r: Point := [0.0], [1.0], [2.0];
      var table := map[0 := [p, q], 1 := [r]];
      && Enumerates([0, 1], table) && Enumerates([1, 0], table)
      && (1, [r]) in DraftEstimates([table], [[0, 1]])
      && DraftEstimates([table], [[0, 1]])[(1, [r])] == Finite(1.0)
      && (1, [r]) in DraftEstimates([table], [[1, 0]])
      && DraftEstimates([table], [[1, 0]])[(1, [r])] == Infinite
  {
    var p: Point, q: Point, r: Point := [0.0], [1.0], [2.0];
    var table := map[0 := [p, q], 1 := [r]];
    var sums := NeighborSums([table]);
    ExampleSums(p, q, r);
    assert [0, 1][..1] == [0] && [1, 0][..1] == [1] && [0][..0] == [] && [1][..0] == [];
    var forward := DraftRun(sums, table, [0, 1], map[]);
    var first := DraftRun(sums, table, [0], map[]);
    assert DraftRun(sums, table, [], map[]) == (0.0, map[]);
    assert Carry(0.0, 2, 2.0) == 1.0;
    assert first.0 == 1.0;
    assert forward.0 == 1.0;
    var backward := DraftRun(sums, table, [1, 0], map[]);
    assert DraftRun(sums, table, [1], map[]).0 == 0.0;
  }

  /**
   * One table's part of the estimator loop: the buckets in the enumeration order of the table, EB
   * carried from bucket to bucket.
   */
  method EstimateTable(tables: seq<Table<int>>, table: Table<int>, estPerHash: map<Entry, Estimate>)
    returns (result: map<Entry, Estimate>, ghost order: seq<int>)
    requires forall k :: k in table ==> |table[k]| > 0
    ensures Enumerates(order, table) && Covered(table, order)
    ensures result == DraftRun(NeighborSums(tables), table, order, estPerHash).1
  {
    result := estPerHash;
    var keys := EnumerateKeys(table);
    var ea: real, eb: real := 0.0, 0.0;
    var i := 0;
    while i < |keys|
      invariant 0 <= i <= |keys| && Covered(table, keys[..i])
      invariant eb == DraftRun(NeighborSums(tables), table, keys[..i], estPerHash).0
      invariant result == DraftRun(NeighborSums(tables), table, keys[..i], estPerHash).1
    {
      var key := keys[i];
      var bucket := table[key];
      ea := |bucket| as real;
      // the source adds each count to EB in turn; over exact reals that is EB plus their sum
      var neighborCounts := SumNeighborCounts(tables, bucket);
      eb := Carry(eb, neighborCounts, ea);
      result := result[(key, bucket) := Quotient(ea, eb)];
      DraftRunStep(NeighborSums(tables), table, keys, i, estPerHash);
      i := i + 1;
    }
    assert keys[..i] == keys;
    order := keys;
  }

  /** The estimator loop over all tables, each enumerated in its own order. */
  method EstimateTables(tables: seq<Table<int>>) returns (estPerHash: map<Entry, Estimate>, ghost orders: seq<seq<int>>)
    requires NonEmptyBuckets(tables)
    ensures |orders| == |tables| && EnumeratedAll(tables, orders)
    ensures estPerHash == DraftEstimates(tables, orders)
  {
    estPerHash := map[];
    orders := [];
    var t := 0;
    while t < |tables|
      invariant 0 <= t <= |tables| && |orders| == t
      invariant EnumeratedAll(tables, orders)
      invariant estPerHash == DraftEstimates(tables, orders)
    {
      ghost var order;
      estPerHash, order := EstimateTable(tables, tables[t], estPerHash);
      DraftEstimatesStep(tables, orders, order);
      orders := orders + [order];
      t := t + 1;
    }
  }

  /** The loops of search: the buckets of the drawn keys of every table, concatenated. */
  method CollectHits(tables: seq<Table<int>>, drawn: seq<seq<int>>, L: nat) returns (results: seq<Point>)
    requires DrawnKeys(drawn, L, |tables|)
    ensures results == Hits(tables, drawn, |tables|)
  {
    results := [];
    var t := 0;
    while t < |tables|
      invariant 0 <= t <= |tables|
      invariant results == Hits(tables, drawn, t)
    {
      var hashValue := drawn[t];
      var l := 0;
      while l < L
        invariant 0 <= l <= L
        invariant results == Hits(tables, drawn, t) + TableHits(tables[t], hashValue[..l])
      {
        if hashValue[l] in tables[t] {
          results := results + tables[t][hashValue[l]];
        }
        assert hashValue[..l + 1][..l] == hashValue[..l];
        l := l + 1;
      }
      assert hashValue[..l] == hashValue;
      t := t + 1;
    }
  }

  /** The loops of search_tables: a (key, bucket) entry per drawn key that has a bucket. */
  method CollectEntries(tables: seq<Table<int>>, drawn: seq<seq<int>>, L: nat) returns (results: seq<Entry>)
    requires DrawnKeys(drawn, L, |tables|)
    ensures results == Entries(tables, drawn, |tables|)
  {
    results := [];
    var t := 0;
    while t < |tables|
      invariant 0 <= t <= |tables|
      invariant results == Entries(tables, drawn, t)
    {
      var hashValue := drawn[t];
      var l := 0;
      while l < L
        invariant 0 <= l <= L
        invariant results == Entries(tables, drawn, t) + TableEntries(tables[t], hashValue[..l])
      {
        if hashValue[l] in tables[t] {
          results := results + [(hashValue[l], tables[t][hashValue[l]])];
        }
        assert hashValue[..l + 1][..l] == hashValue[..l];
        l := l + 1;
      }
      assert hashValue[..l] == hashValue;
      t := t + 1;
    }
  }

  /**
   * std::sort by key followed by std::unique on equal keys: strictly ascending keys, every entry kept
   * comes from the input, and every key of the input keeps one entry.
   */
  method SortByKey(found: seq<Entry>) returns (results: seq<Entry>)
    ensures StrictlyAscending(results, KeyLt)
    ensures forall e :: e in results ==> e in found
    ensures forall e :: e in found ==> exists f :: f in results && f.0 == e.0
  {
    KeyOrder();
    var sorted := Sort(found, KeyLt);
    UniqueAscending(sorted, KeyLt, SameKey);
    results := Unique(sorted, SameKey);
    forall e | e in found ensures e in sorted {
      assert e in multiset(found);
    }
    forall e | e in results ensures e in found {
      assert e in multiset(sorted);
    }
  }

  class HashTables {
    /** tables[t]: bucket key to the points of the bucket. */
    var tables: seq<Table<int>>
    const L: nat
    const T: nat
    const w: real
    /** The points inserted so far, in order. */
    ghost var Points: seq<Point>

    ghost predicate Valid()
      reads this
    {
      DraftInvariant(tables, Points, L, T)
    }

    /** HashTables(L, T, w): T empty tables; no projection is stored. */
    constructor (L: nat, T: nat, w: real)
      ensures Valid()
      ensures this.L == L && this.T == T && this.w == w
      ensures tables == seq(T, _ => map[]) && Points == []
    {
      this.L, this.T, this.w := L, T, w;
      tables := seq(T, _ => map[]);
      Points := [];
      new;
      forall t | 0 <= t < T ensures Contents(tables[t]) == Replicated(Points, L) {
        assert tables[t] == map[];
      }
    }

    /** getNumberBucketsAndSumBucketSizes: with N points inserted the sum is N * T * L. */
    method GetNumberBucketsAndSumBucketSizes() returns (numberBuckets: int, sumBucketSizes: int)
      requires Valid()
      ensures numberBuckets == TotalBuckets(tables) && sumBucketSizes == TotalOccurrences(tables)
      ensures sumBucketSizes == T * (|Points| * L)
      ensures 0 <= numberBuckets <= sumBucketSizes
    {
      numberBuckets, sumBucketSizes := BucketStatistics(tables);
      ReplicatedSize(Points, L);
      TotalOccurrencesUniform(tables, |Points| * L);
      TotalBucketsAtMostOccurrences(tables);
    }

    /** The loops of insert(x): x goes into the bucket of every drawn key of every table. */
    method PushDrawn(x: Point, drawn: seq<seq<int>>)
      requires |tables| == T && DrawnKeys(drawn, L, T)
      modifies this`tables
      ensures tables == InsertDraw(old(tables), drawn, x)
    {
      var t := 0;
      while t < T
        invariant 0 <= t <= T && |tables| == T
        invariant forall i :: 0 <= i < t ==> tables[i] == PushAll(old(tables)[i], drawn[i], x)
        invariant forall i :: t <= i < T ==> tables[i] == old(tables)[i]
      {
        var hashValue := drawn[t];
        var l := 0;
        while l < L
          invariant 0 <= l <= L && |tables| == T
          invariant tables[t] == PushAll(old(tables)[t], hashValue[..l], x)
          invariant forall i :: 0 <= i < t ==> tables[i] == PushAll(old(tables)[i], drawn[i], x)
          invariant forall i :: t < i < T ==> tables[i] == old(tables)[i]
        {
          var key := hashValue[l];
          ghost var before := tables[t];
          if key in tables[t] {
            tables := tables[t := tables[t][key := tables[t][key] + [x]]];
          } else {
            assert [x] == [] + [x];
            tables := tables[t := tables[t][key := [x]]];
          }
          assert tables[t] == Push(before, key, x);
          assert hashValue[..l + 1][..l] == hashValue[..l] && hashValue[..l + 1][l] == key;
          l := l + 1;
        }
        assert hashValue[..l] == drawn[t];
        t := t + 1;
      }
    }

    /** insert(x): x is pushed onto the bucket of each of the L keys drawn for each table. */
    method Insert(x: Point, drawn: seq<seq<int>>)
      requires Valid() && DrawnKeys(drawn, L, T)
      modifies this`tables, this`Points
      ensures Valid()
      ensures tables == InsertDraw(old(tables), drawn, x)
      ensures Points == old(Points) + [x]
    {
      InsertDrawKeepsInvariant(tables, Points, L, T, drawn, x);
      PushDrawn(x, drawn);
      Points := Points + [x];
    }

    /** countNeighbors(point): the size of point's neighbour set, point itself excluded. */
    method CountNeighbors(point: Point) returns (count: nat)
      ensures count == |NeighborSet(tables, point)| - 1
    {
      count := Buckets.CountNeighbors(tables, point);
    }

    /** The insert loop of HashAndEstimatePerHash: the i-th point of data with the keys draws[i]. */
    method InsertAll(data: seq<Point>, draws: seq<seq<seq<int>>>)
      requires Valid() && |draws| == |data| && AllDrawn(draws, L, T)
      modifies this`tables, this`Points
      ensures Valid()
      ensures tables == InsertDrawAll(old(tables), draws, data, |data|)
      ensures Points == old(Points) + data
    {
      for i := 0 to |data|
        invariant Valid()
        invariant tables == InsertDrawAll(old(tables), draws, data, i)
        invariant Points == old(Points) + data[..i]
      {
        Insert(data[i], draws[i]);
        assert data[..i + 1] == data[..i] + [data[i]];
      }
      assert data[..|data|] == data;
    }

    /**
     * HashAndEstimatePerHash(data): inserts every point of data (the i-th with the keys draws[i]),
     * then maps every (key, bucket) pair to its estimator, each table enumerated in orders[t].
     */
    method HashAndEstimatePerHash(data: seq<Point>, draws: seq<seq<seq<int>>>)
      returns (estPerHash: map<Entry, Estimate>, ghost orders: seq<seq<int>>)
      requires Valid() && |draws| == |data| && AllDrawn(draws, L, T)
      modifies this`tables, this`Points
      ensures Valid()
      ensures tables == InsertDrawAll(old(tables), draws, data, |data|)
      ensures Points == old(Points) + data
      ensures |orders| == T && EnumeratedAll(tables, orders)
      ensures estPerHash == DraftEstimates(tables, orders)
    {
      InsertAll(data, draws);
      estPerHash, orders := EstimateTables(tables);
    }

    /** search(x): the points of the buckets of the drawn keys, sorted and without duplicates. */
    method Search(drawn: seq<seq<int>>) returns (results: seq<Point>)
      requires |tables| == T && DrawnKeys(drawn, L, T)
      ensures StrictlyAscending(results, RealsLt)
      ensures forall q :: q in results <==> q in Hits(tables, drawn, T)
    {
      var found := CollectHits(tables, drawn, L);
      RealsLtIsStrictTotal();
      results := Unique(Sort(found, RealsLt), Equal);
      SortUniqueExact(found, RealsLt);
    }

    /**
     * search_tables(x): (key, bucket) entries for the drawn keys that have a bucket, sorted by key
     * and with one entry per key.
     */
    method SearchTables(drawn: seq<seq<int>>) returns (results: seq<Entry>)
      requires |tables| == T && DrawnKeys(drawn, L, T)
      ensures StrictlyAscending(results, KeyLt)
      ensures forall e :: e in results ==> e in Entries(tables, drawn, T)
      ensures forall e :: e in Entries(tables, drawn, T) ==> exists f :: f in results && f.0 == e.0
    {
      var found := CollectEntries(tables, drawn, L);
      results := SortByKey(found);
    }
  }
}
