/**
 * The final LSH index (HashTables2.h): T hash tables, each with L random projections fixed at
 * construction; a point's key in table t is the vector of its L quantised projections
 * floor((dot(x, alpha) + beta) / w). The projections are drawn by the caller and passed in.
 */
module HashTablesFinal {
  import opened Vectors
  import opened Buckets
  import opened Sorting

  /** One random projection: a direction alpha and an offset beta. */
  datatype Projection = Projection(alpha: seq<real>, beta: real)

  /** A bucket key: one integer per projection of the table. */
  type Key = seq<int>

  /** The L projections of one table, each over `dim` coordinates. */
  predicate WellDrawn(projs: seq<Projection>, L: nat, dim: nat)
  {
    |projs| == L && forall l :: 0 <= l < |projs| ==> |projs[l].alpha| == dim
  }

  /** x has no more coordinates than any direction (dot_product reads alpha at each of them). */
  predicate Fits(projs: seq<Projection>, x: Point)
  {
    forall l :: 0 <= l < |projs| ==> |x| <= |projs[l].alpha|
  }

  /** Every direction of every table has `dim` coordinates. */
  predicate DirectionsOfLength(projections: seq<seq<Projection>>, dim: nat)
  {
    forall t, l :: 0 <= t < |projections| && 0 <= l < |projections[t]| ==> |projections[t][l].alpha| == dim
  }

  predicate FitsAll(projections: seq<seq<Projection>>, x: Point)
  {
    forall t :: 0 <= t < |projections| ==> Fits(projections[t], x)
  }

  /** The quantised value of one projection of x. */
  ghost function Slot(p: Projection, w: real, x: Point): int
    requires w > 0.0 && |x| <= |p.alpha|
  {
    ((Dot(x, p.alpha) + p.beta) / w).Floor
  }

  /** The bucket key of x under the projections of one table. */
  ghost function HashKey(projs: seq<Projection>, w: real, x: Point): Key
    requires w > 0.0 && Fits(projs, x)
  {
    seq(|projs|, l requires 0 <= l < |projs| => Slot(projs[l], w, x))
  }

  /** The bucket keys of x in every table. */
  ghost function HashKeys(projections: seq<seq<Projection>>, w: real, x: Point): seq<Key>
    requires w > 0.0 && FitsAll(projections, x)
  {
    seq(|projections|, t requires 0 <= t < |projections| => HashKey(projections[t], w, x))
  }

  /** A value v = q * w with f <= q is at least f * w. */
  lemma BinLow(v: real, w: real, q: real, f: real)
    requires w > 0.0 && q * w == v && f <= q
    ensures f * w <= v
  {
    var e := q - f;
    assert e * w >= 0.0;
    assert q * w == f * w + e * w;
  }

  /** A value v = q * w with q < f + 1 is below (f + 1) * w. */
  lemma BinHigh(v: real, w: real, q: real, f: real)
    requires w > 0.0 && q * w == v && q < f + 1.0
    ensures v < (f + 1.0) * w
  {
    var d := f + 1.0 - q;
    assert d * w > 0.0;
    assert (f + 1.0) * w == d * w + q * w;
  }

  /** The floor of v / w indexes the width-w bin that holds v. */
  lemma FloorBin(v: real, w: real)
    requires w > 0.0
    ensures ((v / w).Floor as real) * w <= v < ((v / w).Floor as real + 1.0) * w
  {
    var q := v / w;
    BinLow(v, w, q, q.Floor as real);
    BinHigh(v, w, q, q.Floor as real);
  }

  /** Entry l of a key is the index of the width-w bin that holds x's l-th projection. */
  lemma HashKeyBins(projs: seq<Projection>, w: real, x: Point, l: nat)
    requires w > 0.0 && Fits(projs, x) && l < |projs|
    ensures var v := Dot(x, projs[l].alpha) + projs[l].beta;
      |HashKey(projs, w, x)| == |projs| &&
      (HashKey(projs, w, x)[l] as real) * w <= v < (HashKey(projs, w, x)[l] as real + 1.0) * w
  {
    FloorBin(Dot(x, projs[l].alpha) + projs[l].beta, w);
  }

  /** insert on values: x is appended to the bucket of its key in every table. */
  ghost function InsertPoint(tables: seq<Table<Key>>, projections: seq<seq<Projection>>, w: real, x: Point): (r: seq<Table<Key>>)
    requires |projections| == |tables| && w > 0.0 && FitsAll(projections, x)
    ensures |r| == |tables|
    ensures forall t :: 0 <= t < |r| ==>
      var key := HashKey(projections[t], w, x);
      && r[t].Keys == tables[t].Keys + {key}
      && r[t][key] == (if key in tables[t] then tables[t][key] else []) + [x]
      && (forall k :: k in tables[t] && k != key ==> r[t][k] == tables[t][k])
  {
    seq(|tables|, t requires 0 <= t < |tables| => Push(tables[t], HashKey(projections[t], w, x), x))
  }

  /** Successive inserts of the points of data, in order. */
  ghost function InsertAll(tables: seq<Table<Key>>, projections: seq<seq<Projection>>, w: real, data: seq<Point>): (r: seq<Table<Key>>)
    requires |projections| == |tables| && w > 0.0
    requires forall i :: 0 <= i < |data| ==> FitsAll(projections, data[i])
    ensures |r| == |tables|
  {
    if data == [] then tables
    else InsertPoint(InsertAll(tables, projections, w, data[..|data| - 1]), projections, w, data[|data| - 1])
  }

  /** An insert adds one point occurrence per table and at most one bucket per table. */
  lemma {:induction false} InsertPointTotals(tables: seq<Table<Key>>, projections: seq<seq<Projection>>, w: real, x: Point)
    requires |projections| == |tables| && w > 0.0 && FitsAll(projections, x)
    ensures TotalOccurrences(InsertPoint(tables, projections, w, x)) == TotalOccurrences(tables) + |tables|
    ensures TotalBuckets(tables) <= TotalBuckets(InsertPoint(tables, projections, w, x)) <= TotalBuckets(tables) + |tables|
  {
    if tables != [] {
      var n := |tables| - 1;
      var after := InsertPoint(tables, projections, w, x);
      assert InsertPoint(tables[..n], projections[..n], w, x) == after[..n];
      InsertPointTotals(tables[..n], projections[..n], w, x);
      PushContents(tables[n], HashKey(projections[n], w, x), x);
    }
  }

  /** Every stored point sits in the bucket of its own key and fits the projections. */
  ghost predicate Consistent(tables: seq<Table<Key>>, projections: seq<seq<Projection>>, w: real, dim: nat)
    requires |projections| == |tables| && w > 0.0
    requires DirectionsOfLength(projections, dim)
  {
    forall t, k, p :: 0 <= t < |tables| && k in tables[t] && p in tables[t][k] ==>
      |p| <= dim && HashKey(projections[t], w, p) == k
  }

  /** Every table holds exactly the inserted points, each as often as it was inserted. */
  ghost predicate HoldsExactly(tables: seq<Table<Key>>, points: seq<Point>)
  {
    forall t :: 0 <= t < |tables| ==> Contents(tables[t]) == multiset(points)
  }

  /** A point no longer than the directions fits every projection. */
  lemma ShortPointFits(projections: seq<seq<Projection>>, dim: nat, x: Point)
    requires DirectionsOfLength(projections, dim) && |x| <= dim
    ensures FitsAll(projections, x)
  {
  }

  /** The shape fixed at construction: T tables, T x L projections over dim coordinates, w > 0. */
  ghost predicate Shaped(tables: seq<Table<Key>>, projections: seq<seq<Projection>>, L: nat, T: nat, w: real, dim: nat)
  {
    && w > 0.0
    && |tables| == T
    && |projections| == T
    && (forall t :: 0 <= t < T ==> |projections[t]| == L)
    && DirectionsOfLength(projections, dim)
  }

  /**
   * The invariant of the index: buckets are non-empty, every point sits in the bucket of its own
   * key, every table holds exactly the inserted points, and hashes[i] holds the keys of points[i].
   */
  ghost predicate IndexInvariant(tables: seq<Table<Key>>, projections: seq<seq<Projection>>, hashes: seq<seq<Key>>,
                                 points: seq<Point>, L: nat, T: nat, w: real, dim: nat)
  {
    && Shaped(tables, projections, L, T, w, dim)
    && NonEmptyBuckets(tables)
    && Consistent(tables, projections, w, dim)
    && HoldsExactly(tables, points)
    && (forall i :: 0 <= i < |points| ==> |points[i]| <= dim)
    && |hashes| == |points|
    && (forall i :: 0 <= i < |points| ==> FitsAll(projections, points[i]) && hashes[i] == HashKeys(projections, w, points[i]))
  }

  lemma InsertKeepsConsistent(tables: seq<Table<Key>>, projections: seq<seq<Projection>>, w: real, dim: nat, x: Point)
    requires |projections| == |tables| && w > 0.0 && DirectionsOfLength(projections, dim)
    requires Consistent(tables, projections, w, dim) && |x| <= dim && FitsAll(projections, x)
    ensures Consistent(InsertPoint(tables, projections, w, x), projections, w, dim)
  {
    var r := InsertPoint(tables, projections, w, x);
    forall t, k, p | 0 <= t < |r| && k in r[t] && p in r[t][k]
      ensures |p| <= dim && HashKey(projections[t], w, p) == k
    {
      var key := HashKey(projections[t], w, x);
      if k != key {
        assert p in tables[t][k];
      } else if p != x {
        assert p in tables[t][k];
      }
    }
  }

  lemma InsertKeepsHoldsExactly(tables: seq<Table<Key>>, projections: seq<seq<Projection>>, w: real, points: seq<Point>, x: Point)
    requires |projections| == |tables| && w > 0.0 && FitsAll(projections, x)
    requires HoldsExactly(tables, points)
    ensures HoldsExactly(InsertPoint(tables, projections, w, x), points + [x])
  {
    var r := InsertPoint(tables, projections, w, x);
    forall t | 0 <= t < |r| ensures Contents(r[t]) == multiset(points + [x]) {
      var key := HashKey(projections[t], w, x);
      assert r[t] == Push(tables[t], key, x);
      PushContents(tables[t], key, x);
    }
  }

  /** insert keeps the invariant of the index, with x appended to the points and its keys to the hashes. */
  lemma InsertKeepsInvariant(tables: seq<Table<Key>>, projections: seq<seq<Projection>>, hashes: seq<seq<Key>>,
                             points: seq<Point>, L: nat, T: nat, w: real, dim: nat, x: Point)
    requires IndexInvariant(tables, projections, hashes, points, L, T, w, dim) && |x| <= dim
    ensures FitsAll(projections, x)
    ensures IndexInvariant(InsertPoint(tables, projections, w, x), projections, hashes + [HashKeys(projections, w, x)],
                           points + [x], L, T, w, dim)
  {
    ShortPointFits(projections, dim, x);
    InsertKeepsConsistent(tables, projections, w, dim, x);
    InsertKeepsHoldsExactly(tables, projections, w, points, x);
    InsertKeepsNonEmpty(tables, projections, w, x);
    InsertKeepsHashes(projections, hashes, points, w, dim, x);
  }

  lemma InsertKeepsNonEmpty(tables: seq<Table<Key>>, projections: seq<seq<Projection>>, w: real, x: Point)
    requires |projections| == |tables| && w > 0.0 && FitsAll(projections, x) && NonEmptyBuckets(tables)
    ensures NonEmptyBuckets(InsertPoint(tables, projections, w, x))
  {
  }

  lemma InsertKeepsHashes(projections: seq<seq<Projection>>, hashes: seq<seq<Key>>, points: seq<Point>, w: real, dim: nat, x: Point)
    requires w > 0.0 && |hashes| == |points| && |x| <= dim && FitsAll(projections, x)
    requires forall i :: 0 <= i < |points| ==> |points[i]| <= dim
    requires forall i :: 0 <= i < |points| ==> FitsAll(projections, points[i]) && hashes[i] == HashKeys(projections, w, points[i])
    ensures var points', hashes' := points + [x], hashes + [HashKeys(projections, w, x)];
      && (forall i :: 0 <= i < |points'| ==> |points'[i]| <= dim)
      && forall i :: 0 <= i < |points'| ==> FitsAll(projections, points'[i]) && hashes'[i] == HashKeys(projections, w, points'[i])
  {
  }

  /** An inserted point is found, in every table, in the bucket of its key. */
  lemma InsertedPointIsInItsBuckets(tables: seq<Table<Key>>, projections: seq<seq<Projection>>, w: real, dim: nat,
                                    points: seq<Point>, x: Point, t: nat)
    requires |projections| == |tables| && w > 0.0
    requires DirectionsOfLength(projections, dim)
    requires Consistent(tables, projections, w, dim) && HoldsExactly(tables, points)
    requires x in points && |x| <= dim && t < |tables|
    ensures HashKey(projections[t], w, x) in tables[t] && x in tables[t][HashKey(projections[t], w, x)]
  {
    assert x in multiset(points);
    ContentsMember(tables[t], x);
    var k :| k in tables[t] && x in tables[t][k];
  }

  /** The points of the buckets that x's keys select (search on values). */
  ghost function Found(tables: seq<Table<Key>>, projections: seq<seq<Projection>>, w: real, x: Point): set<Point>
    requires |projections| == |tables| && w > 0.0 && FitsAll(projections, x)
  {
    set t, q | 0 <= t < |tables| && HashKey(projections[t], w, x) in tables[t]
                 && q in tables[t][HashKey(projections[t], w, x)] :: q
  }

  /** For an inserted point, search finds exactly its neighbour set. */
  lemma FoundIsNeighborSet(tables: seq<Table<Key>>, projections: seq<seq<Projection>>, w: real, dim: nat,
                           points: seq<Point>, x: Point)
    requires |projections| == |tables| && w > 0.0 && 0 < |tables|
    requires DirectionsOfLength(projections, dim)
    requires Consistent(tables, projections, w, dim) && HoldsExactly(tables, points)
    requires x in points && |x| <= dim
    ensures Found(tables, projections, w, x) == NeighborSet(tables, x)
  {
    var found := Found(tables, projections, w, x);
    InsertedPointIsInItsBuckets(tables, projections, w, dim, points, x, 0);
    assert x in found;
    forall q | q in found ensures q in NeighborSet(tables, x) {
      var t :| 0 <= t < |tables| && HashKey(projections[t], w, x) in tables[t]
                 && q in tables[t][HashKey(projections[t], w, x)];
      InsertedPointIsInItsBuckets(tables, projections, w, dim, points, x, t);
    }
    forall q | q in CoBucketed(tables, x) ensures q in found {
      var t, k :| 0 <= t < |tables| && k in tables[t] && x in tables[t][k] && q in tables[t][k];
      assert HashKey(projections[t], w, x) == k;
    }
  }

  /** The keys that search_tables reports among the first n tables (L copies of a key collapse to one). */
  ghost function FoundKeys(tables: seq<Table<Key>>, projections: seq<seq<Projection>>, w: real, x: Point, L: nat, n: nat): set<Key>
    requires |projections| == |tables| && n <= |tables| && w > 0.0 && FitsAll(projections, x)
  {
    set t | 0 <= t < n && 0 < L && HashKey(projections[t], w, x) in tables[t] :: HashKey(projections[t], w, x)
  }

  /** An inserted point's key of every table is among the keys search_tables reports. */
  lemma InsertedKeysAreFound(tables: seq<Table<Key>>, projections: seq<seq<Projection>>, w: real, dim: nat,
                             points: seq<Point>, x: Point, L: nat)
    requires |projections| == |tables| && w > 0.0 && 0 < L
    requires DirectionsOfLength(projections, dim)
    requires Consistent(tables, projections, w, dim) && HoldsExactly(tables, points)
    requires x in points && |x| <= dim
    ensures forall t :: 0 <= t < |tables| ==> HashKey(projections[t], w, x) in FoundKeys(tables, projections, w, x, L, |tables|)
  {
    forall t | 0 <= t < |tables| ensures HashKey(projections[t], w, x) in FoundKeys(tables, projections, w, x, L, |tables|) {
      InsertedPointIsInItsBuckets(tables, projections, w, dim, points, x, t);
    }
  }

  /** The estimator of a bucket of ea points whose neighbour counts add up to s: EA / EB with EB = s / EA. */
  function Estimate(ea: real, s: real): real
    requires ea > 0.0
  {
    var eb := s / ea;
    if eb > 0.0 then ea / eb else 0.0
  }

  /** With EB = s / EA, the estimator is EA^2 / s when s is positive and 0 when s is 0. */
  lemma EstimateClosedForm(ea: real, s: real)
    requires ea > 0.0 && s >= 0.0
    ensures s == 0.0 ==> Estimate(ea, s) == 0.0
    ensures s > 0.0 ==> Estimate(ea, s) == ea * ea / s && Estimate(ea, s) > 0.0
  {
    var eb := s / ea;
    if s > 0.0 {
      assert eb > 0.0;
      assert ea / eb == ea * ea / s;
    } else {
      assert eb == 0.0;
    }
  }

  /**
   * The estimator of one bucket: EA = |bucket|, EB = (sum of the neighbour counts of its points) / EA,
   * and EA / EB when EB is positive, 0 otherwise.
   */
  ghost function BucketEstimate(tables: seq<Table<Key>>, bucket: seq<Point>): real
    requires |bucket| > 0
  {
    Estimate(|bucket| as real, NeighborSum(tables, bucket) as real)
  }

  /** The estimators of the buckets of table t whose keys lie in `keys`. */
  ghost function TableEstimates(tables: seq<Table<Key>>, t: nat, keys: set<Key>): map<Key, real>
    requires t < |tables| && NonEmptyBuckets(tables)
  {
    map k | k in keys && k in tables[t] :: BucketEstimate(tables, tables[t][k])
  }

  /** The estimator map after the first n tables; a key met again in a later table is overwritten. */
  ghost function EstimatesUpTo(tables: seq<Table<Key>>, n: nat): map<Key, real>
    requires n <= |tables| && NonEmptyBuckets(tables)
  {
    if n == 0 then map[] else EstimatesUpTo(tables, n - 1) + TableEstimates(tables, n - 1, tables[n - 1].Keys)
  }

  /** The estimator map HashAndEstimatePerHash returns for a populated index. */
  ghost function EstimatorMap(tables: seq<Table<Key>>): map<Key, real>
    requires NonEmptyBuckets(tables)
  {
    EstimatesUpTo(tables, |tables|)
  }

  /** Every estimator is non-negative. */
  lemma {:induction false} EstimatesNonNegative(tables: seq<Table<Key>>, n: nat)
    requires n <= |tables| && NonEmptyBuckets(tables)
    ensures forall k :: k in EstimatesUpTo(tables, n) ==> EstimatesUpTo(tables, n)[k] >= 0.0
  {
    if n > 0 {
      var prev := EstimatesUpTo(tables, n - 1);
      var last := TableEstimates(tables, n - 1, tables[n - 1].Keys);
      EstimatesNonNegative(tables, n - 1);
      forall k | k in prev + last ensures (prev + last)[k] >= 0.0 {
        if k in last {
          var bucket := tables[n - 1][k];
          EstimateClosedForm(|bucket| as real, NeighborSum(tables, bucket) as real);
        }
      }
    }
  }

  /** The estimator map has one entry per key occurring in some table. */
  lemma {:induction false} EstimatesKeys(tables: seq<Table<Key>>, n: nat)
    requires n <= |tables| && NonEmptyBuckets(tables)
    ensures forall k :: k in EstimatesUpTo(tables, n) <==> exists t :: 0 <= t < n && k in tables[t]
  {
    if n > 0 {
      EstimatesKeys(tables, n - 1);
      var last := TableEstimates(tables, n - 1, tables[n - 1].Keys);
      assert last.Keys == tables[n - 1].Keys;
      forall k ensures k in EstimatesUpTo(tables, n) <==> exists t :: 0 <= t < n && k in tables[t] {
        if exists t :: 0 <= t < n && k in tables[t] {
          var t :| 0 <= t < n && k in tables[t];
          if t < n - 1 {
            assert k in EstimatesUpTo(tables, n - 1);
          }
        }
      }
    }
  }

  /** A key present in several tables keeps the estimator of the bucket in the highest-indexed one. */
  lemma {:induction false} EstimatesLastTableWins(tables: seq<Table<Key>>, n: nat, t: nat, k: Key)
    requires n <= |tables| && NonEmptyBuckets(tables)
    requires t < n && k in tables[t] && forall u :: t < u < n ==> k !in tables[u]
    ensures k in EstimatesUpTo(tables, n) && EstimatesUpTo(tables, n)[k] == BucketEstimate(tables, tables[t][k])
  {
    if t < n - 1 {
      EstimatesLastTableWins(tables, n - 1, t, k);
    }
  }

  /** Updating a union at k is updating its right operand at k. */
  lemma UnionUpdate<K, V>(a: map<K, V>, b: map<K, V>, k: K, v: V)
    ensures (a + b)[k := v] == a + b[k := v]
  {
  }

  lemma TableEstimatesStep(tables: seq<Table<Key>>, t: nat, visited: set<Key>, key: Key, estPerHash: map<Key, real>)
    requires t < |tables| && NonEmptyBuckets(tables) && key in tables[t]
    ensures (estPerHash + TableEstimates(tables, t, visited))[key := BucketEstimate(tables, tables[t][key])]
      == estPerHash + TableEstimates(tables, t, visited + {key})
  {
    var estimate := BucketEstimate(tables, tables[t][key]);
    assert TableEstimates(tables, t, visited + {key}) == TableEstimates(tables, t, visited)[key := estimate];
    UnionUpdate(estPerHash, TableEstimates(tables, t, visited), key, estimate);
  }

  /**
   * One table's part of the estimator loop: writes the estimator of each of its buckets under the
   * bucket's key, the buckets taken in the enumeration order of the unordered_map.
   */
  method EstimateTable(tables: seq<Table<Key>>, t: nat, estPerHash: map<Key, real>) returns (result: map<Key, real>)
    requires t < |tables| && NonEmptyBuckets(tables)
    ensures result == estPerHash + TableEstimates(tables, t, tables[t].Keys)
  {
    result := estPerHash;
    var table := tables[t];
    var order := EnumerateKeys(table);
    for i := 0 to |order|
      invariant result == estPerHash + TableEstimates(tables, t, Elements(order[..i]))
    {
      var key := order[i];
      var bucket := table[key];
      var ea := |bucket| as real;
      var eb := SumNeighborCounts(tables, bucket);
      var estimate := Estimate(ea, eb as real);
      TableEstimatesStep(tables, t, Elements(order[..i]), key, estPerHash);
      ElementsPrefix(order, i);
      result := result[key := estimate];
    }
    assert Elements(order[..|order|]) == table.Keys by {
      assert order[..|order|] == order;
    }
  }

  /**
   * The estimator half of HashAndEstimatePerHash: for every bucket of every table, in table order,
   * EA = bucket size, EB = average neighbour count of its points, estimator EA / EB (0 when EB is 0).
   */
  method EstimateBuckets(tables: seq<Table<Key>>) returns (estPerHash: map<Key, real>)
    requires NonEmptyBuckets(tables)
    ensures estPerHash == EstimatorMap(tables)
  {
    estPerHash := map[];
    var t := 0;
    while t < |tables|
      invariant 0 <= t <= |tables|
      invariant estPerHash == EstimatesUpTo(tables, t)
    {
      estPerHash := EstimateTable(tables, t, estPerHash);
      t := t + 1;
    }
  }

  class HashTables {
    /** tables[t]: bucket key to the points of the bucket. */
    var tables: seq<Table<Key>>
    /** randomProjections[t]: the L projections of table t, fixed at construction. */
    var randomProjections: seq<seq<Projection>>
    /** For each inserted point, its key in every table. */
    var hashesPerPoints: seq<seq<Key>>
    const L: nat
    const T: nat
    const w: real
    const dim: nat
    /** The points inserted so far, in order. */
    ghost var Points: seq<Point>

    /** The projections: T tables of L projections over dim coordinates, and a positive width. */
    ghost predicate Drawn()
      reads this`randomProjections
    {
      && w > 0.0
      && |randomProjections| == T
      && (forall t :: 0 <= t < T ==> |randomProjections[t]| == L)
      && DirectionsOfLength(randomProjections, dim)
    }

    ghost predicate Valid()
      reads this
    {
      IndexInvariant(tables, randomProjections, hashesPerPoints, Points, L, T, w, dim)
    }

    /** HashTables(L, T, w, dim): T empty tables and the given T x L projections. */
    constructor (L: nat, T: nat, w: real, dim: nat, projections: seq<seq<Projection>>)
      requires w > 0.0 && |projections| == T
      requires forall t :: 0 <= t < T ==> WellDrawn(projections[t], L, dim)
      ensures Valid() && Drawn()
      ensures this.L == L && this.T == T && this.w == w && this.dim == dim
      ensures tables == seq(T, _ => map[]) && randomProjections == projections
      ensures hashesPerPoints == [] && Points == []
    {
      this.L, this.T, this.w, this.dim := L, T, w, dim;
      tables := seq(T, _ => map[]);
      randomProjections := projections;
      hashesPerPoints := [];
      Points := [];
      new;
      forall t | 0 <= t < T ensures Contents(tables[t]) == multiset(Points) {
        assert tables[t] == map[];
      }
    }

    /** hash(x, t): the key of x in table t. */
    method Hash(x: Point, t: nat) returns (hashValues: Key)
      requires Drawn() && t < T && |x| <= dim
      ensures FitsAll(randomProjections, x)
      ensures hashValues == HashKey(randomProjections[t], w, x)
    {
      hashValues := seq(L, _ => 0);
      var l := 0;
      while l < L
        invariant 0 <= l <= L && |hashValues| == L
        invariant forall i :: 0 <= i < l ==> hashValues[i] == Slot(randomProjections[t][i], w, x)
      {
        var numerator := DotProduct(x, randomProjections[t][l].alpha);
        numerator := numerator + randomProjections[t][l].beta;
        hashValues := hashValues[l := (numerator / w).Floor];
        l := l + 1;
      }
    }

    /** The loop of insert(x): appends x to the bucket of its key in every table, collecting the keys. */
    method PushIntoTables(x: Point) returns (hashesPerPoint: seq<Key>)
      requires Drawn() && |tables| == T && |x| <= dim
      modifies this`tables
      ensures FitsAll(randomProjections, x)
      ensures tables == InsertPoint(old(tables), randomProjections, w, x)
      ensures hashesPerPoint == HashKeys(randomProjections, w, x)
    {
      ShortPointFits(randomProjections, dim, x);
      hashesPerPoint := [];
      var t := 0;
      while t < T
        invariant 0 <= t <= T && |tables| == T
        invariant hashesPerPoint == HashKeys(randomProjections, w, x)[..t]
        invariant forall i :: 0 <= i < t ==> tables[i] == Push(old(tables)[i], HashKey(randomProjections[i], w, x), x)
        invariant forall i :: t <= i < T ==> tables[i] == old(tables)[i]
      {
        var hashValue := Hash(x, t);
        assert tables[t] == old(tables)[t];
        hashesPerPoint := hashesPerPoint + [hashValue];
        if hashValue !in tables[t] {
          assert [x] == [] + [x];
          tables := tables[t := tables[t][hashValue := [x]]];
        } else {
          tables := tables[t := tables[t][hashValue := tables[t][hashValue] + [x]]];
        }
        assert tables[t] == Push(old(tables)[t], hashValue, x);
        t := t + 1;
      }
    }

    /** insert(x): appends x to the bucket of its key in every table and records its keys. */
    method Insert(x: Point)
      requires Valid() && |x| <= dim
      modifies this`tables, this`hashesPerPoints, this`Points
      ensures Valid() && FitsAll(randomProjections, x)
      ensures tables == InsertPoint(old(tables), randomProjections, w, x)
      ensures hashesPerPoints == old(hashesPerPoints) + [HashKeys(randomProjections, w, x)]
      ensures Points == old(Points) + [x]
    {
      InsertKeepsInvariant(tables, randomProjections, hashesPerPoints, Points, L, T, w, dim, x);
      var hashesPerPoint := PushIntoTables(x);
      hashesPerPoints := hashesPerPoints + [hashesPerPoint];
      Points := Points + [x];
    }

    /** getNumberBucketsAndSumBucketSizes: with N points inserted the sum is N * T. */
    method GetNumberBucketsAndSumBucketSizes() returns (numberBuckets: int, sumBucketSizes: int)
      requires Valid()
      ensures numberBuckets == TotalBuckets(tables) && sumBucketSizes == TotalOccurrences(tables)
      ensures sumBucketSizes == |Points| * T
      ensures 0 <= numberBuckets <= sumBucketSizes
    {
      numberBuckets, sumBucketSizes := BucketStatistics(tables);
      TotalOccurrencesUniform(tables, |Points|);
      TotalBucketsAtMostOccurrences(tables);
    }

    /** countNeighbors(point): for an inserted point this is one less than the size of search(point). */
    method CountNeighbors(point: Point) returns (count: nat)
      requires Valid()
      ensures count == |NeighborSet(tables, point)| - 1
      ensures point in Points && 0 < T ==> count == |Found(tables, randomProjections, w, point)| - 1
    {
      count := Buckets.CountNeighbors(tables, point);
      if point in Points && 0 < T {
        FoundIsNeighborSet(tables, randomProjections, w, dim, Points, point);
      }
    }

    /** HashAndEstimatePerHash(data): inserts every point of data, then maps each bucket key to its estimator. */
    method HashAndEstimatePerHash(data: seq<Point>) returns (estPerHash: map<Key, real>)
      requires Valid() && forall i :: 0 <= i < |data| ==> |data[i]| <= dim
      modifies this`tables, this`hashesPerPoints, this`Points
      ensures Valid() && forall i :: 0 <= i < |data| ==> FitsAll(randomProjections, data[i])
      ensures tables == InsertAll(old(tables), randomProjections, w, data)
      ensures Points == old(Points) + data
      ensures estPerHash == EstimatorMap(tables)
    {
      forall i | 0 <= i < |data| ensures FitsAll(randomProjections, data[i]) {
        ShortPointFits(randomProjections, dim, data[i]);
      }
      var i := 0;
      while i < |data|
        invariant 0 <= i <= |data| && Valid()
        invariant tables == InsertAll(old(tables), randomProjections, w, data[..i])
        invariant Points == old(Points) + data[..i]
      {
        Insert(data[i]);
        assert data[..i + 1][..i] == data[..i];
        i := i + 1;
      }
      assert data[..i] == data;

      estPerHash := EstimateBuckets(tables);
    }

    /** search(x): every point of the buckets x's keys select. */
    method Search(x: Point) returns (results: set<Point>)
      requires Drawn() && |tables| == T && |x| <= dim
      ensures results == Found(tables, randomProjections, w, x)
    {
      results := {};
      var t := 0;
      while t < T
        invariant 0 <= t <= T
        invariant results == set i, q | 0 <= i < t && HashKey(randomProjections[i], w, x) in tables[i]
                                        && q in tables[i][HashKey(randomProjections[i], w, x)] :: q
      {
        var hashValue := Hash(x, t);
        if hashValue in tables[t] {
          results := results + set q | q in tables[t][hashValue];
        }
        t := t + 1;
      }
    }

    /** search_tables(x): the keys of x that have a bucket, strictly ascending. */
    method SearchTables(x: Point) returns (results: seq<Key>)
      requires Drawn() && |tables| == T && |x| <= dim
      ensures StrictlyAscending(results, IntsLt)
      ensures forall k :: k in results <==> k in FoundKeys(tables, randomProjections, w, x, L, T)
    {
      results := [];
      var t := 0;
      while t < T
        invariant 0 <= t <= T
        invariant forall k :: k in results <==> k in FoundKeys(tables, randomProjections, w, x, L, t)
      {
        var hashValue := Hash(x, t);
        var l := 0;
        while l < L
          invariant 0 <= l <= L
          invariant forall k :: k in results <==>
            k in FoundKeys(tables, randomProjections, w, x, L, t) || (0 < l && hashValue in tables[t] && k == hashValue)
        {
          if hashValue in tables[t] {
            results := results + [hashValue];
          }
          l := l + 1;
        }
        t := t + 1;
      }
      IntsLtIsStrictTotal();
      ghost var found := results;
      results := Sort(results, IntsLt);
      results := Unique(results, Equal);
      SortUniqueExact(found, IntsLt);
    }
  }
}
