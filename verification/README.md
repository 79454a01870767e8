# LSH anomaly detection: a verified model of the hash-table index and the threshold

The repository detects anomalies with locality-sensitive hashing. Points are hashed into `T` hash
tables. In each table, points whose random projections fall into the same quantisation bins share a
bucket. Each bucket then gets a density estimator built from its size (`EA`) and the number of
neighbours its points have (`EB`). The anomaly threshold is the estimator at rank
`(1 - anomalyRatio) * size` of the sorted estimators.

The model has six modules, one file each:

- `Vectors` (vectors.dfy): points as `seq<real>` and `dot_product`.
- `Sorting` (sorting.dfy): `std::sort` and `std::unique` over a strict order, and the lexicographic
  order of `std::vector`.
- `Buckets` (buckets.dfy): the parts both versions of `HashTables` share, stated once over a generic
  key type:
  - a table as `map<K, seq<Point>>`
  - the bucket statistics
  - `countNeighbors`
  - the enumeration of an `unordered_map`
- `HashTablesFinal` (hash_tables_final.dfy): the final index of HashTables2.h.
  - Bucket keys are the `L` integers `floor((dot(x, alpha) + beta) / w)`.
  - The projections are fixed at construction.
  - The class `HashTables` keeps `tables`, `randomProjections` and `hashesPerPoints` as fields that
    its methods update. Each method is proved against value-level functions such as `InsertPoint`,
    `EstimatorMap` and `Found`.
- `HashTablesDraft` (hash_tables_draft.dfy): the earlier index of HashTables.h.
  - Keys are single integers.
  - `L` fresh keys per table are drawn on every call.
  - Its estimator loop is kept as written: `EB` is carried from bucket to bucket, and nothing guards
    the division by zero.
- `Lshad` (lshad.dfy): the `LSHAD` object and `findThreshold`. The index is computed in 64-bit
  `size_t` arithmetic, as the C++ conversion rules dictate.

Draws that are random in the source are parameters in the model:

- the final index's projections (a constructor argument);
- the draft's per-call keys (`drawn`: `T` sequences of `L` keys).

An `unordered_map`'s iteration order is `Buckets.EnumerateKeys`, a method that only promises to
list every key once. Where the result depends on that order, as in the draft estimator, a ghost
out-parameter returns the order that was used.

## Model

| member | source | states |
|---|---|---|
| Vectors.DotProduct | HashTables2.h:17-25 | the loop's result is the left-to-right sum of `v1[i] * v2[i]` over the indices of `v1` |
| Vectors.DotSymmetric | HashTables2.h:17-25 | for vectors of equal length the dot product does not depend on argument order |
| Buckets.BucketStatistics | HashTables2.h:167-179 | the two accumulators end as the number of buckets over all tables and the sum of all bucket lengths |
| Buckets.TotalBucketsAtMostOccurrences | HashTables2.h:167-179 | with no empty bucket, the bucket count is at most the sum of bucket sizes |
| Buckets.CountNeighbors | HashTables2.h:181-213 | the count is the size of `{p}` together with every bucket that holds `p`, minus one |
| Buckets.AddSharedIn | HashTables2.h:190-195 | scanning one table adds exactly the buckets that contain `p` to the neighbour set |
| Buckets.NeighborSymmetric | HashTables2.h:181-196 | `q` is a neighbour of `p` exactly when `p` is a neighbour of `q` |
| Buckets.UnheldPointHasNoNeighbor | HashTables2.h:181-213 | a point in no bucket has only itself in its neighbour set, so its count is 0 |
| Buckets.SumNeighborCounts | HashTables2.h:242-248 | the sum of the neighbour counts of a bucket's points, one per occurrence |
| Buckets.PushContents | HashTables2.h:156-161 | appending to a bucket, existing or new, adds exactly one occurrence of the point to the table's contents |
| Buckets.EnumerateKeys | HashTables2.h:227-229 | the enumeration of an `unordered_map` lists each key exactly once and nothing else |
| Sorting.Sort | HashTables2.h:297 | `std::sort` yields a permutation of its input with no inversion |
| Sorting.UniqueAscending | HashTables2.h:298 | `std::unique` on a sorted sequence, with an equality that covers the order's ties, leaves it strictly ascending |
| Sorting.SortUniqueExact | HashTables2.h:297-298 | sort followed by unique, for a total order, is strictly ascending and holds exactly the input's values |
| Sorting.IntsLtIsStrictTotal | HashTables2.h:297 | `vector<ll>`'s `operator<` is a strict total order |
| HashTablesFinal.FloorBin | HashTables2.h:141 | `floor(v / w)` is the bin `f` with `f * w <= v < (f + 1) * w` |
| HashTablesFinal.HashKeyBins | HashTables2.h:137-145 | the key has `L` entries, and entry `l` is the bin of `dot(x, alpha_l) + beta_l` |
| HashTablesFinal.HashTables.constructor | HashTables2.h:97-105 | `T` empty tables; the given `T` lists of `L` projections of dimension `dim` are kept |
| HashTablesFinal.HashTables.Hash | HashTables2.h:137-145 | the key of `x` in table `t`, a function of `x` and `t` only |
| HashTablesFinal.InsertPoint | HashTables2.h:147-164 | in every table, `x` is appended to the bucket of its key, which exists afterwards; every other bucket is unchanged |
| HashTablesFinal.HashTables.PushIntoTables | HashTables2.h:150-162 | the tables become `InsertPoint` of the old tables, and the keys of `x` are returned in table order |
| HashTablesFinal.HashTables.Insert | HashTables2.h:147-164 | the tables are updated as `InsertPoint`; one entry of `T` keys is appended to `hashesPerPoints`; the index invariant is kept |
| HashTablesFinal.InsertPointTotals | HashTables2.h:149-163 | an insert adds exactly `T` occurrences and at most `T` buckets |
| HashTablesFinal.InsertKeepsInvariant | HashTables2.h:147-164 | the index invariant is preserved: every bucket is non-empty, every point sits under its own key, contents equal `T` copies of the inserted points, and `hashesPerPoints` matches |
| HashTablesFinal.InsertedPointIsInItsBuckets | HashTables2.h:156-161 | an inserted point is found in the bucket of its key in every table |
| HashTablesFinal.HashTables.GetNumberBucketsAndSumBucketSizes | HashTables2.h:167-179 | returns (total buckets, total occurrences); the total is `N * T` after `N` inserts, and the bucket count is at most that |
| HashTablesFinal.HashTables.CountNeighbors | HashTables2.h:181-213 | the neighbour count; for an inserted point it is one less than the size of `search(point)` |
| HashTablesFinal.EstimateClosedForm | HashTables2.h:251-253 | the estimator is `EA^2 / sum` when the neighbour sum is positive and 0 otherwise, so it is never negative |
| HashTablesFinal.EstimateTable | HashTables2.h:229-257 | one table's pass overwrites the running map with that table's bucket estimators |
| HashTablesFinal.EstimateBuckets | HashTables2.h:227-258 | the loop over all tables yields `EstimatorMap(tables)` |
| HashTablesFinal.EstimatesNonNegative | HashTables2.h:253 | every estimator is `>= 0` |
| HashTablesFinal.EstimatesKeys | HashTables2.h:227-258 | the keys of the estimator map are the union of all tables' keys |
| HashTablesFinal.EstimatesLastTableWins | HashTables2.h:227-258 | a key present in several tables keeps the estimate of the highest-indexed one |
| HashTablesFinal.HashTables.HashAndEstimatePerHash | HashTables2.h:216-261 | first inserts every data point in order, then returns `EstimatorMap` of the resulting tables |
| HashTablesFinal.FoundIsNeighborSet | HashTables2.h:264-280 | for an inserted point, the union of its own buckets is its neighbour set |
| HashTablesFinal.HashTables.Search | HashTables2.h:264-280 | the union over tables of the bucket of `x`'s key, where that bucket exists |
| HashTablesFinal.HashTables.SearchTables | HashTables2.h:282-301 | strictly ascending, duplicate-free, and holding exactly those keys of `x` whose bucket exists |
| HashTablesFinal.InsertedKeysAreFound | HashTables2.h:282-301 | for an inserted point with `L > 0`, every one of its `T` keys is in the result |
| HashTablesDraft.HashTables.constructor | HashTables.h:94-96 | `T` empty tables, no projections, no points |
| HashTablesDraft.PushAllKeys | HashTables.h:120-122 | after pushing under the drawn keys, the keys are the old ones plus the drawn ones |
| HashTablesDraft.PushAllBuckets | HashTables.h:120-122 | each bucket gains one copy of `x` per time its key was drawn; undrawn buckets are unchanged |
| HashTablesDraft.PushAllContents | HashTables.h:120-122 | a table's contents grow by exactly `L` copies of `x` |
| HashTablesDraft.HashTables.PushDrawn | HashTables.h:113-124 | the nested loops leave the tables as `InsertDraw` of the old tables |
| HashTablesDraft.HashTables.Insert | HashTables.h:113-124 | the tables become `InsertDraw` of the old ones, and the draft invariant is kept |
| HashTablesDraft.InsertDrawTotals | HashTables.h:113-124 | an insert adds exactly `T * L` occurrences |
| HashTablesDraft.InsertDrawKeepsInvariant | HashTables.h:113-124 | every bucket stays non-empty, and each table's contents are `L` copies of every inserted point |
| HashTablesDraft.HashTables.GetNumberBucketsAndSumBucketSizes | HashTables.h:99-111 | returns (total buckets, total occurrences); the total is `T * N * L` after `N` inserts, and the bucket count is at most that |
| HashTablesDraft.HashTables.CountNeighbors | HashTables.h:126-147 | the count is the size of `{p}` together with every bucket holding `p`, minus one |
| HashTablesDraft.HashTables.InsertAll | HashTables.h:155-157 | inserts the data points in order with their draws |
| HashTablesDraft.Quotient | HashTables.h:174 | `EA / EB` is infinite exactly when `EB == 0`, and a positive finite value when `EB > 0` |
| HashTablesDraft.CarryFacts | HashTables.h:168-173 | the carried `EB` stays `>= 0`, and it is 0 exactly when the previous `EB` and this bucket's neighbour sum are both 0 |
| HashTablesDraft.DraftEBNonNegative | HashTables.h:161-173 | along a table's enumeration, `EB` never becomes negative |
| HashTablesDraft.DraftEBZeroIff | HashTables.h:161-173 | `EB` is 0 after a prefix of the enumeration exactly when every bucket in that prefix has a neighbour sum of 0 |
| HashTablesDraft.DraftRunKeys | HashTables.h:163-175 | a table's pass adds exactly the pairs (key, bucket contents) of the buckets it enumerates |
| HashTablesDraft.DraftEntry | HashTables.h:163-175 | the entry of the `i`-th bucket is its `EA` divided by `EB` carried through the first `i + 1` buckets |
| HashTablesDraft.DraftEntryInfinite | HashTables.h:161-175 | the `i`-th bucket's entry is infinite exactly when no bucket up to it has a neighbour |
| HashTablesDraft.EstimateTable | HashTables.h:161-175 | one table's loop, with `EB` carried, yields the value-level run over the enumeration it used |
| HashTablesDraft.EstimateTables | HashTables.h:160-176 | the loop over all tables yields `DraftEstimates` over the enumerations used |
| HashTablesDraft.HashTables.HashAndEstimatePerHash | HashTables.h:149-179 | inserts all points, then returns `DraftEstimates` of the resulting tables with one enumeration per table |
| HashTablesDraft.DraftIsolatedBucketIsInfinite | HashTables.h:173-174 | a one-point index gets an infinite estimator |
| HashTablesDraft.DraftOrderMatters | HashTables.h:161-175 | the same table enumerated in two orders gives the same bucket the estimator 1 or infinity |
| HashTablesDraft.HitsMember | HashTables.h:186-196 | a point is collected exactly when it is in the bucket of some drawn key that exists |
| HashTablesDraft.CollectHits | HashTables.h:186-196 | the collecting loop yields the concatenation of the hit buckets |
| HashTablesDraft.HashTables.Search | HashTables.h:182-202 | strictly ascending, duplicate-free, holding exactly the collected points |
| HashTablesDraft.EntriesMember | HashTables.h:210-221 | an entry is collected exactly when it pairs an existing drawn key with that key's bucket |
| HashTablesDraft.CollectEntries | HashTables.h:210-221 | the collecting loop yields the concatenation of the (key, bucket) entries |
| HashTablesDraft.KeyOrder | HashTables.h:223-227 | comparing entries by key is a strict order, and key equality covers its ties |
| HashTablesDraft.SortByKey | HashTables.h:223-227 | the result is strictly ascending by key; it holds only collected entries and one entry for every collected key |
| HashTablesDraft.HashTables.SearchTables | HashTables.h:205-230 | strictly ascending by key; every entry is a collected (key, bucket) pair, and every collected key is represented |
| Sorting.RealsLtIsStrictTotal | HashTables.h:198 | `vector<ld>`'s `operator<` is a strict total order |
| Lshad.LSHAD.constructor | LshadClass.h:13 | `hasher` null, `estPerHash` empty, `threshold` 0 |
| Lshad.EstLtIsStrictTotal | LshadClass.h:43 | `long double`'s `<`, with infinity above every real, is a strict total order |
| Lshad.SortedEstimates | LshadClass.h:36-43 | the collected estimators, one per map entry, are sorted into a permutation with no inversion |
| Lshad.SortedEnumerationRank | LshadClass.h:43-48 | the `idx`-th sorted estimator is a value of the map; at most `idx` values are below it, and more than `idx` are at most it |
| Lshad.RankedUnique | LshadClass.h:38-48 | that rank determines the value, so the result does not depend on the map's iteration order |
| Lshad.LSHAD.FindThreshold | LshadClass.h:32-49 | returns the estimator of rank `((1 - anomalyRatio) * size) mod 2^64`, or `None` exactly when that index is out of bounds |
| Lshad.RatioOneIsMinimum | LshadClass.h:46-48 | with ratio 1 the threshold is the smallest estimator |
| Lshad.RatioZeroIsOutOfBounds | LshadClass.h:46 | with ratio 0 the index equals the size, one past the end |
| Lshad.InBoundsOnlyAtOne | LshadClass.h:46 | without wrap-around, an index inside a non-empty map occurs exactly for ratio 1 |
| Lshad.WrapAroundIndices | LshadClass.h:46 | two other integer ratios reach indices 0 and 1 through the 64-bit wrap-around |
| Lshad.FractionIndexInBounds | LshadClass.h:46 | for a ratio in `(0, 1]`, `floor((1 - ratio) * size)` lies inside a non-empty map |
| Lshad.LSHAD.FindThresholdByFraction | LshadClass.h:32-49 | with a fractional ratio, returns the estimator of that rank, and `None` only for an empty map |

## Left out

- Random generation is not modelled: `generate_alpha`, `generate_beta` and the distributions. The
  final index takes its projections as a constructor argument. The draft takes each call's keys as
  `drawn`.
  - HashTablesDraft.HashTables.Search, HashTablesDraft.HashTables.SearchTables: the query point `x`
    only feeds the random draws, so these take the drawn keys instead of `x`.
- `long double` is modelled as exact `real`:
  - There is no rounding and no overflow. `floor` is exact.
  - The final estimator's `EB` is summed from one neighbour count at a time. The model adds the whole
    sum at once, which is the same value over exact reals.
  - The draft's division by zero is `Infinite`, as IEEE arithmetic gives `+inf` for a positive `EA`.
- `ll` keys, counters and the bucket statistics are unbounded integers. 64-bit overflow is not
  modelled, except in the `findThreshold` index, where it is the point.
- The C++ declares the final index's map key as `InnerHash`. The code only ever stores and looks up
  `vector<ll>` keys, so the model follows the code and keys the buckets by `seq<int>`.
- `std::sort` may arrange tied elements in any order. The model's sort is one fixed insertion sort.
  This matters only for HashTablesDraft.SortByKey, where entries with equal keys are ties. The
  contract of SortByKey therefore promises one entry per key, not which one.
- `L`, `T` and `dim` are `ll` in the source, and a negative value makes the C++ throw
  `std::length_error`: from `tables.resize(T)`, from `random_projections[i].resize(L)`, from
  `vector<ld> alpha(n_dims)`, and from the draft's `vector<ll> hash_function(L)`. The model types them
  as `nat`, so this error path is excluded rather than modelled.
- `unordered_map` iteration order is left open. Every operation is proved for any enumeration that
  `Buckets.EnumerateKeys` may return.
- Console output is left out: `print`, `print_bucket`, `print_hash_buscket` and the `cout` in the
  draft's `search_tables`.
- The accessors `getTables` and `getHashesPerPoints` are left out. They return fields that the model
  exposes directly.
- `LSHAD::train` is left out. It reads `L`, `T` and `w` before initialising them, and it assigns its
  estimators to a local that shadows the field. It therefore has no behaviour to state.
- hashes.h (the hash functors) is not part of this model. The equality functors are structural
  equality, which Dafny's maps and sets already use.
- main.cpp is not part of this model.

## Findings

| source | as written | input that shows it | evidently intended | confidence | as-written member | corrected member |
|---|---|---|---|---|---|---|
| HashTables.h:173-174 | `estPerHash[...] = EA / EB` with no guard for `EB == 0` | one point in one table: its bucket has no neighbour, so `EB == 0` and the estimator is infinite | a zero estimator when `EB == 0`, as the final version guards with `EB > 0.0 ? EA / EB : 0.0` | high; not executed | HashTablesDraft.DraftIsolatedBucketIsInfinite | HashTablesFinal.EstimateClosedForm |
| HashTables.h:161-173 | `EB` is declared once per table and carried into the next bucket's `EB = EB / EA` | table `{0: [[0], [1]], 1: [[2]]}`: bucket 1 gets the estimator 1 if bucket 0 is enumerated first, and infinity otherwise | `EB` reset for each bucket, as in the final version, so each estimator depends on its own bucket only | high; not executed | HashTablesDraft.DraftOrderMatters | HashTablesFinal.EstimateTable |
| LshadClass.h:32-46 | `anomalyRatio` is `ll`, and `(1 - anomalyRatio) * estimates.size()` is computed in `size_t` | ratio 0 on any map: the index is the size, one past the end; any ratio other than 1 reads out of bounds unless the product wraps | a fractional ratio in `(0, 1]` with index `floor((1 - ratio) * size)` | high; not executed | Lshad.InBoundsOnlyAtOne | Lshad.LSHAD.FindThresholdByFraction |
