/**
 * The anomaly detector (LshadClass.h): the LSHAD object and findThreshold, which picks from the
 * estimators the one at rank (1 - anomalyRatio) * size of their ascending order.
 */
module Lshad {
  import opened Buckets
  import opened Sorting
  import HashTablesDraft

  type Estimate = HashTablesDraft.Estimate

  datatype Option<T> = None | Some(value: T)

  /** operator< of long double on estimators: every real is below infinity. */
  predicate EstLt(a: Estimate, b: Estimate)
  {
    match (a, b)
    case (Finite(x), Finite(y)) => x < y
    case (Finite(_), Infinite) => true
    case (Infinite, _) => false
  }

  lemma EstLtIsStrictTotal()
    ensures StrictOrder(EstLt) && Connected(EstLt)
  {
  }

  /** 2^64: size_t arithmetic is modulo this. */
  const SizeModulus: int := 0x1_0000_0000_0000_0000

  /** The ll range in which 1 - anomalyRatio does not overflow. */
  predicate RatioInRange(anomalyRatio: int)
  {
    -0x7FFF_FFFF_FFFF_FFFE <= anomalyRatio <= 0x7FFF_FFFF_FFFF_FFFF
  }

  /**
   * static_cast<size_t>((1 - anomalyRatio) * estimates.size()): the ll factor is converted to
   * size_t, so the product is taken modulo 2^64.
   */
  function ThresholdIndex(anomalyRatio: int, size: nat): (idx: nat)
    ensures idx < SizeModulus
  {
    ((1 - anomalyRatio) * size) % SizeModulus
  }

  /** The keys whose estimator is below v. */
  ghost function Below<K>(m: map<K, Estimate>, v: Estimate): set<K>
  {
    set k | k in m && EstLt(m[k], v)
  }

  /** The keys whose estimator is at most v. */
  ghost function AtMost<K>(m: map<K, Estimate>, v: Estimate): set<K>
  {
    set k | k in m && !EstLt(v, m[k])
  }

  /**
   * v is an estimator of m and the idx-th in ascending order: at most idx estimators are below it and
   * more than idx are at most it.
   */
  ghost predicate RankedAt<K>(m: map<K, Estimate>, v: Estimate, idx: nat)
  {
    && (exists k :: k in m && m[k] == v)
    && |Below(m, v)| <= idx < |AtMost(m, v)|
  }

  /** The number of elements of s that satisfy p. */
  function CountIf<T>(s: seq<T>, p: T -> bool): (n: nat)
    ensures n <= |s|
  {
    if s == [] then 0 else CountIf(s[..|s| - 1], p) + (if p(s[|s| - 1]) then 1 else 0)
  }

  lemma {:induction false} CountIfAppend<T>(a: seq<T>, b: seq<T>, p: T -> bool)
    ensures CountIf(a + b, p) == CountIf(a, p) + CountIf(b, p)
  {
    if b == [] {
      assert a + b == a;
    } else {
      var n := |b| - 1;
      CountIfAppend(a, b[..n], p);
      assert (a + b)[..|a + b| - 1] == a + b[..n];
      assert (a + b)[|a + b| - 1] == b[n];
    }
  }

  lemma {:induction false} CountIfAll<T>(s: seq<T>, p: T -> bool)
    requires forall i :: 0 <= i < |s| ==> p(s[i])
    ensures CountIf(s, p) == |s|
  {
    if s != [] {
      CountIfAll(s[..|s| - 1], p);
    }
  }

  lemma {:induction false} CountIfNone<T>(s: seq<T>, p: T -> bool)
    requires forall i :: 0 <= i < |s| ==> !p(s[i])
    ensures CountIf(s, p) == 0
  {
    if s != [] {
      CountIfNone(s[..|s| - 1], p);
    }
  }

  /** Counting does not depend on the order of the elements. */
  lemma {:induction false} CountIfPermutation<T>(a: seq<T>, b: seq<T>, p: T -> bool)
    requires multiset(a) == multiset(b)
    ensures CountIf(a, p) == CountIf(b, p)
    decreases |a|
  {
    if a != [] {
      var n := |a| - 1;
      var x := a[n];
      assert x in multiset(b);
      var j :| 0 <= j < |b| && b[j] == x;
      var rest := b[..j] + b[j + 1..];
      assert b == b[..j] + [x] + b[j + 1..];
      assert a == a[..n] + [x];
      assert multiset(b) == multiset(b[..j]) + multiset([x]) + multiset(b[j + 1..]);
      assert multiset(a) == multiset(a[..n]) + multiset([x]);
      assert multiset(rest) == multiset(b[..j]) + multiset(b[j + 1..]);
      assert multiset(rest) + multiset([x]) == multiset(a[..n]) + multiset([x]);
      assert multiset(rest) == (multiset(rest) + multiset([x])) - multiset([x]);
      assert multiset(a[..n]) == (multiset(a[..n]) + multiset([x])) - multiset([x]);
      CountIfPermutation(a[..n], rest, p);
      CountIfAppend(b[..j] + [x], b[j + 1..], p);
      CountIfAppend(b[..j], [x], p);
      CountIfAppend(b[..j], b[j + 1..], p);
      assert [x][..0] == [];
    }
  }

  /** The estimators of the keys of order, in that order. */
  ghost function ValuesIn<K>(m: map<K, Estimate>, order: seq<K>): (r: seq<Estimate>)
    requires forall i :: 0 <= i < |order| ==> order[i] in m
    ensures |r| == |order|
  {
    seq(|order|, i requires 0 <= i < |order| => m[order[i]])
  }

  /** Counting the estimators of the keys of order is counting the keys whose estimator passes. */
  lemma {:induction false} CountValues<K>(m: map<K, Estimate>, order: seq<K>, p: Estimate -> bool, keep: K -> bool)
    requires forall i :: 0 <= i < |order| ==> order[i] in m && (keep(order[i]) <==> p(m[order[i]]))
    ensures CountIf(ValuesIn(m, order), p) == CountIf(order, keep)
  {
    if order != [] {
      var n := |order| - 1;
      CountValues(m, order[..n], p, keep);
      assert ValuesIn(m, order)[..n] == ValuesIn(m, order[..n]);
    }
  }

  /** Counting a sequence without repetitions counts a set. */
  lemma {:induction false} CountDistinct<K>(order: seq<K>, keep: K -> bool)
    requires Distinct(order)
    ensures CountIf(order, keep) == |set k | k in order && keep(k)|
  {
    if order != [] {
      var n := |order| - 1;
      CountDistinct(order[..n], keep);
      KeptSetStep(order, keep);
    }
  }

  lemma KeptSetStep<K>(order: seq<K>, keep: K -> bool)
    requires Distinct(order) && order != []
    ensures var n := |order| - 1;
      |set k | k in order && keep(k)| == |set k | k in order[..n] && keep(k)| + (if keep(order[n]) then 1 else 0)
  {
    var n := |order| - 1;
    var key := order[n];
    var before := set k | k in order[..n] && keep(k);
    var after := set k | k in order && keep(k);
    assert key !in order[..n];
    assert order == order[..n] + [key];
    if keep(key) {
      assert after == before + {key};
    } else {
      assert after == before;
    }
  }

  /** x => x < v */
  function IsBelow(v: Estimate): Estimate -> bool
  {
    x => EstLt(x, v)
  }

  /** x => !(v < x) */
  function IsAtMost(v: Estimate): Estimate -> bool
  {
    x => !EstLt(v, x)
  }

  /** Below the element at index idx of a sorted sequence are at most idx elements. */
  lemma SortedBelow(s: seq<Estimate>, idx: nat)
    requires NoInversion(s, EstLt) && idx < |s|
    ensures CountIf(s, IsBelow(s[idx])) <= idx
  {
    var v := s[idx];
    var head, tail := s[..idx], s[idx..];
    forall i | 0 <= i < |tail| ensures !IsBelow(v)(tail[i]) {
      assert tail[i] == s[idx + i];
    }
    assert s == head + tail;
    CountIfAppend(head, tail, IsBelow(v));
    CountIfNone(tail, IsBelow(v));
  }

  /** At most the element at index idx of a sorted sequence are more than idx elements. */
  lemma SortedAtMost(s: seq<Estimate>, idx: nat)
    requires NoInversion(s, EstLt) && idx < |s|
    ensures CountIf(s, IsAtMost(s[idx])) > idx
  {
    var v := s[idx];
    var low, high := s[..idx + 1], s[idx + 1..];
    forall i | 0 <= i < |low| ensures IsAtMost(v)(low[i]) {
      assert low[i] == s[i];
    }
    assert s == low + high;
    CountIfAppend(low, high, IsAtMost(v));
    CountIfAll(low, IsAtMost(v));
  }

  /** When order enumerates m, counting the estimators that pass p counts the keys whose estimator does. */
  lemma EnumerationCounts<K>(m: map<K, Estimate>, order: seq<K>, p: Estimate -> bool)
    requires Enumerates(order, m)
    ensures CountIf(ValuesIn(m, order), p) == |set k | k in m && p(m[k])|
  {
    var keep := k => k in m && p(m[k]);
    CountValues(m, order, p, keep);
    CountDistinct(order, keep);
    assert (set k | k in order && keep(k)) == set k | k in m && p(m[k]);
  }

  /** The idx-th of the sorted estimators of an enumeration is ranked idx in the map. */
  lemma SortedEnumerationRank<K>(m: map<K, Estimate>, order: seq<K>, sorted: seq<Estimate>, idx: nat)
    requires Enumerates(order, m)
    requires multiset(sorted) == multiset(ValuesIn(m, order)) && NoInversion(sorted, EstLt) && idx < |sorted|
    ensures RankedAt(m, sorted[idx], idx)
  {
    var v := sorted[idx];
    var values := ValuesIn(m, order);
    SortedBelow(sorted, idx);
    SortedAtMost(sorted, idx);
    CountIfPermutation(sorted, values, IsBelow(v));
    CountIfPermutation(sorted, values, IsAtMost(v));
    EnumerationCounts(m, order, IsBelow(v));
    EnumerationCounts(m, order, IsAtMost(v));
    assert (set k | k in m && IsBelow(v)(m[k])) == Below(m, v);
    assert (set k | k in m && IsAtMost(v)(m[k])) == AtMost(m, v);
    assert v in multiset(values);
    var i :| 0 <= i < |values| && values[i] == v;
    assert order[i] in m && m[order[i]] == v;
  }

  /** Below v and a strictly greater w: whatever is at most v is below w. */
  lemma AtMostBelow<K>(m: map<K, Estimate>, v: Estimate, w: Estimate)
    requires EstLt(v, w)
    ensures AtMost(m, v) <= Below(m, w)
  {
    EstLtIsStrictTotal();
  }

  /**
   * The rank determines the estimator: whichever order the unordered_map enumerates its entries in,
   * findThreshold returns the same value.
   */
  lemma RankedUnique<K>(m: map<K, Estimate>, v: Estimate, w: Estimate, idx: nat)
    requires RankedAt(m, v, idx) && RankedAt(m, w, idx)
    ensures v == w
  {
    EstLtIsStrictTotal();
    if EstLt(v, w) {
      AtMostBelow(m, v, w);
      SubsetSize(AtMost(m, v), Below(m, w));
    } else if EstLt(w, v) {
      AtMostBelow(m, w, v);
      SubsetSize(AtMost(m, w), Below(m, v));
    }
  }

  lemma SubsetSize<K>(a: set<K>, b: set<K>)
    requires a <= b
    ensures |a| <= |b|
  {
    assert b == a + (b - a);
  }

  /** With ratio 1 the index is 0: the threshold is the smallest estimator. */
  lemma RatioOneIsMinimum<K>(m: map<K, Estimate>, v: Estimate)
    requires RankedAt(m, v, ThresholdIndex(1, |m|))
    ensures forall k :: k in m ==> !EstLt(m[k], v)
  {
    assert ThresholdIndex(1, |m|) == 0;
    assert Below(m, v) == {};
    forall k | k in m ensures !EstLt(m[k], v) {
      assert k !in Below(m, v);
    }
  }

  /** With ratio 0 the index is the size itself: findThreshold reads one past the end. */
  lemma RatioZeroIsOutOfBounds(size: nat)
    requires size < SizeModulus
    ensures ThresholdIndex(0, size) == size
  {
  }

  /**
   * Without wrap-around of the size_t product, the only ratio that gives an index inside a non-empty
   * map is 1.
   */
  lemma InBoundsOnlyAtOne(anomalyRatio: int, size: nat)
    requires 0 < size && size - SizeModulus <= (1 - anomalyRatio) * size < SizeModulus
    ensures ThresholdIndex(anomalyRatio, size) < size <==> anomalyRatio == 1
  {
    var f := 1 - anomalyRatio;
    if f > 0 {
      ProductAtLeast(f, size);
    } else if f < 0 {
      ProductAtLeast(-f, size);
      assert (1 - anomalyRatio) * size == -((-f) * size);
      assert ThresholdIndex(anomalyRatio, size) == f * size + SizeModulus;
    }
  }

  lemma ProductAtLeast(f: int, size: nat)
    requires f >= 1
    ensures f * size >= size
  {
    assert f * size == (f - 1) * size + size;
  }

  /**
   * The size_t wrap-around does let other ratios through: with 4 estimators, ratio 1 - 2^62 gives
   * index 0, and with 3 estimators, ratio 1 + (2^64 - 1) / 3 gives index 1.
   */
  lemma WrapAroundIndices()
    ensures RatioInRange(1 - 0x4000_0000_0000_0000) && ThresholdIndex(1 - 0x4000_0000_0000_0000, 4) == 0
    ensures RatioInRange(1 + 0x5555_5555_5555_5555) && ThresholdIndex(1 + 0x5555_5555_5555_5555, 3) == 1
  {
  }

  /**
   * The evidently intended index for an anomaly ratio given as a fraction: floor((1 - ratio) * size),
   * as the size_t conversion truncates a non-negative long double.
   */
  function FractionIndex(anomalyRatio: real, size: nat): (idx: int)
    ensures 0.0 <= anomalyRatio <= 1.0 ==> 0 <= idx <= size
  {
    var x := (1.0 - anomalyRatio) * size as real;
    FractionScaled(anomalyRatio, size);
    x.Floor
  }

  lemma FractionScaled(anomalyRatio: real, size: nat)
    ensures 0.0 <= anomalyRatio <= 1.0 ==> 0.0 <= (1.0 - anomalyRatio) * size as real <= size as real
    ensures 0.0 < anomalyRatio <= 1.0 && size > 0 ==> (1.0 - anomalyRatio) * size as real < size as real
  {
    if 0.0 <= anomalyRatio <= 1.0 {
      var f := 1.0 - anomalyRatio;
      assert size as real == f * size as real + anomalyRatio * size as real;
      assert anomalyRatio * size as real >= 0.0;
      assert f * size as real >= 0.0;
      if 0.0 < anomalyRatio && size > 0 {
        assert anomalyRatio * size as real > 0.0;
      }
    }
  }

  /** For every ratio in (0, 1] the fractional index lies inside a non-empty map. */
  lemma FractionIndexInBounds(anomalyRatio: real, size: nat)
    requires 0.0 < anomalyRatio <= 1.0 && size > 0
    ensures 0 <= FractionIndex(anomalyRatio, size) < size
  {
    FractionScaled(anomalyRatio, size);
  }

  /** The estimators of m, in the enumeration order of the unordered_map, then sorted (std::sort). */
  method SortedEstimates<K>(m: map<K, Estimate>) returns (estimates: seq<Estimate>, ghost order: seq<K>)
    ensures Enumerates(order, m)
    ensures multiset(estimates) == multiset(ValuesIn(m, order)) && NoInversion(estimates, EstLt)
    ensures |estimates| == |m|
  {
    var keys := EnumerateKeys(m);
    order := keys;
    estimates := [];
    for i := 0 to |keys|
      invariant |estimates| == i
      invariant forall j :: 0 <= j < i ==> estimates[j] == m[keys[j]]
    {
      estimates := estimates + [m[keys[i]]];
    }
    assert estimates == ValuesIn(m, order);
    EnumerationSize(m, order);
    EstLtIsStrictTotal();
    var values := estimates;
    estimates := Sort(values, EstLt);
    assert |estimates| == |multiset(estimates)| == |multiset(values)| == |values|;
  }

  /** An enumeration has one entry per key. */
  lemma EnumerationSize<K>(m: map<K, Estimate>, order: seq<K>)
    requires Enumerates(order, m)
    ensures |order| == |m|
  {
    var all := (k: K) => true;
    CountDistinct(order, all);
    CountIfAll(order, all);
    assert (set k | k in order && all(k)) == m.Keys;
  }

  class LSHAD {
    /** The index the estimators come from; null until it is trained. */
    var hasher: HashTablesDraft.HashTables?
    var estPerHash: map<HashTablesDraft.Entry, Estimate>
    var threshold: Estimate

    /** LSHAD(): no index, no estimators, threshold 0. */
    constructor ()
      ensures hasher == null && estPerHash == map[] && threshold == HashTablesDraft.Finite(0.0)
    {
      hasher := null;
      estPerHash := map[];
      threshold := HashTablesDraft.Finite(0.0);
    }

    /**
     * findThreshold(estPerHash, anomalyRatio): the estimator at rank (1 - anomalyRatio) * size of the
     * ascending order, the index computed in size_t; None where the source reads past the end.
     */
    method FindThreshold(estPerHash: map<HashTablesDraft.Entry, Estimate>, anomalyRatio: int)
      returns (result: Option<Estimate>)
      requires RatioInRange(anomalyRatio)
      ensures result.None? <==> ThresholdIndex(anomalyRatio, |estPerHash|) >= |estPerHash|
      ensures result.Some? ==> RankedAt(estPerHash, result.value, ThresholdIndex(anomalyRatio, |estPerHash|))
    {
      ghost var order;
      var estimates;
      estimates, order := SortedEstimates(estPerHash);
      var index := ThresholdIndex(anomalyRatio, |estimates|);
      if index < |estimates| {
        SortedEnumerationRank(estPerHash, order, estimates, index);
        result := Some(estimates[index]);
      } else {
        result := None;
      }
    }

    /**
     * findThreshold with the anomaly ratio as the fraction in (0, 1] it evidently stands for: the
     * index always lies inside a non-empty map.
     */
    method FindThresholdByFraction(estPerHash: map<HashTablesDraft.Entry, Estimate>, anomalyRatio: real)
      returns (result: Option<Estimate>)
      requires 0.0 < anomalyRatio <= 1.0
      ensures result.None? <==> estPerHash == map[]
      ensures result.Some? ==> RankedAt(estPerHash, result.value, FractionIndex(anomalyRatio, |estPerHash|))
    {
      ghost var order;
      var estimates;
      estimates, order := SortedEstimates(estPerHash);
      if |estimates| == 0 {
        result := None;
      } else {
        var index := FractionIndex(anomalyRatio, |estimates|);
        FractionIndexInBounds(anomalyRatio, |estimates|);
        SortedEnumerationRank(estPerHash, order, estimates, index);
        result := Some(estimates[index]);
      }
    }
  }
}
