/**
 * The library algorithms the index relies on: std::sort followed by std::unique, and the
 * lexicographic order of std::vector. They are stated once, generically over a strict order
 * `lt` (the comparator) and, for std::unique, a predicate `same` (its equality test).
 */
module Sorting {

  /** `lt` is irreflexive and transitive, as std::sort demands of its comparator. */
  ghost predicate StrictOrder<T(!new)>(lt: (T, T) -> bool) {
    && (forall a :: !lt(a, a))
    && (forall a, b, c :: lt(a, b) && lt(b, c) ==> lt(a, c))
  }

  /** Any two distinct values are ordered one way or the other. */
  ghost predicate Connected<T(!new)>(lt: (T, T) -> bool) {
    forall a, b :: a != b ==> lt(a, b) || lt(b, a)
  }

  /** Two values that `lt` leaves unordered are identified by `same`. */
  ghost predicate SameCoversTies<T(!new)>(lt: (T, T) -> bool, same: (T, T) -> bool) {
    forall a, b :: !lt(a, b) && !lt(b, a) ==> same(a, b)
  }

  /** No later element is below an earlier one: the order std::sort leaves behind. */
  predicate NoInversion<T>(s: seq<T>, lt: (T, T) -> bool) {
    forall i, j :: 0 <= i < j < |s| ==> !lt(s[j], s[i])
  }

  /** Every earlier element is below every later one (sorted and free of ties). */
  predicate StrictlyAscending<T>(s: seq<T>, lt: (T, T) -> bool) {
    forall i, j :: 0 <= i < j < |s| ==> lt(s[i], s[j])
  }

  /** Places x before the first element it is below. */
  function InsertOrdered<T(!new)>(x: T, s: seq<T>, lt: (T, T) -> bool): (r: seq<T>)
    requires StrictOrder(lt) && NoInversion(s, lt)
    ensures multiset(r) == multiset(s) + multiset{x}
    ensures NoInversion(r, lt)
  {
    if s == [] then [x]
    else if lt(x, s[0]) then [x] + s
    else
      var rest := InsertOrdered(x, s[1..], lt);
      assert s == [s[0]] + s[1..];
      HeadStaysFirst(s, x, rest, lt);
      [s[0]] + rest
  }

  /** The head of s stays first when x is not below it and the rest is rearranged with x. */
  lemma HeadStaysFirst<T(!new)>(s: seq<T>, x: T, rest: seq<T>, lt: (T, T) -> bool)
    requires NoInversion(s, lt) && |s| > 0 && !lt(x, s[0])
    requires multiset(rest) == multiset(s[1..]) + multiset{x}
    ensures forall k :: 0 <= k < |rest| ==> !lt(rest[k], s[0])
  {
    forall k | 0 <= k < |rest| ensures !lt(rest[k], s[0]) {
      assert rest[k] in multiset(rest);
      if rest[k] != x {
        assert rest[k] in s[1..];
        var j :| 1 <= j < |s| && s[j] == rest[k];
      }
    }
  }

  /** std::sort: a permutation of s with no inversion (here an insertion sort). */
  function Sort<T(!new)>(s: seq<T>, lt: (T, T) -> bool): (r: seq<T>)
    requires StrictOrder(lt)
    ensures multiset(r) == multiset(s)
    ensures NoInversion(r, lt)
  {
    if s == [] then []
    else
      assert s == [s[0]] + s[1..];
      InsertOrdered(s[0], Sort(s[1..], lt), lt)
  }

  /**
   * std::unique: keeps an element only when it is not `same` as the last element kept.
   * Every element of s is kept or has a `same` partner among the kept ones.
   */
  function Unique<T>(s: seq<T>, same: (T, T) -> bool): (r: seq<T>)
    ensures |r| <= |s| && (s != [] ==> r != [])
    ensures forall y :: y in r ==> y in s
    ensures forall x :: x in s ==> x in r || exists y :: y in r && same(y, x)
  {
    if |s| <= 1 then s
    else
      var n := |s| - 1;
      var u := Unique(s[..n], same);
      assert forall x :: x in s ==> x in s[..n] || x == s[n];
      if same(u[|u| - 1], s[n]) then u else u + [s[n]]
  }

  /** Removing consecutive ties from a sequence with no inversion leaves it strictly ascending. */
  lemma {:induction false} UniqueAscending<T(!new)>(s: seq<T>, lt: (T, T) -> bool, same: (T, T) -> bool)
    requires StrictOrder(lt) && SameCoversTies(lt, same) && NoInversion(s, lt)
    ensures StrictlyAscending(Unique(s, same), lt)
  {
    if |s| > 1 {
      var n := |s| - 1;
      var u := Unique(s[..n], same);
      UniqueAscending(s[..n], lt, same);
      if !same(u[|u| - 1], s[n]) {
        var last := u[|u| - 1];
        assert last in s[..n];
        var j :| 0 <= j < n && s[j] == last;
        assert !lt(s[n], s[j]);
        assert lt(last, s[n]);
        var r := u + [s[n]];
        forall i, k | 0 <= i < k < |r| ensures lt(r[i], r[k]) {
          if k == |r| - 1 && i < |u| - 1 {
            assert lt(u[i], last);
          }
        }
      }
    }
  }

  /** The equality test std::unique uses by default. */
  predicate Equal<T(==)>(a: T, b: T) { a == b }

  /**
   * std::sort followed by std::unique with `==` as the equality test: for a connected strict
   * order the result is strictly ascending and holds exactly the values of the input.
   */
  lemma SortUniqueExact<T(!new)>(s: seq<T>, lt: (T, T) -> bool)
    requires StrictOrder(lt) && Connected(lt)
    ensures var r := Unique(Sort(s, lt), Equal);
      StrictlyAscending(r, lt) && (forall x :: x in r <==> x in s)
  {
    var same := Equal;
    var sorted := Sort(s, lt);
    UniqueAscending(sorted, lt, same);
    forall x ensures x in sorted <==> x in s {
      assert x in sorted <==> x in multiset(sorted);
    }
  }

  /** The lexicographic order of std::vector's operator< for element types with a connected order. */
  predicate LexLess<T(==)>(a: seq<T>, b: seq<T>, lt: (T, T) -> bool)
  {
    if |a| == 0 then |b| > 0
    else if |b| == 0 then false
    else lt(a[0], b[0]) || (a[0] == b[0] && LexLess(a[1..], b[1..], lt))
  }

  lemma {:induction false} LexIrreflexive<T(!new)>(a: seq<T>, lt: (T, T) -> bool)
    requires StrictOrder(lt)
    ensures !LexLess(a, a, lt)
  {
    if |a| > 0 {
      LexIrreflexive(a[1..], lt);
    }
  }

  lemma {:induction false} LexTransitive<T(!new)>(a: seq<T>, b: seq<T>, c: seq<T>, lt: (T, T) -> bool)
    requires StrictOrder(lt) && LexLess(a, b, lt) && LexLess(b, c, lt)
    ensures LexLess(a, c, lt)
  {
    if |a| > 0 && |b| > 0 && |c| > 0 {
      if a[0] == b[0] && b[0] == c[0] {
        LexTransitive(a[1..], b[1..], c[1..], lt);
      }
    }
  }

  lemma {:induction false} LexConnected<T(!new)>(a: seq<T>, b: seq<T>, lt: (T, T) -> bool)
    requires Connected(lt) && a != b
    ensures LexLess(a, b, lt) || LexLess(b, a, lt)
  {
    if |a| > 0 && |b| > 0 && a[0] == b[0] {
      assert a == [a[0]] + a[1..] && b == [b[0]] + b[1..];
      LexConnected(a[1..], b[1..], lt);
    }
  }

  predicate IntLt(a: int, b: int) { a < b }

  predicate RealLt(a: real, b: real) { a < b }

  /** Lexicographic order on integer vectors (the bucket keys of the final index). */
  predicate IntsLt(a: seq<int>, b: seq<int>) { LexLess(a, b, IntLt) }

  /** Lexicographic order on real vectors (the points). */
  predicate RealsLt(a: seq<real>, b: seq<real>) { LexLess(a, b, RealLt) }

  lemma IntsLtIsStrictTotal()
    ensures StrictOrder(IntsLt) && Connected(IntsLt)
  {
    assert StrictOrder(IntLt) && Connected(IntLt);
    forall a: seq<int> ensures !IntsLt(a, a) {
      LexIrreflexive(a, IntLt);
    }
    forall a: seq<int>, b: seq<int>, c: seq<int> | IntsLt(a, b) && IntsLt(b, c) ensures IntsLt(a, c) {
      LexTransitive(a, b, c, IntLt);
    }
    forall a: seq<int>, b: seq<int> | a != b ensures IntsLt(a, b) || IntsLt(b, a) {
      LexConnected(a, b, IntLt);
    }
  }

  lemma RealsLtIsStrictTotal()
    ensures StrictOrder(RealsLt) && Connected(RealsLt)
  {
    assert StrictOrder(RealLt) && Connected(RealLt);
    forall a: seq<real> ensures !RealsLt(a, a) {
      LexIrreflexive(a, RealLt);
    }
    forall a: seq<real>, b: seq<real>, c: seq<real> | RealsLt(a, b) && RealsLt(b, c) ensures RealsLt(a, c) {
      LexTransitive(a, b, c, RealLt);
    }
    forall a: seq<real>, b: seq<real> | a != b ensures RealsLt(a, b) || RealsLt(b, a) {
      LexConnected(a, b, RealLt);
    }
  }
}
