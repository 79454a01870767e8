/** Points of the input space and the dot product that the random projections use. */
module Vectors {

  /** A data point: an ordered sequence of coordinates (long double in the source, exact reals here). */
  type Point = seq<real>

  /**
   * Sum of the products v1[i] * v2[i] over the indices of v1, accumulated from left to right.
   * The source reads v2 at every index of v1, so v2 must be at least as long as v1.
   */
  ghost function Dot(v1: seq<real>, v2: seq<real>): real
    requires |v1| <= |v2|
  {
    if |v1| == 0 then 0.0 else Dot(v1[..|v1| - 1], v2) + v1[|v1| - 1] * v2[|v1| - 1]
  }

  /** Only the first |v1| entries of v2 take part in the product. */
  lemma {:induction false} DotIgnoresTail(v1: seq<real>, v2: seq<real>)
    requires |v1| <= |v2|
    ensures Dot(v1, v2) == Dot(v1, v2[..|v1|])
  {
    if |v1| > 0 {
      var n := |v1| - 1;
      DotIgnoresTail(v1[..n], v2);
      DotIgnoresTail(v1[..n], v2[..|v1|]);
      assert v2[..|v1|][..n] == v2[..n];
    }
  }

  /** For vectors of equal length the product is symmetric. */
  lemma {:induction false} DotSymmetric(a: seq<real>, b: seq<real>)
    requires |a| == |b|
    ensures Dot(a, b) == Dot(b, a)
  {
    if |a| > 0 {
      var n := |a| - 1;
      DotIgnoresTail(a[..n], b);
      DotIgnoresTail(b[..n], a);
      DotSymmetric(a[..n], b[..n]);
    }
  }

  /** dot_product: the accumulating loop, proved to compute Dot. */
  method DotProduct(v1: seq<real>, v2: seq<real>) returns (result: real)
    requires |v1| <= |v2|
    ensures result == Dot(v1, v2)
  {
    result := 0.0;
    var i := 0;
    while i < |v1|
      invariant 0 <= i <= |v1|
      invariant result == Dot(v1[..i], v2)
    {
      assert v1[..i + 1][..i] == v1[..i];
      result := result + v1[i] * v2[i];
      i := i + 1;
    }
    assert v1[..i] == v1;
  }
}
