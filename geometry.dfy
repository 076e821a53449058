/**
 * Planar geometry on latitude/longitude degrees, shared by the C and the Python code.
 *
 * Both programs compare a Euclidean distance sqrt(dlat^2 + dlng^2) against a constant or
 * against another distance. The model never takes the square root: it compares the
 * squared distance against the squared limit, and RootComparisons shows that this gives
 * the same answers as comparing the root.
 */
module Geometry {

  /** Squared planar distance between (lat1, lng1) and (lat2, lng2). */
  function SqDist(lat1: real, lng1: real, lat2: real, lng2: real): (d: real)
    ensures d >= 0.0
  {
    var a, b := lat2 - lat1, lng2 - lng1;
    SquareNonNegative(a);
    SquareNonNegative(b);
    a * a + b * b
  }

  lemma SquareNonNegative(a: real)
    ensures a * a >= 0.0
  {
    if a < 0.0 {
      assert a * a == (-a) * (-a);
    }
  }

  /** The distance whose square is sq is strictly below limit. */
  predicate Below(sq: real, limit: real)
  {
    0.0 < limit && sq < limit * limit
  }

  /** The distance whose square is sq is at most limit. */
  predicate AtMost(sq: real, limit: real)
  {
    0.0 <= limit && sq <= limit * limit
  }

  lemma SquareLess(a: real, b: real)
    requires 0.0 <= a < b
    ensures a * a < b * b
  {
    var e := b - a;
    assert b * b == a * a + e * (a + b);
    assert e * (a + b) > 0.0;
  }

  /** For a non-negative root d of sq, the squared comparisons agree with comparing d. */
  lemma RootComparisons(d: real, sq: real, limit: real)
    requires d >= 0.0 && d * d == sq
    ensures (d < limit) <==> Below(sq, limit)
    ensures (d <= limit) <==> AtMost(sq, limit)
    ensures (d > limit) <==> !AtMost(sq, limit)
  {
    if 0.0 <= limit {
      if d < limit { SquareLess(d, limit); }
      else if limit < d { SquareLess(limit, d); }
      else { assert d * d == limit * limit; }
    }
  }

  /** Comparing two non-negative roots is comparing their squares. */
  lemma RootsOrdered(d1: real, d2: real)
    requires 0.0 <= d1 && 0.0 <= d2
    ensures d1 < d2 <==> d1 * d1 < d2 * d2
  {
    if d1 < d2 { SquareLess(d1, d2); }
    else if d2 < d1 { SquareLess(d2, d1); }
  }

  function Max(a: real, b: real): real { if a >= b then a else b }
  function Min(a: real, b: real): real { if a <= b then a else b }

  /** Largest element, folded from the left as the source's accumulator loops do. */
  function MaxOf(xs: seq<real>): real
    requires |xs| > 0
  {
    if |xs| == 1 then xs[0] else Max(MaxOf(xs[..|xs| - 1]), xs[|xs| - 1])
  }

  /** Smallest element, folded from the left. */
  function MinOf(xs: seq<real>): real
    requires |xs| > 0
  {
    if |xs| == 1 then xs[0] else Min(MinOf(xs[..|xs| - 1]), xs[|xs| - 1])
  }

  /** MaxOf and MinOf are attained and bound every element. */
  lemma {:induction false} Extremes(xs: seq<real>)
    requires |xs| > 0
    ensures forall i :: 0 <= i < |xs| ==> MinOf(xs) <= xs[i] <= MaxOf(xs)
    ensures MaxOf(xs) in xs && MinOf(xs) in xs
    decreases |xs|
  {
    if |xs| > 1 {
      var init := xs[..|xs| - 1];
      Extremes(init);
      assert forall i :: 0 <= i < |init| ==> xs[i] == init[i];
      assert MaxOf(init) in xs && MinOf(init) in xs;
    }
  }

  /** Extending a prefix by one element updates its maximum and minimum by one comparison
    * each. */
  lemma PrefixStep(xs: seq<real>, i: nat)
    requires 0 < i < |xs|
    ensures MaxOf(xs[..i + 1]) == Max(MaxOf(xs[..i]), xs[i])
    ensures MinOf(xs[..i + 1]) == Min(MinOf(xs[..i]), xs[i])
  {
    assert xs[..i + 1][..i] == xs[..i];
  }

  /** Width of the interval the elements cover. */
  function Spread(xs: seq<real>): real
    requires |xs| > 0
  {
    MaxOf(xs) - MinOf(xs)
  }

  /** The bounding box of the points with these coordinates is wider than bound in
    * latitude or in longitude. */
  predicate SpanExceeds(lats: seq<real>, lngs: seq<real>, bound: real)
    requires |lats| > 0 && |lngs| > 0
  {
    Spread(lats) > bound || Spread(lngs) > bound
  }

  /** A single point has an empty bounding box. */
  lemma SpreadOfOne(x: real)
    ensures Spread([x]) == 0.0
  {
  }

  /** Growing the point set never shrinks the bounding box. */
  lemma SpreadMonotone(xs: seq<real>, k: nat)
    requires 0 < k <= |xs|
    ensures Spread(xs[..k]) <= Spread(xs)
  {
    var pre := xs[..k];
    Extremes(pre);
    Extremes(xs);
    var i :| 0 <= i < |pre| && pre[i] == MaxOf(pre);
    var j :| 0 <= j < |pre| && pre[j] == MinOf(pre);
    assert pre[i] == xs[i] && pre[j] == xs[j];
  }

  /** The spread only depends on which values occur: two sequences with the same values
    * (a permutation, say) have the same spread. */
  lemma SpreadSameValues(xs: seq<real>, ys: seq<real>)
    requires |xs| > 0 && |ys| > 0
    requires forall i :: 0 <= i < |xs| ==> xs[i] in ys
    requires forall j :: 0 <= j < |ys| ==> ys[j] in xs
    ensures Spread(xs) == Spread(ys)
  {
    Extremes(xs);
    Extremes(ys);
    var i :| 0 <= i < |xs| && xs[i] == MaxOf(xs);
    var j :| 0 <= j < |ys| && ys[j] == MaxOf(ys);
    var a :| 0 <= a < |xs| && xs[a] == MinOf(xs);
    var b :| 0 <= b < |ys| && ys[b] == MinOf(ys);
    assert xs[i] in ys && ys[j] in xs && xs[a] in ys && ys[b] in xs;
  }

  /**
   * Index of the first smallest element: the element the source's `min` scans keep, since
   * they replace the current best only on a strictly smaller value.
   */
  function FirstMin(ds: seq<real>): (k: nat)
    requires |ds| > 0
    ensures k < |ds|
    ensures forall j :: 0 <= j < |ds| ==> ds[k] <= ds[j]
    ensures forall j :: 0 <= j < k ==> ds[j] > ds[k]
  {
    if |ds| == 1 then 0
    else
      var k := FirstMin(ds[1..]) + 1;
      if ds[0] <= ds[k] then 0 else k
  }

  /** The two properties of FirstMin pin down one index. */
  lemma FirstMinUnique(ds: seq<real>, k: nat)
    requires k < |ds|
    requires forall j :: 0 <= j < |ds| ==> ds[k] <= ds[j]
    requires forall j :: 0 <= j < k ==> ds[j] > ds[k]
    ensures k == FirstMin(ds)
  {
  }
}
