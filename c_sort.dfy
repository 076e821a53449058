/**
 * The in-place timestamp sort of trajectory_fixer_c.c (lines 240-265): Lomuto partition
 * around the last element of the range, then recursion on the part before the pivot and
 * the part after it. The swaps only exchange elements inside the range being sorted.
 */
module CSort {
  import opened CTrajectory

  /** s[lo..hi) is nondecreasing in timestamp. */
  ghost predicate SortedRange(s: seq<Point>, lo: int, hi: int)
    requires 0 <= lo <= hi <= |s|
  {
    forall i, j :: lo <= i < j < hi ==> s[i].t <= s[j].t
  }

  /** s1 is s0 with the elements of [lo, hi) rearranged and everything else in place. */
  ghost predicate Permutes(s0: seq<Point>, s1: seq<Point>, lo: int, hi: int)
    requires 0 <= lo <= hi <= |s0|
  {
    |s1| == |s0| && s1[..lo] == s0[..lo] && s1[hi..] == s0[hi..] &&
    multiset(s1[lo..hi]) == multiset(s0[lo..hi])
  }

  lemma PermutesRefl(s: seq<Point>, lo: int, hi: int)
    requires 0 <= lo <= hi <= |s|
    ensures Permutes(s, s, lo, hi)
  {
  }

  lemma PermutesTrans(s0: seq<Point>, s1: seq<Point>, s2: seq<Point>, lo: int, hi: int)
    requires 0 <= lo <= hi <= |s0|
    requires Permutes(s0, s1, lo, hi) && Permutes(s1, s2, lo, hi)
    ensures Permutes(s0, s2, lo, hi)
  {
  }

  /** A rearrangement of a sub-range is a rearrangement of any range around it. */
  lemma PermutesWiden(s0: seq<Point>, s1: seq<Point>, lo: int, hi: int, lo2: int, hi2: int)
    requires 0 <= lo2 <= lo <= hi <= hi2 <= |s0|
    requires Permutes(s0, s1, lo, hi)
    ensures Permutes(s0, s1, lo2, hi2)
  {
    assert s1[lo2..lo] == s1[..lo][lo2..] == s0[..lo][lo2..] == s0[lo2..lo];
    assert s1[hi..hi2] == s1[hi..][..hi2 - hi] == s0[hi..][..hi2 - hi] == s0[hi..hi2];
    assert s1[lo2..hi2] == s1[lo2..lo] + s1[lo..hi] + s1[hi..hi2];
    assert s0[lo2..hi2] == s0[lo2..lo] + s0[lo..hi] + s0[hi..hi2];
    assert s1[..lo2] == s1[..lo][..lo2];
    assert s0[..lo2] == s0[..lo][..lo2];
    assert s1[hi2..] == s1[hi..][hi2 - hi..];
    assert s0[hi2..] == s0[hi..][hi2 - hi..];
  }

  /** Exchanging two positions inside [lo, hi) rearranges [lo, hi). */
  lemma SwapPermutes(s: seq<Point>, i: int, j: int, lo: int, hi: int)
    requires 0 <= lo <= i < hi && lo <= j < hi && hi <= |s|
    ensures Permutes(s, s[i := s[j]][j := s[i]], lo, hi)
  {
    var r := s[i := s[j]][j := s[i]];
    assert r[lo..hi] == s[lo..hi][i - lo := s[j]][j - lo := s[i]];
    assert r[..lo] == s[..lo];
    assert r[hi..] == s[hi..];
  }

  /** Rearranging a range keeps every bound that held for all its timestamps. */
  lemma PermutesBounds(s0: seq<Point>, s1: seq<Point>, lo: int, hi: int, pivot: int)
    requires 0 <= lo <= hi <= |s0| && Permutes(s0, s1, lo, hi)
    ensures (forall k :: lo <= k < hi ==> s0[k].t <= pivot) ==>
      (forall k :: lo <= k < hi ==> s1[k].t <= pivot)
    ensures (forall k :: lo <= k < hi ==> s0[k].t > pivot) ==>
      (forall k :: lo <= k < hi ==> s1[k].t > pivot)
  {
    forall k | lo <= k < hi
      ensures exists m :: lo <= m < hi && s0[m] == s1[k]
    {
      assert s1[k] == s1[lo..hi][k - lo];
      assert s1[k] in multiset(s0[lo..hi]);
      var m :| 0 <= m < hi - lo && s0[lo..hi][m] == s1[k];
      assert s0[lo + m] == s1[k];
    }
  }

  /**
   * The step that makes quicksort correct: a sorted part whose timestamps are at most the
   * pivot's, the pivot, then a sorted part whose timestamps are above it, is sorted.
   */
  lemma SortedAroundPivot(s: seq<Point>, lo: int, mid: int, hi: int, pivot: int)
    requires 0 <= lo < mid <= hi <= |s|
    requires SortedRange(s, lo, mid - 1) && SortedRange(s, mid, hi)
    requires forall k :: lo <= k < mid - 1 ==> s[k].t <= pivot
    requires s[mid - 1].t == pivot
    requires forall k :: mid <= k < hi ==> s[k].t > pivot
    ensures SortedRange(s, lo, hi)
  {
  }

  /**
   * The recursion of quickSort on values: s1 is the partitioned range with the pivot at
   * mid - 1, s2 has [lo, mid - 1) sorted and s3 has [mid, hi) sorted as well.
   */
  lemma QuickSortStep(s0: seq<Point>, s1: seq<Point>, s2: seq<Point>, s3: seq<Point>,
                      lo: int, mid: int, hi: int, pivot: int)
    requires 0 <= lo < mid <= hi <= |s0|
    requires Permutes(s0, s1, lo, hi)
    requires forall k :: lo <= k < mid ==> s1[k].t <= pivot
    requires s1[mid - 1].t == pivot
    requires forall k :: mid <= k < hi ==> s1[k].t > pivot
    requires Permutes(s1, s2, lo, mid - 1) && SortedRange(s2, lo, mid - 1)
    requires Permutes(s2, s3, mid, hi) && SortedRange(s3, mid, hi)
    ensures Permutes(s0, s3, lo, hi) && SortedRange(s3, lo, hi)
  {
    QuickSortSorted(s1, s2, s3, lo, mid, hi, pivot);
    PermutesWiden(s1, s2, lo, mid - 1, lo, hi);
    PermutesWiden(s2, s3, mid, hi, lo, hi);
    PermutesTrans(s0, s1, s2, lo, hi);
    PermutesTrans(s0, s2, s3, lo, hi);
  }

  /** The sortedness half of QuickSortStep: the bounds of the partition survive both sorts. */
  lemma QuickSortSorted(s1: seq<Point>, s2: seq<Point>, s3: seq<Point>,
                        lo: int, mid: int, hi: int, pivot: int)
    requires 0 <= lo < mid <= hi <= |s1|
    requires forall k :: lo <= k < mid ==> s1[k].t <= pivot
    requires s1[mid - 1].t == pivot
    requires forall k :: mid <= k < hi ==> s1[k].t > pivot
    requires Permutes(s1, s2, lo, mid - 1) && SortedRange(s2, lo, mid - 1)
    requires Permutes(s2, s3, mid, hi) && SortedRange(s3, mid, hi)
    ensures SortedRange(s3, lo, hi)
  {
    PermutesBounds(s1, s2, lo, mid - 1, pivot);
    assert s3[..mid] == s2[..mid];
    assert forall k :: lo <= k < mid ==> s3[k] == s3[..mid][k] == s2[k];
    assert s2[mid - 1] == s2[mid - 1..][0] == s1[mid - 1..][0] == s1[mid - 1];
    assert s2[mid..] == s1[mid..];
    assert forall k :: mid <= k < hi ==> s2[k] == s2[mid..][k - mid] == s1[k];
    PermutesBounds(s2, s3, mid, hi, pivot);
    SortedAroundPivot(s3, lo, mid, hi, pivot);
  }

  /** swapPoints: exchange two entries (nothing to do when they are the same). */
  method Swap(a: array<Point>, i: int, j: int)
    requires 0 <= i < a.Length && 0 <= j < a.Length
    modifies a
    ensures a[..] == old(a[..])[i := old(a[j])][j := old(a[i])]
  {
    if i == j {
      return;
    }
    var aux := a[i];
    a[i] := a[j];
    a[j] := aux;
  }

  /**
   * The state of the partition loop over s0[start..end) with pivot timestamp `pivot`:
   * [start, i) holds entries at most the pivot, [i, j) entries above it, and [j, end) is
   * still untouched. Once the scan has passed the pivot (the last entry) it sits at i - 1.
   */
  ghost predicate PartitionInv(s0: seq<Point>, s: seq<Point>, start: int, end: int,
                               i: int, j: int, pivot: int)
    requires 0 <= start < end <= |s0|
  {
    start <= i <= j <= end && Permutes(s0, s, start, end) &&
    (forall k :: start <= k < i ==> s[k].t <= pivot) &&
    (forall k :: i <= k < j ==> s[k].t > pivot) &&
    (forall k :: j <= k < end ==> s[k] == s0[k]) &&
    (j == end ==> start < i && s[i - 1].t == pivot)
  }

  /** One step of the scan: an entry at most the pivot is swapped to position i. */
  lemma PartitionSwapStep(s0: seq<Point>, s: seq<Point>, start: int, end: int,
                          i: int, j: int, pivot: int)
    requires 0 <= start < end <= |s0| && pivot == s0[end - 1].t
    requires PartitionInv(s0, s, start, end, i, j, pivot) && j < end && s[j].t <= pivot
    ensures PartitionInv(s0, s[i := s[j]][j := s[i]], start, end, i + 1, j + 1, pivot)
  {
    SwapPermutes(s, i, j, start, end);
    PermutesTrans(s0, s, s[i := s[j]][j := s[i]], start, end);
  }

  /** One step of the scan: an entry above the pivot stays where it is. */
  lemma PartitionSkipStep(s0: seq<Point>, s: seq<Point>, start: int, end: int,
                          i: int, j: int, pivot: int)
    requires 0 <= start < end <= |s0| && pivot == s0[end - 1].t
    requires PartitionInv(s0, s, start, end, i, j, pivot) && j < end && s[j].t > pivot
    ensures PartitionInv(s0, s, start, end, i, j + 1, pivot)
  {
  }

  /**
   * The partition loop of quickSort: every entry whose timestamp is at most the pivot's
   * (the last entry's) is swapped down to the growing prefix [start, i). The pivot comes
   * last, so it ends up at i - 1.
   */
  method Partition(a: array<Point>, start: int, end: int) returns (i: int)
    requires 0 <= start && start + 1 < end <= a.Length
    modifies a
    ensures start < i <= end
    ensures Permutes(old(a[..]), a[..], start, end)
    ensures forall k :: start <= k < i ==> a[k].t <= old(a[end - 1].t)
    ensures a[i - 1].t == old(a[end - 1].t)
    ensures forall k :: i <= k < end ==> a[k].t > old(a[end - 1].t)
  {
    var pivot := a[end - 1].t;
    PermutesRefl(a[..], start, end);
    i := Scan(a, start, end, pivot, a[..]);
  }

  /** The while loop of the partition, from the empty prefix to the end of the range. */
  method Scan(a: array<Point>, start: int, end: int, pivot: int, ghost s0: seq<Point>)
    returns (i: int)
    requires 0 <= start < end <= a.Length == |s0| && pivot == s0[end - 1].t
    requires PartitionInv(s0, a[..], start, end, start, start, pivot)
    modifies a
    ensures PartitionInv(s0, a[..], start, end, i, end, pivot)
  {
    i := start;
    var j := start;
    while j < end
      invariant PartitionInv(s0, a[..], start, end, i, j, pivot)
    {
      if a[j].t <= pivot {
        PartitionSwapStep(s0, a[..], start, end, i, j, pivot);
        Swap(a, i, j);
        i := i + 1;
      } else {
        PartitionSkipStep(s0, a[..], start, end, i, j, pivot);
      }
      j := j + 1;
    }
  }

  /** quickSort on [start, end): sorted by timestamp, and only rearranged inside the range. */
  method QuickSort(a: array<Point>, start: int, end: int)
    requires 0 <= start <= end <= a.Length
    modifies a
    ensures Permutes(old(a[..]), a[..], start, end)
    ensures SortedRange(a[..], start, end)
    decreases end - start
  {
    if end - start > 1 {
      ghost var pivot := a[end - 1].t;
      var i := Partition(a, start, end);
      ghost var s1 := a[..];
      QuickSort(a, start, i - 1);
      ghost var s2 := a[..];
      QuickSort(a, i, end);
      QuickSortStep(old(a[..]), s1, s2, a[..], start, i, end, pivot);
    } else {
      PermutesRefl(a[..], start, end);
    }
  }

  /** sortTrajectory: the stored samples end up a timestamp-sorted permutation of themselves. */
  method SortTrajectory(t: Trajectory)
    requires t.Valid()
    modifies t.points
    ensures t.Valid()
    ensures SortedByTime(t.Contents())
    ensures multiset(t.Contents()) == multiset(old(t.Contents()))
  {
    QuickSort(t.points, 0, t.filled);
    assert t.points[..][0..t.filled] == t.Contents();
    assert old(t.points[..])[0..t.filled] == old(t.Contents());
  }
}
