/**
 * The segmentation engine of trajectory_fixer_c.c (lines 7-9 and 267-322): the validity
 * test on a trajectory's bounding box, the nearest-neighbour search in an index window,
 * and sliceNspliceNsave, which walks a time-sorted trajectory from nearest neighbour to
 * nearest neighbour and cuts it wherever the next neighbour is too far away.
 *
 * Distances are compared through their squares (see Geometry.RootComparisons and
 * Geometry.RootsOrdered): `distance(p, q) > SPATIAL_LIMIT` is Far(p, q), and
 * `newDistance < minDistance` compares squared distances.
 */
module CSegment {
  import opened SeqUtil
  import Geometry
  import opened CTrajectory
  import opened CWriter
  import opened CSort

  const SPATIAL_LIMIT: real := 0.003
  const TIME_LIMIT: int := 30000
  const MIN_BOUNDARY: real := 0.01

  /** distance(p, q) > SPATIAL_LIMIT. */
  predicate Far(p: Point, q: Point)
  {
    !Geometry.AtMost(SqDistance(p, q), SPATIAL_LIMIT)
  }

  /** The bounding box of the samples is wider than MIN_BOUNDARY in latitude or longitude. */
  predicate ValidSpan(s: seq<Point>)
  {
    |s| > 0 && Geometry.SpanExceeds(Lats(s), Lngs(s), MIN_BOUNDARY)
  }

  /** A single sample never spans anything. */
  lemma OnePointNotValid(p: Point)
    ensures !ValidSpan([p])
  {
    Geometry.SpreadOfOne(p.lat);
    Geometry.SpreadOfOne(p.lng);
    assert Lats([p]) == [p.lat] && Lngs([p]) == [p.lng];
  }

  /** So a trajectory that passes isValid has at least two samples. */
  lemma ValidSpanHasTwo(s: seq<Point>)
    ensures ValidSpan(s) ==> |s| >= 2
  {
    if |s| == 1 {
      assert s == [s[0]];
      OnePointNotValid(s[0]);
    }
  }

  /** Reordering the samples (as sortTrajectory does) does not change validity. */
  lemma ValidSpanPermutation(s: seq<Point>, r: seq<Point>)
    requires multiset(s) == multiset(r)
    ensures ValidSpan(s) == ValidSpan(r)
  {
    assert |s| == |multiset(s)| == |r|;
    if |s| > 0 {
      SameLatSpread(s, r);
      SameLngSpread(s, r);
    }
  }

  lemma SameLatSpread(s: seq<Point>, r: seq<Point>)
    requires |s| > 0 && |r| > 0 && multiset(s) == multiset(r)
    ensures Geometry.Spread(Lats(s)) == Geometry.Spread(Lats(r))
  {
    SameValues(s, r);
    SameValues(r, s);
    Geometry.SpreadSameValues(Lats(s), Lats(r));
  }

  lemma SameLngSpread(s: seq<Point>, r: seq<Point>)
    requires |s| > 0 && |r| > 0 && multiset(s) == multiset(r)
    ensures Geometry.Spread(Lngs(s)) == Geometry.Spread(Lngs(r))
  {
    SameValues(s, r);
    SameValues(r, s);
    Geometry.SpreadSameValues(Lngs(s), Lngs(r));
  }

  /** Every coordinate of s occurs among the coordinates of r. */
  lemma SameValues(s: seq<Point>, r: seq<Point>)
    requires multiset(s) <= multiset(r)
    ensures forall i :: 0 <= i < |s| ==> s[i].lat in Lats(r) && s[i].lng in Lngs(r)
  {
    forall i | 0 <= i < |s|
      ensures s[i].lat in Lats(r) && s[i].lng in Lngs(r)
    {
      assert s[i] in multiset(s);
      assert s[i] in r;
      var k :| 0 <= k < |r| && r[k] == s[i];
      assert Lats(r)[k] == s[i].lat && Lngs(r)[k] == s[i].lng;
    }
  }

  /**
   * isValid: false for NULL and for an empty trajectory; otherwise the running bounding box
   * is checked after each added sample, and the first time it is too wide the answer is
   * true. Since the box only grows, that is the same as testing the whole box once.
   */
  method IsValid(traj: Trajectory?) returns (r: bool)
    requires traj != null ==> traj.Valid()
    ensures r == (traj != null && ValidSpan(traj.Contents()))
  {
    if traj == null || traj.filled == 0 {
      return false;
    }
    ghost var s := traj.Contents();
    ghost var lats, lngs := Lats(s), Lngs(s);
    var p := traj.points[0];
    var maxLat, minLat, maxLng, minLng := p.lat, p.lat, p.lng, p.lng;
    assert lats[..1] == [p.lat] && lngs[..1] == [p.lng];
    Geometry.SpreadOfOne(p.lat);
    Geometry.SpreadOfOne(p.lng);
    var i := 1;
    while i < traj.filled
      invariant 1 <= i <= traj.filled
      invariant maxLat == Geometry.MaxOf(lats[..i]) && minLat == Geometry.MinOf(lats[..i])
      invariant maxLng == Geometry.MaxOf(lngs[..i]) && minLng == Geometry.MinOf(lngs[..i])
      invariant !Geometry.SpanExceeds(lats[..i], lngs[..i], MIN_BOUNDARY)
    {
      p := traj.points[i];
      assert p.lat == lats[i] && p.lng == lngs[i];
      ScanStep(lats, lngs, i);
      maxLat, minLat := Widen(maxLat, minLat, p.lat);
      maxLng, minLng := Widen(maxLng, minLng, p.lng);
      if maxLat - minLat > MIN_BOUNDARY || maxLng - minLng > MIN_BOUNDARY {
        return true;
      }
      i := i + 1;
    }
    assert lats[..i] == lats && lngs[..i] == lngs;
    return false;
  }

  /** One step of isValid's scan: the box of the first i + 1 samples, and what its test
    * says about the whole trajectory. */
  lemma ScanStep(lats: seq<real>, lngs: seq<real>, i: nat)
    requires 0 < i < |lats| == |lngs|
    ensures Geometry.MaxOf(lats[..i + 1]) == Geometry.Max(Geometry.MaxOf(lats[..i]), lats[i])
    ensures Geometry.MinOf(lats[..i + 1]) == Geometry.Min(Geometry.MinOf(lats[..i]), lats[i])
    ensures Geometry.MaxOf(lngs[..i + 1]) == Geometry.Max(Geometry.MaxOf(lngs[..i]), lngs[i])
    ensures Geometry.MinOf(lngs[..i + 1]) == Geometry.Min(Geometry.MinOf(lngs[..i]), lngs[i])
    ensures Geometry.SpanExceeds(lats[..i + 1], lngs[..i + 1], MIN_BOUNDARY) ==>
      Geometry.SpanExceeds(lats, lngs, MIN_BOUNDARY)
  {
    Geometry.PrefixStep(lats, i);
    Geometry.PrefixStep(lngs, i);
    Geometry.SpreadMonotone(lats, i + 1);
    Geometry.SpreadMonotone(lngs, i + 1);
  }

  /** The two comparisons isValid makes per coordinate: the interval [lo, hi] grows to
    * take in x. */
  method Widen(hi: real, lo: real, x: real) returns (hi': real, lo': real)
    ensures hi' == Geometry.Max(hi, x) && lo' == Geometry.Min(lo, x)
  {
    hi', lo' := hi, lo;
    if x > hi { hi' := x; }
    if x < lo { lo' := x; }
  }

  /** Squared distances from p to each sample of s. */
  function SqDistances(p: Point, s: seq<Point>): (ds: seq<real>)
    ensures |ds| == |s| && forall i :: 0 <= i < |s| ==> ds[i] == SqDistance(p, s[i])
  {
    seq(|s|, i requires 0 <= i < |s| => SqDistance(p, s[i]))
  }

  /** End of the window getClosestPointIndex scans: [lo, hi), but never less than [lo, lo + 1). */
  function WindowEnd(lo: int, hi: int): int
  {
    if hi > lo + 1 then hi else lo + 1
  }

  /**
   * getClosestPointIndex on the samples s: |s| when lo is past the end; otherwise the first
   * index of minimal distance to p in [lo, WindowEnd(lo, hi)). The index lo itself is a
   * candidate even when the window [lo, hi) is empty.
   */
  function ClosestIndex(s: seq<Point>, p: Point, lo: int, hi: int): (m: int)
    requires 0 <= lo && hi <= |s|
    ensures lo >= |s| ==> m == |s|
    ensures lo < |s| ==> lo <= m < WindowEnd(lo, hi) <= |s|
    ensures lo < |s| ==> forall k :: lo <= k < WindowEnd(lo, hi) ==>
      SqDistance(p, s[m]) <= SqDistance(p, s[k])
    ensures lo < |s| ==> forall k :: lo <= k < m ==> SqDistance(p, s[k]) > SqDistance(p, s[m])
  {
    if lo >= |s| then |s|
    else
      var w := s[lo..WindowEnd(lo, hi)];
      var ds := SqDistances(p, w);
      var k := Geometry.FirstMin(ds);
      assert forall j :: 0 <= j < |w| ==> ds[j] == SqDistance(p, s[lo + j]);
      lo + k
  }

  /** The characterisation of ClosestIndex pins it down: it is the first argmin. */
  lemma ClosestIndexUnique(s: seq<Point>, p: Point, lo: int, hi: int, m: int)
    requires 0 <= lo < |s| && hi <= |s|
    requires lo <= m < WindowEnd(lo, hi)
    requires forall k :: lo <= k < WindowEnd(lo, hi) ==> SqDistance(p, s[m]) <= SqDistance(p, s[k])
    requires forall k :: lo <= k < m ==> SqDistance(p, s[k]) > SqDistance(p, s[m])
    ensures m == ClosestIndex(s, p, lo, hi)
  {
    var c := ClosestIndex(s, p, lo, hi);
    assert SqDistance(p, s[m]) <= SqDistance(p, s[c]);
    assert SqDistance(p, s[c]) <= SqDistance(p, s[m]);
  }

  /** getClosestPointIndex: the scan keeps the first strictly smaller distance it meets. */
  method GetClosestPointIndex(t: Trajectory, p: Point, rangeStart: int, rangeEnd: int)
    returns (minIndex: int)
    requires t.Valid() && 0 <= rangeStart && rangeEnd <= t.filled
    ensures minIndex == ClosestIndex(t.Contents(), p, rangeStart, rangeEnd)
  {
    if rangeStart >= t.filled {
      return t.filled;
    }
    ghost var s := t.Contents();
    minIndex := rangeStart;
    var minDistance := SqDistance(p, t.points[minIndex]);
    var i := rangeStart + 1;
    while i < rangeEnd
      invariant rangeStart < i <= WindowEnd(rangeStart, rangeEnd)
      invariant rangeStart <= minIndex < i && minDistance == SqDistance(p, s[minIndex])
      invariant forall k :: rangeStart <= k < i ==> minDistance <= SqDistance(p, s[k])
      invariant forall k :: rangeStart <= k < minIndex ==> SqDistance(p, s[k]) > minDistance
    {
      var newDistance := SqDistance(p, t.points[i]);
      if newDistance < minDistance {
        minDistance := newDistance;
        minIndex := i;
      }
      i := i + 1;
    }
    ClosestIndexUnique(s, p, rangeStart, rangeEnd, minIndex);
  }

  /** The inner while loop of sliceNspliceNsave: the first index from `end` on whose sample
    * is at least TIME_LIMIT after t0 (or |s|). */
  function Extend(s: seq<Point>, end: int, t0: int): (e: int)
    requires 0 <= end <= |s|
    ensures end <= e <= |s|
    ensures forall k :: end <= k < e ==> s[k].t < t0 + TIME_LIMIT
    ensures e < |s| ==> s[e].t >= t0 + TIME_LIMIT
    decreases |s| - end
  {
    if end < |s| && s[end].t < t0 + TIME_LIMIT then Extend(s, end + 1, t0) else end
  }

  /** The characterisation of Extend pins it down. */
  lemma ExtendUnique(s: seq<Point>, end: int, t0: int, e: int)
    requires 0 <= end <= e <= |s|
    requires forall k :: end <= k < e ==> s[k].t < t0 + TIME_LIMIT
    requires e < |s| ==> s[e].t >= t0 + TIME_LIMIT
    ensures e == Extend(s, end, t0)
  {
  }

  /** The inner while loop of sliceNspliceNsave on the stored samples. */
  method AdvanceEnd(t: Trajectory, end: int, t0: int) returns (e: int)
    requires t.Valid() && 0 <= end <= t.filled
    ensures e == Extend(t.Contents(), end, t0)
  {
    ghost var s := t.Contents();
    e := end;
    while e < t.filled && t.points[e].t < t0 + TIME_LIMIT
      invariant end <= e <= t.filled
      invariant forall k :: end <= k < e ==> s[k].t < t0 + TIME_LIMIT
    {
      e := e + 1;
    }
    ExtendUnique(s, end, t0, e);
  }

  /**
   * The sample sliceNspliceNsave moves to from index i of a time-sorted trajectory: the
   * first nearest one among the later samples less than TIME_LIMIT after s[i], or simply
   * the next sample when none is that close in time; |s| after the last sample.
   */
  function Next(s: seq<Point>, i: nat): (j: nat)
    requires i < |s|
    ensures i < j <= |s|
  {
    ClosestIndex(s, s[i], i + 1, Extend(s, i + 1, s[i].t))
  }

  /** What Next(s, i) is: the end only after the last sample; otherwise the next sample or
    * one less than TIME_LIMIT later, no farther than any sample of the window, and strictly
    * closer than every sample it passes over. */
  lemma NextSpec(s: seq<Point>, i: nat)
    requires i < |s|
    ensures Next(s, i) == |s| <==> i + 1 == |s|
    ensures Next(s, i) < |s| ==> Next(s, i) == i + 1 || s[Next(s, i)].t < s[i].t + TIME_LIMIT
    ensures Next(s, i) < |s| ==> forall k :: i < k < Next(s, i) ==>
      SqDistance(s[i], s[k]) > SqDistance(s[i], s[Next(s, i)])
    ensures Next(s, i) < |s| ==> forall k :: i < k < Extend(s, i + 1, s[i].t) ==>
      SqDistance(s[i], s[Next(s, i)]) <= SqDistance(s[i], s[k])
  {
  }

  /** The walk cuts after index i: there is no next sample, or it is too far away. */
  predicate CutAfter(s: seq<Point>, i: nat)
    requires i < |s|
  {
    Next(s, i) == |s| || Far(s[i], s[Next(s, i)])
  }

  /** All indices of cur lie before bound. */
  ghost predicate Before(cur: seq<nat>, bound: nat)
  {
    forall k :: 0 <= k < |cur| ==> cur[k] < bound
  }

  /** All indices of all segments lie below n. */
  ghost predicate AllBelow(segs: seq<seq<nat>>, n: nat)
  {
    forall g, k :: 0 <= g < |segs| && 0 <= k < |segs[g]| ==> segs[g][k] < n
  }

  /** All indices of all segments index into s. */
  ghost predicate AllIn(s: seq<Point>, segs: seq<seq<nat>>)
  {
    AllBelow(segs, |s|)
  }

  /** A walk graph on 0..|nx|: from i the walk moves forward to nx[i], and it leaves the
    * graph only from the last node, where it cuts. */
  ghost predicate IsWalk(nx: seq<nat>, cut: seq<bool>)
  {
    |cut| == |nx| && (|nx| > 0 ==> cut[|nx| - 1]) &&
    forall i :: 0 <= i < |nx| ==> i < nx[i] <= |nx| && (nx[i] == |nx| ==> i == |nx| - 1)
  }

  /** The walk graph of sliceNspliceNsave: from i it moves to Next(s, i), cutting there when
    * CutAfter(s, i). */
  function Steps(s: seq<Point>): (nx: seq<nat>)
    ensures |nx| == |s| && forall i :: 0 <= i < |s| ==> nx[i] == Next(s, i)
  {
    seq(|s|, i requires 0 <= i < |s| => Next(s, i))
  }

  function Cuts(s: seq<Point>): (cut: seq<bool>)
    ensures |cut| == |s| && forall i :: 0 <= i < |s| ==> cut[i] == CutAfter(s, i)
  {
    seq(|s|, i requires 0 <= i < |s| => CutAfter(s, i))
  }

  lemma StepsIsWalk(s: seq<Point>)
    ensures IsWalk(Steps(s), Cuts(s))
  {
    forall i | 0 <= i < |s|
      ensures Next(s, i) == |s| ==> i == |s| - 1
    {
      NextSpec(s, i);
    }
  }

  /**
   * The segments (as index lists) a walk from index i closes, when cur holds the indices
   * already collected into the open segment: i joins the open segment, which is closed when
   * the walk cuts after i. Every closed segment is kept here, whether or not it will pass
   * isValid.
   */
  ghost function Split(nx: seq<nat>, cut: seq<bool>, i: nat, cur: seq<nat>): seq<seq<nat>>
    requires IsWalk(nx, cut) && i <= |nx|
    decreases |nx| - i
  {
    if i == |nx| then []
    else if cut[i] then [cur + [i]] + Split(nx, cut, nx[i], [])
    else Split(nx, cut, nx[i], cur + [i])
  }

  /** Every index a walk puts into a segment is a node of its graph. */
  lemma {:induction false} SplitInRange(nx: seq<nat>, cut: seq<bool>, i: nat, cur: seq<nat>)
    requires IsWalk(nx, cut) && i <= |nx| && Before(cur, i)
    ensures AllBelow(Split(nx, cut, i, cur), |nx|)
    decreases |nx| - i
  {
    if i < |nx| {
      if cut[i] {
        SplitInRange(nx, cut, nx[i], []);
      } else {
        SplitInRange(nx, cut, nx[i], cur + [i]);
      }
    }
  }

  /** The segments sliceNspliceNsave closes from index i of s on, with cur open. */
  ghost function SegmentsFrom(s: seq<Point>, i: nat, cur: seq<nat>): seq<seq<nat>>
    requires i <= |s|
  {
    StepsIsWalk(s);
    Split(Steps(s), Cuts(s), i, cur)
  }

  lemma SegmentsFromInRange(s: seq<Point>, i: nat, cur: seq<nat>)
    requires i <= |s| && Before(cur, i)
    ensures AllIn(s, SegmentsFrom(s, i, cur))
  {
    StepsIsWalk(s);
    SplitInRange(Steps(s), Cuts(s), i, cur);
  }

  /** The segments sliceNspliceNsave cuts a time-sorted trajectory into. */
  ghost function Segments(s: seq<Point>): seq<seq<nat>>
  {
    SegmentsFrom(s, 0, [])
  }

  /** The samples at the given indices. */
  ghost function Pick(s: seq<Point>, idx: seq<nat>): (r: seq<Point>)
    requires Before(idx, |s|)
    ensures |r| == |idx| && forall k :: 0 <= k < |idx| ==> r[k] == s[idx[k]]
  {
    seq(|idx|, k requires 0 <= k < |idx| => s[idx[k]])
  }

  ghost function PickAll(s: seq<Point>, segs: seq<seq<nat>>): (r: seq<seq<Point>>)
    requires AllIn(s, segs)
    ensures |r| == |segs| && forall g :: 0 <= g < |segs| ==> r[g] == Pick(s, segs[g])
  {
    seq(|segs|, g requires 0 <= g < |segs| => Pick(s, segs[g]))
  }

  /** The trajectories that pass isValid, in order. */
  ghost function KeepValid(ts: seq<seq<Point>>): seq<seq<Point>>
  {
    if ts == [] then []
    else KeepValid(ts[..|ts| - 1]) + (if ValidSpan(ts[|ts| - 1]) then [ts[|ts| - 1]] else [])
  }

  lemma KeepValidAppend(ts: seq<seq<Point>>, x: seq<Point>)
    ensures KeepValid(ts + [x]) == KeepValid(ts) + (if ValidSpan(x) then [x] else [])
  {
    assert (ts + [x])[..|ts|] == ts;
  }

  /** What sliceNspliceNsave writes for the time-sorted samples s, in order. */
  ghost function Written(s: seq<Point>): seq<seq<Point>>
  {
    SegmentsFromInRange(s, 0, []);
    KeepValid(PickAll(s, Segments(s)))
  }

  /**
   * The writer's state after the closed segments `done` of the samples s: the rows of the
   * ones that pass isValid follow rows0, numbered from id0 on.
   */
  ghost predicate Emitted(s: seq<Point>, done: seq<seq<nat>>, rows0: seq<OutRow>, id0: int,
                          rows: seq<OutRow>, nextId: int)
  {
    AllIn(s, done) &&
    rows == rows0 + RowsOfAll(KeepValid(PickAll(s, done)), id0) &&
    nextId == id0 + |KeepValid(PickAll(s, done))|
  }

  /** Closing one more segment: its rows follow exactly when it passes isValid. */
  lemma EmittedStep(s: seq<Point>, done: seq<seq<nat>>, seg: seq<nat>, rows0: seq<OutRow>,
                    id0: int, rows: seq<OutRow>, nextId: int, rows': seq<OutRow>, nextId': int)
    requires Emitted(s, done, rows0, id0, rows, nextId) && Before(seg, |s|)
    requires ValidSpan(Pick(s, seg)) ==>
      rows' == rows + RowsOf(Pick(s, seg), nextId) && nextId' == nextId + 1
    requires !ValidSpan(Pick(s, seg)) ==> rows' == rows && nextId' == nextId
    ensures Emitted(s, done + [seg], rows0, id0, rows', nextId')
  {
    var x, all := Pick(s, seg), PickAll(s, done);
    assert AllIn(s, done + [seg]);
    assert PickAll(s, done + [seg]) == all + [x];
    KeepValidAppend(all, x);
    RowsStep(KeepValid(all), x, ValidSpan(x), rows0, id0, rows, nextId, rows', nextId');
  }

  /** The writer bookkeeping of EmittedStep, for any list of kept trajectories. */
  lemma RowsStep(kept: seq<seq<Point>>, x: seq<Point>, valid: bool, rows0: seq<OutRow>,
                 id0: int, rows: seq<OutRow>, nextId: int, rows': seq<OutRow>, nextId': int)
    requires rows == rows0 + RowsOfAll(kept, id0) && nextId == id0 + |kept|
    requires valid ==> rows' == rows + RowsOf(x, nextId) && nextId' == nextId + 1
    requires !valid ==> rows' == rows && nextId' == nextId
    ensures var kept' := kept + (if valid then [x] else []);
      rows' == rows0 + RowsOfAll(kept', id0) && nextId' == id0 + |kept'|
  {
    if valid {
      RowsOfAllAppend(kept, x, id0);
    } else {
      assert kept + [] == kept;
    }
  }

  /** The window invariant: every sample after start and before end is less than
    * TIME_LIMIT after s[start]. */
  ghost predicate Window(s: seq<Point>, start: nat, end: nat)
  {
    start < |s| ==> end <= |s| && forall k :: start < k < end ==> s[k].t < s[start].t + TIME_LIMIT
  }

  /**
   * One step of sliceNspliceNsave on sorted samples: extending the window from `end` gives
   * the same window as extending it from start + 1, so the closest sample found is
   * Next(s, start), and the window invariant holds at the new position.
   */
  lemma Advance(s: seq<Point>, start: nat, end: nat)
    requires SortedByTime(s) && start < |s| && Window(s, start, end)
    ensures Extend(s, end, s[start].t) == Extend(s, start + 1, s[start].t)
    ensures ClosestIndex(s, s[start], start + 1, Extend(s, end, s[start].t)) == Next(s, start)
    ensures Window(s, Next(s, start), Extend(s, end, s[start].t))
  {
    var t0 := s[start].t;
    var e := Extend(s, end, t0);
    var q := if e <= start then e else start;
    assert s[q].t <= t0;
    forall k | start + 1 <= k < e
      ensures s[k].t < t0 + TIME_LIMIT
    {
      if k < end {
      } else {
      }
    }
    ExtendUnique(s, start + 1, t0, e);
    var m := Next(s, start);
    if m < |s| {
      forall k | m < k < e
        ensures s[k].t < s[m].t + TIME_LIMIT
      {
        assert s[start].t <= s[m].t;
      }
    }
  }

  /**
   * The state of sliceNspliceNsave's walk over the sorted samples s: at index start with
   * window end `end`, the open segment holding cur and the segments `done` closed, so that
   * the rest of the walk closes exactly the remaining segments.
   */
  ghost predicate WalkState(s: seq<Point>, start: nat, end: nat, cur: seq<nat>, done: seq<seq<nat>>)
  {
    SortedByTime(s) && start <= |s| && Window(s, start, end) && Before(cur, start) &&
    Segments(s) == done + SegmentsFrom(s, start, cur)
  }

  /** The walk starts at index 0 with window end 1 and nothing collected. */
  lemma WalkStart(s: seq<Point>)
    requires SortedByTime(s)
    ensures WalkState(s, 0, 1, [], [])
  {
  }

  /**
   * One pass of sliceNspliceNsave's loop that closes the open segment: s[start] ends it,
   * and the walk goes on from Next(s, start) with nothing collected.
   */
  lemma WalkCut(s: seq<Point>, start: nat, end: nat, cur: seq<nat>, done: seq<seq<nat>>)
    requires WalkState(s, start, end, cur, done) && start < |s| && CutAfter(s, start)
    ensures Before(cur + [start], |s|)
    ensures WalkState(s, Next(s, start), Extend(s, end, s[start].t), [], done + [cur + [start]])
  {
    Advance(s, start, end);
    CutUnfold(s, start, cur, done);
  }

  lemma CutUnfold(s: seq<Point>, start: nat, cur: seq<nat>, done: seq<seq<nat>>)
    requires start < |s| && Before(cur, start) && CutAfter(s, start)
    requires Segments(s) == done + SegmentsFrom(s, start, cur)
    ensures Segments(s) == (done + [cur + [start]]) + SegmentsFrom(s, Next(s, start), [])
  {
    var rest := SegmentsFrom(s, Next(s, start), []);
    assert SegmentsFrom(s, start, cur) == [cur + [start]] + rest;
    assert done + ([cur + [start]] + rest) == (done + [cur + [start]]) + rest;
  }

  /** One pass that keeps the segment open: s[start] joins it. */
  lemma WalkKeep(s: seq<Point>, start: nat, end: nat, cur: seq<nat>, done: seq<seq<nat>>)
    requires WalkState(s, start, end, cur, done) && start < |s| && !CutAfter(s, start)
    ensures WalkState(s, Next(s, start), Extend(s, end, s[start].t), cur + [start], done)
  {
    Advance(s, start, end);
  }

  /** When the walk is past the last sample, every segment has been closed. */
  lemma WalkEnd(s: seq<Point>, start: nat, end: nat, cur: seq<nat>, done: seq<seq<nat>>)
    requires WalkState(s, start, end, cur, done) && start >= |s|
    ensures Segments(s) == done && AllIn(s, done)
  {
    assert SegmentsFrom(s, start, cur) == [];
    assert done + [] == done;
    SegmentsFromInRange(s, 0, []);
  }

  /**
   * sliceNspliceNsave: sort the samples by time, then walk them from index 0, adding each
   * sample to the open segment and moving to the closest sample of the time window; when
   * there is none or it is farther than SPATIAL_LIMIT the open segment is closed, written if
   * it passes isValid, and a new one is started.
   */
  method SliceNSpliceNSave(orig: Trajectory, writer: TrajectoryWriter)
    requires orig.Valid() && writer.Valid()
    modifies orig.points, writer
    ensures orig.Valid() && SortedByTime(orig.Contents())
    ensures multiset(orig.Contents()) == multiset(old(orig.Contents()))
    ensures writer.Valid()
    ensures writer.rows == old(writer.rows) + RowsOfAll(Written(orig.Contents()), old(writer.nextId))
    ensures writer.nextId == old(writer.nextId) + |Written(orig.Contents())|
  {
    SortTrajectory(orig);
    WalkSorted(orig, writer);
  }

  /** The while loop of sliceNspliceNsave, on the sorted samples. */
  method WalkSorted(orig: Trajectory, writer: TrajectoryWriter)
    requires orig.Valid() && SortedByTime(orig.Contents()) && writer.Valid()
    modifies writer
    ensures writer.Valid()
    ensures writer.rows == old(writer.rows) + RowsOfAll(Written(orig.Contents()), old(writer.nextId))
    ensures writer.nextId == old(writer.nextId) + |Written(orig.Contents())|
  {
    var start: nat, end: nat := 0, 1;
    ghost var s := orig.Contents();
    ghost var rows0, id0 := writer.rows, writer.nextId;
    var t := new Trajectory();
    ghost var cur: seq<nat> := [];
    ghost var done: seq<seq<nat>> := [];
    WalkStart(s);
    while start < orig.filled
      invariant WalkState(s, start, end, cur, done)
      invariant fresh(t) && fresh(t.points) && t.Valid() && t.Contents() == Pick(s, cur)
      invariant writer.Valid() && Emitted(s, done, rows0, id0, writer.rows, writer.nextId)
      decreases |s| - start
    {
      var cut, start', end';
      ghost var seg;
      cut, start', end', seg := Visit(orig, t, start, end, s, cur);
      if cut {
        WalkCut(s, start, end, cur, done);
        ghost var rows, nextId := writer.rows, writer.nextId;
        var written;
        written, t := Flush(t, writer);
        EmittedStep(s, done, seg, rows0, id0, rows, nextId, writer.rows, writer.nextId);
        done, cur := done + [seg], [];
      } else {
        WalkKeep(s, start, end, cur, done);
        cur := seg;
      }
      start, end := start', end';
    }
    WalkEnd(s, start, end, cur, done);
  }

  /**
   * One pass of that loop up to its `if`: add s[start] to the open trajectory, extend the
   * time window and move to the closest sample in it; `cut` tells whether there is none or
   * it is farther than SPATIAL_LIMIT, so that the open segment ends here.
   */
  method Visit(orig: Trajectory, t: Trajectory, start: nat, end: nat, ghost s: seq<Point>,
               ghost cur: seq<nat>)
    returns (cut: bool, start': nat, end': nat, ghost seg: seq<nat>)
    requires orig.Valid() && orig.Contents() == s && start < |s|
    requires SortedByTime(s) && Window(s, start, end) && Before(cur, start)
    requires t.Valid() && t.Contents() == Pick(s, cur) && t.points != orig.points
    modifies t, t.points
    ensures seg == cur + [start] && Before(seg, |s|)
    ensures t.Valid() && t.Contents() == Pick(s, seg)
    ensures t.points == old(t.points) || fresh(t.points)
    ensures end' == Extend(s, end, s[start].t) && start' == Next(s, start)
    ensures cut == CutAfter(s, start)
  {
    var p := orig.points[start];
    t.AddPoint(p);
    seg := cur + [start];
    assert t.Contents() == Pick(s, seg);
    Advance(s, start, end);
    end' := AdvanceEnd(orig, end, p.t);
    start' := GetClosestPointIndex(orig, p, start + 1, end');
    cut := start' == orig.filled || Far(p, orig.points[start']);
  }

  /**
   * The end of a segment in sliceNspliceNsave: write the open trajectory if it passes
   * isValid, then start a new, empty one.
   */
  method Flush(t: Trajectory, writer: TrajectoryWriter) returns (written: bool, next: Trajectory)
    requires t.Valid() && writer.Valid()
    modifies writer
    ensures written == ValidSpan(t.Contents())
    ensures writer.Valid()
    ensures written ==> writer.rows == old(writer.rows) + RowsOf(t.Contents(), old(writer.nextId))
    ensures written ==> writer.nextId == old(writer.nextId) + 1
    ensures !written ==> writer.rows == old(writer.rows) && writer.nextId == old(writer.nextId)
    ensures fresh(next) && fresh(next.points) && next.Valid() && next.Contents() == []
  {
    written := IsValid(t);
    if written {
      writer.WriteTrajectory(t);
    }
    next := new Trajectory();
  }
}
