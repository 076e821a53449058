/**
 * What the segments of sliceNspliceNsave (trajectory_fixer_c.c, lines 305-323) are like:
 * together they list the samples the walk visits, in order and each once; every segment
 * is a run of walk steps that stay within SPATIAL_LIMIT and ends where the walk cuts; and
 * every trajectory written passes isValid and is in time order.
 *
 * The combinatorial facts are proved for any walk graph (nx, cut) and then read on the
 * graph of Next and CutAfter.
 */
module CSegmentFacts {
  import opened SeqUtil
  import opened CTrajectory
  import opened CSegment

  /** The nodes a walk visits from i on. */
  ghost function Chain(nx: seq<nat>, cut: seq<bool>, i: nat): seq<nat>
    requires IsWalk(nx, cut) && i <= |nx|
    decreases |nx| - i
  {
    if i == |nx| then [] else [i] + Chain(nx, cut, nx[i])
  }

  /** The visited nodes rise strictly, each the step from the one before, from i up to the
    * last node: a walk always ends on the last node and never visits one twice. */
  lemma {:induction false} ChainShape(nx: seq<nat>, cut: seq<bool>, i: nat)
    requires IsWalk(nx, cut) && i <= |nx|
    ensures var c := Chain(nx, cut, i);
      Increasing(c) &&
      (forall k :: 0 <= k < |c| ==> i <= c[k] < |nx|) &&
      (forall k :: 0 <= k < |c| - 1 ==> c[k + 1] == nx[c[k]]) &&
      (i < |nx| ==> c[0] == i && c[|c| - 1] == |nx| - 1 && nx[c[|c| - 1]] == |nx|)
    decreases |nx| - i
  {
    if i < |nx| {
      var j := nx[i];
      ChainShape(nx, cut, j);
      var c, rest := Chain(nx, cut, i), Chain(nx, cut, j);
      assert c == [i] + rest;
      IncreasingConcat([i], rest);
      assert forall k :: 0 < k < |c| ==> c[k] == rest[k - 1];
    }
  }

  /** All closed segments, read one after the other, are the nodes the walk visits after
    * the open segment cur. */
  lemma {:induction false} SplitCover(nx: seq<nat>, cut: seq<bool>, i: nat, cur: seq<nat>)
    requires IsWalk(nx, cut) && i <= |nx|
    ensures Flatten(Split(nx, cut, i, cur)) == (if i < |nx| then cur + Chain(nx, cut, i) else [])
    decreases |nx| - i
  {
    if i < |nx| {
      var j := nx[i];
      var rest := Chain(nx, cut, j);
      ChainStep(nx, cut, i);
      if cut[i] {
        var segs := Split(nx, cut, j, []);
        SplitCutStep(nx, cut, i, cur);
        SplitCover(nx, cut, j, []);
        FlattenJoin(cur, i, segs, rest, j == |nx|);
      } else {
        SplitCover(nx, cut, j, cur + [i]);
        assert (cur + [i]) + rest == cur + ([i] + rest);
      }
    }
  }

  lemma ChainStep(nx: seq<nat>, cut: seq<bool>, i: nat)
    requires IsWalk(nx, cut) && i < |nx|
    ensures Chain(nx, cut, i) == [i] + Chain(nx, cut, nx[i])
  {
  }

  lemma SplitCutStep(nx: seq<nat>, cut: seq<bool>, i: nat, cur: seq<nat>)
    requires IsWalk(nx, cut) && i < |nx| && cut[i]
    ensures Split(nx, cut, i, cur) == [cur + [i]] + Split(nx, cut, nx[i], [])
  {
  }

  /** The cut case of SplitCover: the closed segment cur + [i], then the rest of the walk
    * (nothing when it has left the graph). */
  lemma FlattenJoin(cur: seq<nat>, i: nat, segs: seq<seq<nat>>, rest: seq<nat>, atEnd: bool)
    requires Flatten(segs) == (if atEnd then [] else [] + rest)
    requires atEnd ==> rest == []
    ensures Flatten([cur + [i]] + segs) == cur + ([i] + rest)
  {
    FlattenCons(cur + [i], segs);
  }

  /**
   * The segments of sliceNspliceNsave, read one after the other, are exactly the samples
   * the walk from the first sample visits: in increasing index order, each at most once,
   * starting with the first sample and ending with the last.
   */
  lemma SegmentsArePath(s: seq<Point>)
    ensures Flatten(Segments(s)) == Chain(Steps(s), Cuts(s), 0)
    ensures Increasing(Flatten(Segments(s)))
    ensures |s| > 0 ==> Flatten(Segments(s))[0] == 0
    ensures |s| > 0 ==> Flatten(Segments(s))[|Flatten(Segments(s))| - 1] == |s| - 1
  {
    StepsIsWalk(s);
    SplitCover(Steps(s), Cuts(s), 0, []);
    ChainShape(Steps(s), Cuts(s), 0);
  }

  function Last(idx: seq<nat>): nat
    requires |idx| > 0
  {
    idx[|idx| - 1]
  }

  /** Every node of idx is below |nx|, and each one after the first is the walk's step from
    * the one before, taken without a cut. */
  ghost predicate Linked(nx: seq<nat>, cut: seq<bool>, idx: seq<nat>)
    requires IsWalk(nx, cut)
  {
    (forall k :: 0 <= k < |idx| ==> idx[k] < |nx|) &&
    forall k :: 0 <= k < |idx| - 1 ==> idx[k] < |nx| && idx[k + 1] == nx[idx[k]] && !cut[idx[k]]
  }

  /** The open segment cur can be continued by node i. */
  ghost predicate Joins(nx: seq<nat>, cut: seq<bool>, cur: seq<nat>, i: nat)
    requires IsWalk(nx, cut)
  {
    Linked(nx, cut, cur) &&
    (cur != [] ==> Last(cur) < |nx| && nx[Last(cur)] == i && !cut[Last(cur)])
  }

  /**
   * Every segment is non-empty, linked, and ends where the walk cuts; each segment after
   * the first starts at the walk's step from the end of the one before; the first starts
   * with the open segment (or with i).
   */
  lemma {:induction false} SplitLinked(nx: seq<nat>, cut: seq<bool>, i: nat, cur: seq<nat>)
    requires IsWalk(nx, cut) && i <= |nx| && Joins(nx, cut, cur, i)
    ensures var segs := Split(nx, cut, i, cur);
      (i < |nx| ==> |segs| > 0 && segs[0] != [] && segs[0][0] == (cur + [i])[0]) &&
      (forall g :: 0 <= g < |segs| ==>
         segs[g] != [] && Linked(nx, cut, segs[g]) && cut[Last(segs[g])]) &&
      (forall g, h :: 0 <= g && h == g + 1 && h < |segs| ==>
         segs[g] != [] && segs[h] != [] && segs[h][0] == nx[Last(segs[g])])
    decreases |nx| - i
  {
    if i < |nx| {
      var j := nx[i];
      var seg := cur + [i];
      assert Linked(nx, cut, seg) by {
        assert forall k :: 0 <= k < |cur| ==> seg[k] == cur[k];
      }
      if cut[i] {
        SplitLinked(nx, cut, j, []);
      } else {
        SplitLinked(nx, cut, j, seg);
        assert (seg + [j])[0] == seg[0];
      }
    }
  }

  /** Linked nodes rise strictly. */
  lemma {:induction false} LinkedIncreasing(nx: seq<nat>, cut: seq<bool>, idx: seq<nat>)
    requires IsWalk(nx, cut) && Linked(nx, cut, idx)
    ensures Increasing(idx)
    decreases |idx|
  {
    if |idx| >= 2 {
      var init := idx[..|idx| - 1];
      assert Linked(nx, cut, init) by {
        assert forall k :: 0 <= k < |init| ==> init[k] == idx[k];
      }
      LinkedIncreasing(nx, cut, init);
      assert forall a :: 0 <= a < |init| ==> idx[a] == init[a];
      assert forall a :: 0 <= a < |idx| - 1 ==> idx[a] <= idx[|idx| - 2];
    }
  }

  /**
   * On time-sorted samples, a linked segment of the walk of sliceNspliceNsave holds its
   * samples in time order, and each is within SPATIAL_LIMIT of the one before.
   */
  lemma PickLinked(s: seq<Point>, idx: seq<nat>)
    requires SortedByTime(s)
    requires IsWalk(Steps(s), Cuts(s)) && Linked(Steps(s), Cuts(s), idx)
    ensures SortedByTime(Pick(s, idx))
    ensures forall k :: 0 <= k < |idx| - 1 ==> !Far(Pick(s, idx)[k], Pick(s, idx)[k + 1])
  {
    LinkedIncreasing(Steps(s), Cuts(s), idx);
  }

  /** KeepValid keeps exactly the trajectories that pass isValid, and nothing else. */
  lemma {:induction false} KeepValidExact(ts: seq<seq<Point>>)
    ensures forall x :: x in KeepValid(ts) <==> x in ts && ValidSpan(x)
    decreases |ts|
  {
    if ts != [] {
      var init, x := ts[..|ts| - 1], ts[|ts| - 1];
      KeepValidExact(init);
      assert ts == init + [x];
    }
  }

  /** Every trajectory sliceNspliceNsave writes passes isValid and so has at least two samples. */
  lemma WrittenValid(s: seq<Point>)
    ensures forall x :: x in Written(s) ==> ValidSpan(x) && |x| >= 2
  {
    SegmentsFromInRange(s, 0, []);
    KeepValidExact(PickAll(s, Segments(s)));
    forall x | x in Written(s)
      ensures |x| >= 2
    {
      ValidSpanHasTwo(x);
    }
  }

  /**
   * On time-sorted samples s, every trajectory sliceNspliceNsave writes lists its samples
   * in time order and holds no two consecutive samples farther apart than SPATIAL_LIMIT.
   */
  lemma WrittenChained(s: seq<Point>)
    requires SortedByTime(s)
    ensures forall x :: x in Written(s) ==>
      SortedByTime(x) && forall k :: 0 <= k < |x| - 1 ==> !Far(x[k], x[k + 1])
  {
    StepsIsWalk(s);
    SegmentsFromInRange(s, 0, []);
    SplitLinked(Steps(s), Cuts(s), 0, []);
    var segs := Segments(s);
    var all := PickAll(s, segs);
    KeepValidExact(all);
    forall x | x in Written(s)
      ensures SortedByTime(x) && forall k :: 0 <= k < |x| - 1 ==> !Far(x[k], x[k + 1])
    {
      var g :| 0 <= g < |all| && all[g] == x;
      PickLinked(s, segs[g]);
    }
  }

  /**
   * Every trajectory sliceNspliceNsave writes for the time-sorted samples s passes isValid,
   * has at least two samples, lists them in time order, and holds no two consecutive
   * samples farther apart than SPATIAL_LIMIT.
   */
  lemma WrittenFacts(s: seq<Point>)
    requires SortedByTime(s)
    ensures forall x :: x in Written(s) ==>
      ValidSpan(x) && |x| >= 2 && SortedByTime(x) &&
      forall k :: 0 <= k < |x| - 1 ==> !Far(x[k], x[k + 1])
  {
    WrittenValid(s);
    WrittenChained(s);
  }
}

/** Small walks of sliceNspliceNsave, worked out. */
module CSegmentExamples {
  import opened CTrajectory
  import opened CSegment

  /** Two samples 0.001 apart but 40 s apart in time: with nothing in the time window the
    * walk still steps to the next sample, so TIME_LIMIT does not split them. */
  lemma TimeGapDoesNotCut()
    ensures var s := [Point(7, 0.0, 0.0, 0), Point(7, 0.001, 0.0, 40000)];
      Segments(s) == [[0, 1]]
  {
    var s := [Point(7, 0.0, 0.0, 0), Point(7, 0.001, 0.0, 40000)];
    NextSpec(s, 0);
    NextSpec(s, 1);
    assert !Far(s[0], s[1]);
    assert Steps(s) == [1, 2];
    assert Cuts(s) == [false, true];
    KeepThenCut();
  }

  lemma KeepThenCut()
    ensures IsWalk([1, 2], [false, true]) && Split([1, 2], [false, true], 0, []) == [[0, 1]]
  {
    var nx, cut := [1, 2], [false, true];
    assert Split(nx, cut, 2, []) == [];
    assert Split(nx, cut, 1, [0]) == [[0] + [1]] + [];
    assert [0] + [1] == [0, 1];
    assert [] + [0] == [0];
    assert Split(nx, cut, 0, []) == Split(nx, cut, 1, [0]);
  }

  /** Two samples 0.005 apart, one second apart: farther than SPATIAL_LIMIT, so the walk
    * cuts between them. */
  lemma DistanceCuts()
    ensures var s := [Point(7, 0.0, 0.0, 0), Point(7, 0.005, 0.0, 1000)];
      Segments(s) == [[0], [1]]
  {
    var s := [Point(7, 0.0, 0.0, 0), Point(7, 0.005, 0.0, 1000)];
    NextSpec(s, 0);
    NextSpec(s, 1);
    assert Far(s[0], s[1]);
    assert Steps(s) == [1, 2];
    assert Cuts(s) == [true, true];
    CutThenCut();
  }

  lemma CutThenCut()
    ensures IsWalk([1, 2], [true, true]) && Split([1, 2], [true, true], 0, []) == [[0], [1]]
  {
    var nx, cut := [1, 2], [true, true];
    assert Split(nx, cut, 2, []) == [];
    assert Split(nx, cut, 1, []) == [[] + [1]] + [];
    assert [] + [1] == [1] && [] + [0] == [0];
  }

  /** Within the time window the walk jumps to the closest sample: here it moves from the
    * first sample to the third, and the second sample is in no segment at all. */
  lemma CloserSampleSkipsOne()
    ensures var s := [Point(7, 0.0, 0.0, 0), Point(7, 0.002, 0.0, 1000), Point(7, 0.001, 0.0, 2000)];
      Segments(s) == [[0, 2]]
  {
    var s := [Point(7, 0.0, 0.0, 0), Point(7, 0.002, 0.0, 1000), Point(7, 0.001, 0.0, 2000)];
    assert Extend(s, 1, 0) == 3;
    NextSpec(s, 0);
    assert SqDistance(s[0], s[2]) < SqDistance(s[0], s[1]);
    assert Next(s, 0) == 2;
    NextSpec(s, 1);
    NextSpec(s, 2);
    assert !Far(s[0], s[2]);
    SkipThenCut(Cuts(s)[1]);
    assert Steps(s) == [2, 2, 3];
    assert Cuts(s) == [false, Cuts(s)[1], true];
  }

  lemma SkipThenCut(c1: bool)
    ensures IsWalk([2, 2, 3], [false, c1, true])
    ensures Split([2, 2, 3], [false, c1, true], 0, []) == [[0, 2]]
  {
    var nx, cut := [2, 2, 3], [false, c1, true];
    assert Split(nx, cut, 3, []) == [];
    assert Split(nx, cut, 2, [0]) == [[0] + [2]] + [];
    assert [0] + [2] == [0, 2];
    assert [] + [0] == [0];
    assert Split(nx, cut, 0, []) == Split(nx, cut, 2, [0]);
  }
}
