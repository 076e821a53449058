/**
 * TrajectoryFixer of trajectory_fixer.py (lines 100-175): the bounding-box test isvalid,
 * the deque-based segmentation fix_and_split and the driver fix_trajectories that keeps
 * only valid keys and numbers the pieces 0, 1, 2, ...
 */
module PyFixer {
  import opened SeqUtil
  import Geometry
  import opened PyData
  import opened Options

  /** The default arguments of TrajectoryFixer.__init__. */
  const DEFAULT_SPATIAL_LIMIT: real := 0.002
  const DEFAULT_TIME_LIMIT: int := 30000
  const DEFAULT_MIN_BOUNDARY: real := 0.01

  /** A float that may be infinite: isvalid starts its maxima at -inf and its minima at +inf. */
  datatype Ext = NegInf | Fin(v: real) | PosInf

  /** `max(a, x)` for a finite x. */
  function ExtMax(a: Ext, x: real): (r: Ext)
    ensures a != PosInf ==> r.Fin? && x <= r.v
    ensures a.Fin? ==> a.v <= r.v
  {
    match a
    case NegInf => Fin(x)
    case Fin(b) => Fin(Geometry.Max(b, x))
    case PosInf => PosInf
  }

  /** `min(a, x)` for a finite x. */
  function ExtMin(a: Ext, x: real): (r: Ext)
    ensures a != NegInf ==> r.Fin? && r.v <= x
    ensures a.Fin? ==> r.v <= a.v
  {
    match a
    case PosInf => Fin(x)
    case Fin(b) => Fin(Geometry.Min(b, x))
    case NegInf => NegInf
  }

  /**
   * `hi - lo > bound` in floating point: an infinite difference compares as its sign says,
   * and inf - inf is NaN, which compares false.
   */
  predicate GapExceeds(hi: Ext, lo: Ext, bound: real)
  {
    match (hi, lo)
    case (Fin(a), Fin(b)) => a - b > bound
    case (PosInf, PosInf) => false
    case (PosInf, _) => true
    case (Fin(_), NegInf) => true
    case _ => false
  }

  /** The empty list leaves the accumulators infinite, and the test fails. */
  lemma EmptyGapFails(bound: real)
    ensures !GapExceeds(NegInf, PosInf, bound)
  {
  }

  /** The list is non-empty and its bounding box is wider than bound in one direction. */
  predicate ValidSpan(s: seq<PyPoint>, bound: real)
  {
    |s| > 0 && Geometry.SpanExceeds(Lats(s), Lngs(s), bound)
  }

  /** A single point is never valid for a non-negative bound. */
  lemma OnePointNotValid(p: PyPoint, bound: real)
    requires bound >= 0.0
    ensures !ValidSpan([p], bound)
  {
    assert Lats([p]) == [p.lat] && Lngs([p]) == [p.lng];
    Geometry.SpreadOfOne(p.lat);
    Geometry.SpreadOfOne(p.lng);
  }

  /** The samples at the given input positions. */
  ghost function Pick(s: seq<PyPoint>, idx: seq<nat>): (r: seq<PyPoint>)
    requires forall k :: 0 <= k < |idx| ==> idx[k] < |s|
    ensures |r| == |idx| && forall k :: 0 <= k < |idx| ==> r[k] == s[idx[k]]
  {
    seq(|idx|, k requires 0 <= k < |idx| => s[idx[k]])
  }

  ghost predicate Below(idx: seq<nat>, n: nat)
  {
    forall k :: 0 <= k < |idx| ==> idx[k] < n
  }

  /** Increasing positions of a sorted input give a sorted subsequence. */
  lemma PickSorted(s: seq<PyPoint>, idx: seq<nat>)
    requires SortedByTime(s) && Increasing(idx) && Below(idx, |s|)
    ensures SortedByTime(Pick(s, idx))
  {
    var r := Pick(s, idx);
    forall i, j | 0 <= i < j < |r|
      ensures r[i].t <= r[j].t
    {
      assert idx[i] < idx[j];
    }
  }

  /** Every position of an earlier piece comes before every position of a later one. */
  ghost predicate Apart(segs: seq<seq<nat>>)
  {
    forall g, h, i, j :: 0 <= g < h < |segs| && 0 <= i < |segs[g]| && 0 <= j < |segs[h]| ==>
      segs[g][i] < segs[h][j]
  }

  /** Taking one more, later position extends the picked subsequence by that sample. */
  lemma PickGrow(s: seq<PyPoint>, idx: seq<nat>, ci: nat)
    requires Increasing(idx) && Below(idx, ci) && ci < |s|
    ensures Increasing(idx + [ci]) && Below(idx + [ci], ci + 1)
    ensures Pick(s, idx + [ci]) == Pick(s, idx) + [s[ci]]
  {
  }

  /** A piece taken at increasing positions from pos on, all below pos', can follow
    * increasing positions all below pos. */
  lemma ConcatBelow(xs: seq<nat>, idx: seq<nat>, pos: nat, pos': nat)
    requires Increasing(xs) && Below(xs, pos)
    requires |idx| > 0 && idx[0] == pos && Increasing(idx) && Below(idx, pos')
    ensures Increasing(xs + idx) && Below(xs + idx, pos')
  {
    assert forall k :: 0 <= k < |idx| ==> pos <= idx[k];
    IncreasingConcat(xs, idx);
  }

  /** Such a piece comes after every earlier piece whose positions are below pos. */
  lemma ApartGrow(segs: seq<seq<nat>>, idx: seq<nat>, pos: nat, pos': nat)
    requires Apart(segs) && forall g :: 0 <= g < |segs| ==> Below(segs[g], pos)
    requires |idx| > 0 && idx[0] == pos && Increasing(idx) && Below(idx, pos')
    ensures Apart(segs + [idx])
    ensures forall g :: 0 <= g < |segs| + 1 ==> Below((segs + [idx])[g], pos')
  {
    var ss := segs + [idx];
    forall g, h, i, j | 0 <= g < h < |ss| && 0 <= i < |ss[g]| && 0 <= j < |ss[h]|
      ensures ss[g][i] < ss[h][j]
    {
      assert ss[g] == segs[g];
      if h < |segs| {
        assert ss[h] == segs[h];
      } else {
        assert ss[h] == idx;
        assert segs[g][i] < pos <= idx[j];
      }
    }
  }

  /** Squared distances from the tail to the working list, by position. */
  function Dists(tail: PyPoint, work: seq<PyPoint>): (ds: seq<real>)
    ensures |ds| == |work| && forall m :: 0 <= m < |work| ==> ds[m] == SqDistance(tail, work[m])
  {
    seq(|work|, m requires 0 <= m < |work| => SqDistance(tail, work[m]))
  }

  class TrajectoryFixer {
    const spatialLimit: real
    const timeLimit: int
    const minBoundary: real

    constructor (spatialLimit: real := DEFAULT_SPATIAL_LIMIT, timeLimit: int := DEFAULT_TIME_LIMIT,
                 minBoundary: real := DEFAULT_MIN_BOUNDARY)
      ensures this.spatialLimit == spatialLimit && this.timeLimit == timeLimit
      ensures this.minBoundary == minBoundary
    {
      this.spatialLimit := spatialLimit;
      this.timeLimit := timeLimit;
      this.minBoundary := minBoundary;
    }

    /**
     * The test that takes l[0] into the working list (lines 131 and 142): strictly closer
     * than spatial_limit to the tail, strictly later, and less than time_limit later.
     */
    predicate Joins(tail: PyPoint, q: PyPoint)
    {
      Geometry.Below(SqDistance(q, tail), spatialLimit) && q.t > tail.t && q.t - tail.t < timeLimit
    }

    /** The test that keeps closest (line 145): its distance is not above spatial_limit. */
    predicate Near(tail: PyPoint, q: PyPoint)
    {
      Geometry.AtMost(SqDistance(tail, q), spatialLimit)
    }

    /**
     * Where the loops of lines 131 and 142 stop, on the run of the input from position m:
     * at the first point that does not join the tail, or at the end.
     */
    function GatherEnd(tail: PyPoint, s: seq<PyPoint>, m: nat): (e: nat)
      requires m <= |s|
      ensures m <= e <= |s| && (e == |s| || !Joins(tail, s[e]))
      ensures forall k :: m <= k < e ==> Joins(tail, s[k])
      decreases |s| - m
    {
      if m < |s| && Joins(tail, s[m]) then GatherEnd(tail, s, m + 1) else m
    }

    /**
     * Where the loop of line 139 stops when the working list is s[a..pos): at the first
     * point later than t, or when the list is empty.
     */
    function PopEnd(s: seq<PyPoint>, a: nat, pos: nat, t: int): (e: nat)
      requires a <= pos <= |s|
      ensures a <= e <= pos && (e == pos || s[e].t > t)
      ensures forall k :: a <= k < e ==> s[k].t <= t
      decreases pos - a
    {
      if a < pos && s[a].t <= t then PopEnd(s, a + 1, pos, t) else a
    }

    /** On sorted input the loop of line 139 pops closest, at s[a + c], and every point before it. */
    lemma PopPastClosest(s: seq<PyPoint>, a: nat, pos: nat, c: nat)
      requires SortedByTime(s) && a + c < pos <= |s|
      ensures a + c < PopEnd(s, a, pos, s[a + c].t)
    {
    }

    /**
     * The inner loop of lines 134-148 as a function: from the piece nt, the working list
     * s[a..pos) and l == s[pos..), the piece and the position of l when the loop ends.
     */
    function GrowFrom(s: seq<PyPoint>, nt: seq<PyPoint>, a: nat, pos: nat): (r: (seq<PyPoint>, nat))
      requires SortedByTime(s) && nt != [] && a <= pos <= |s|
      ensures pos <= r.1 <= |s|
      decreases |s| - a
    {
      if a == pos then (nt, pos)
      else
        var tail := nt[|nt| - 1];
        var c := Geometry.FirstMin(Dists(tail, s[a..pos]));
        var closest := s[a + c];
        PopPastClosest(s, a, pos, c);
        var a' := PopEnd(s, a, pos, closest.t);
        var pos' := GatherEnd(tail, s, pos);
        if !Near(tail, closest) then (nt, pos')
        else GrowFrom(s, nt + [closest], a', pos')
    }

    /** One turn of the inner loop, unfolded: the closest point is appended, or the piece ends. */
    lemma {:induction false} GrowFromStep(s: seq<PyPoint>, nt: seq<PyPoint>, a: nat, pos: nat, c: nat,
                       tail: PyPoint, closest: PyPoint, a': nat, pos': nat)
      requires SortedByTime(s) && nt != [] && a < pos <= |s| && tail == nt[|nt| - 1]
      requires c == Geometry.FirstMin(Dists(tail, s[a..pos])) && closest == s[a + c]
      requires a' == PopEnd(s, a, pos, closest.t) && pos' == GatherEnd(tail, s, pos)
      ensures a' <= pos' && GrowFrom(s, nt, a, pos) ==
        if !Near(tail, closest) then (nt, pos') else GrowFrom(s, nt + [closest], a', pos')
    {
      PopPastClosest(s, a, pos, c);
      GrowFromUnfold(s, nt, a, pos);
    }

    lemma {:induction false} GrowFromUnfold(s: seq<PyPoint>, nt: seq<PyPoint>, a: nat, pos: nat)
      requires SortedByTime(s) && nt != [] && a < pos <= |s|
      ensures var tail := nt[|nt| - 1];
        var c := Geometry.FirstMin(Dists(tail, s[a..pos]));
        a + c < PopEnd(s, a, pos, s[a + c].t) &&
        GrowFrom(s, nt, a, pos) ==
          if !Near(tail, s[a + c]) then (nt, GatherEnd(tail, s, pos))
          else GrowFrom(s, nt + [s[a + c]], PopEnd(s, a, pos, s[a + c].t), GatherEnd(tail, s, pos))
    {
      PopPastClosest(s, a, pos, Geometry.FirstMin(Dists(nt[|nt| - 1], s[a..pos])));
    }

    /** The piece the outer loop of lines 127-148 grows from l[0] == s[pos], and where l is then. */
    function GrowAt(s: seq<PyPoint>, pos: nat): (r: (seq<PyPoint>, nat))
      requires SortedByTime(s) && pos < |s|
      ensures pos < r.1 <= |s|
    {
      GrowFrom(s, [s[pos]], pos + 1, GatherEnd(s[pos], s, pos + 1))
    }

    /** fix_and_split on s from l == s[pos..): the valid pieces, in the order they are grown. */
    function Pieces(s: seq<PyPoint>, pos: nat): seq<seq<PyPoint>>
      requires SortedByTime(s) && pos <= |s|
      decreases |s| - pos
    {
      if pos == |s| then []
      else
        var r := GrowAt(s, pos);
        (if ValidSpan(r.0, minBoundary) then [r.0] else []) + Pieces(s, r.1)
    }

    /** The pieces of fix_trajectories: those of each key of keyList in turn. */
    function AllPieces(lists: map<string, seq<PyPoint>>, keyList: seq<string>): seq<seq<PyPoint>>
      requires forall k :: k in keyList ==> k in lists && SortedByTime(lists[k])
    {
      if keyList == [] then []
      else
        var last := keyList[|keyList| - 1];
        AllPieces(lists, keyList[..|keyList| - 1]) + Pieces(lists[last], 0)
    }

    /** Some point of nt took x into the working list. */
    ghost predicate AnchoredIn(nt: seq<PyPoint>, x: PyPoint)
    {
      exists j :: 0 <= j < |nt| && Joins(nt[j], x)
    }

    /** Each point after the first of a piece joined the working list behind an earlier one. */
    ghost predicate Anchored(nt: seq<PyPoint>)
    {
      forall k :: 0 < k < |nt| ==> AnchoredIn(nt[..k], nt[k])
    }

    /** Consecutive points of a piece are at most spatial_limit apart. */
    ghost predicate Chained(nt: seq<PyPoint>)
    {
      forall k, k' :: 0 <= k && k' == k + 1 && k' < |nt| ==> Near(nt[k], nt[k'])
    }

    /** What fix_and_split promises of one returned piece taken at positions idx of s. */
    ghost predicate Piece(s: seq<PyPoint>, x: seq<PyPoint>, idx: seq<nat>)
    {
      |idx| > 0 && Increasing(idx) && Below(idx, |s|) && x == Pick(s, idx) &&
      Chained(x) && Anchored(x) && ValidSpan(x, minBoundary)
    }

    /** Anchors survive appending a point to the piece. */
    lemma AnchoredGrow(nt: seq<PyPoint>, c: PyPoint)
      requires Anchored(nt) && AnchoredIn(nt, c)
      ensures Anchored(nt + [c])
    {
      var nt' := nt + [c];
      forall k | 0 < k < |nt'|
        ensures AnchoredIn(nt'[..k], nt'[k])
      {
        if k < |nt| {
          assert nt'[..k] == nt[..k];
        } else {
          assert nt'[..k] == nt;
        }
      }
    }

    lemma ChainedGrow(nt: seq<PyPoint>, c: PyPoint)
      requires Chained(nt) && nt != [] && Near(nt[|nt| - 1], c)
      ensures Chained(nt + [c])
    {
      var nt' := nt + [c];
      forall k, k' | 0 <= k && k' == k + 1 && k' < |nt'|
        ensures Near(nt'[k], nt'[k'])
      {
        if k' < |nt| {
          assert nt'[k] == nt[k] && nt'[k'] == nt[k'];
        }
      }
    }

    lemma AnchoredInGrow(nt: seq<PyPoint>, c: PyPoint, x: PyPoint)
      requires AnchoredIn(nt, x)
      ensures AnchoredIn(nt + [c], x)
    {
      var j :| 0 <= j < |nt| && Joins(nt[j], x);
      assert (nt + [c])[j] == nt[j];
    }

    /**
     * isvalid: fold max and min of latitude and longitude over the list from the infinite
     * start values, then compare the two spans against min_boundary.
     */
    method IsValid(traj: seq<PyPoint>) returns (r: bool)
      ensures r == ValidSpan(traj, minBoundary)
    {
      var lats, lngs := Lats(traj), Lngs(traj);
      var maxLat, minLat, maxLng, minLng := NegInf, PosInf, NegInf, PosInf;
      for i := 0 to |traj|
        invariant i == 0 ==> maxLat == NegInf && minLat == PosInf && maxLng == NegInf && minLng == PosInf
        invariant i > 0 ==> maxLat == Fin(Geometry.MaxOf(lats[..i])) && minLat == Fin(Geometry.MinOf(lats[..i]))
        invariant i > 0 ==> maxLng == Fin(Geometry.MaxOf(lngs[..i])) && minLng == Fin(Geometry.MinOf(lngs[..i]))
      {
        var p := traj[i];
        if i > 0 {
          Geometry.PrefixStep(lats, i);
          Geometry.PrefixStep(lngs, i);
        } else {
          assert lats[..1] == [p.lat] && lngs[..1] == [p.lng];
        }
        maxLat, minLat := ExtMax(maxLat, p.lat), ExtMin(minLat, p.lat);
        maxLng, minLng := ExtMax(maxLng, p.lng), ExtMin(minLng, p.lng);
      }
      assert |traj| > 0 ==> lats[..|traj|] == lats && lngs[..|traj|] == lngs;
      r := GapExceeds(maxLat, minLat, minBoundary) || GapExceeds(maxLng, minLng, minBoundary);
    }

    /**
     * The loops of lines 131 and 142: move l[0] to the back of the working list while it
     * passes Joins against the tail. The working list is the run s[a..pos) of the input
     * and l the rest s[pos..).
     */
    method Gather(tail: PyPoint, work: seq<PyPoint>, l: seq<PyPoint>,
                  ghost s: seq<PyPoint>, ghost a: nat, ghost pos: nat)
      returns (work': seq<PyPoint>, l': seq<PyPoint>, ghost pos': nat)
      requires a <= pos <= |s| && l == s[pos..] && work == s[a..pos]
      ensures pos <= pos' <= |s| && l' == s[pos'..] && work' == s[a..pos']
      ensures forall m :: pos <= m < pos' ==> Joins(tail, s[m])
      ensures l' == [] || !Joins(tail, l'[0])
      ensures pos' == GatherEnd(tail, s, pos)
    {
      work', l', pos' := work, l, pos;
      while l' != [] && Joins(tail, l'[0])
        invariant pos <= pos' <= |s| && l' == s[pos'..] && work' == s[a..pos']
        invariant forall m :: pos <= m < pos' ==> Joins(tail, s[m])
        invariant GatherEnd(tail, s, pos') == GatherEnd(tail, s, pos)
        decreases |l'|
      {
        work', l' := work' + [l'[0]], l'[1..];
        pos' := pos' + 1;
      }
    }

    /**
     * Line 139: drop working-list points from the front while their timestamp is at most
     * closest's. On sorted input this drops closest itself (position c) and all before it.
     */
    method PopThrough(work: seq<PyPoint>, closestT: int,
                      ghost s: seq<PyPoint>, ghost a: nat, ghost pos: nat, ghost c: nat)
      returns (work': seq<PyPoint>, ghost a': nat)
      requires SortedByTime(s) && a <= pos <= |s| && work == s[a..pos]
      requires c < |work| && closestT == work[c].t
      ensures a + c < a' <= pos && work' == s[a'..pos]
      ensures a' == PopEnd(s, a, pos, closestT)
    {
      work', a' := work, a;
      while work' != [] && work'[0].t <= closestT
        invariant a <= a' <= pos && work' == s[a'..pos]
        invariant PopEnd(s, a', pos, closestT) == PopEnd(s, a, pos, closestT)
        decreases |work'|
      {
        work', a' := work'[1..], a' + 1;
      }
      PopPastClosest(s, a, pos, c);
    }

    /**
     * One turn of the outer loop of fix_and_split (lines 128-148): take l[0] as the first
     * point, then repeatedly append the closest working-list point while it is near enough.
     */
    method Grow(s: seq<PyPoint>, l: seq<PyPoint>, ghost pos: nat)
      returns (nt: seq<PyPoint>, l': seq<PyPoint>, ghost idx: seq<nat>, ghost pos': nat)
      requires SortedByTime(s) && pos < |s| && l == s[pos..]
      ensures pos < pos' <= |s| && l' == s[pos'..]
      ensures |idx| > 0 && idx[0] == pos && Increasing(idx) && Below(idx, pos') && nt == Pick(s, idx)
      ensures Chained(nt) && Anchored(nt)
      ensures (nt, pos') == GrowAt(s, pos)
    {
      nt, idx := [l[0]], [pos];
      var work: seq<PyPoint> := [];
      ghost var a: nat := pos + 1;
      work, l', pos' := Gather(nt[|nt| - 1], work, l[1..], s, a, a);
      while work != []
        invariant Growing(s, nt, idx, a, pos') && idx[0] == pos && l' == s[pos'..] && work == s[a..pos']
        invariant GrowFrom(s, nt, a, pos') == GrowAt(s, pos)
        decreases |l'| + |work|
      {
        var stop;
        nt, idx, work, l', a, pos', stop := Advance(nt, idx, work, l', s, a, pos');
        if stop {
          return;
        }
      }
    }

    /**
     * What holds while a piece grows: nt was taken at the increasing positions idx, all
     * before the working list s[a..pos), and every working-list point joined behind a
     * point of nt.
     */
    ghost predicate Growing(s: seq<PyPoint>, nt: seq<PyPoint>, idx: seq<nat>, a: nat, pos: nat)
    {
      a <= pos <= |s| && (forall m :: a <= m < pos ==> AnchoredIn(nt, s[m])) &&
      |idx| == |nt| > 0 && Increasing(idx) && Below(idx, a) && nt == Pick(s, idx) &&
      Chained(nt) && Anchored(nt)
    }

    /** Popping the front of the working list and refilling it behind the tail keeps the invariant. */
    lemma KeepGrowing(s: seq<PyPoint>, nt: seq<PyPoint>, idx: seq<nat>, a: nat, pos: nat, a': nat, pos': nat)
      requires Growing(s, nt, idx, a, pos) && a <= a' <= pos <= pos' <= |s|
      requires forall m :: pos <= m < pos' ==> Joins(nt[|nt| - 1], s[m])
      ensures Growing(s, nt, idx, a', pos')
    {
      forall m | a' <= m < pos'
        ensures AnchoredIn(nt, s[m])
      {
        if pos <= m {
          assert Joins(nt[|nt| - 1], s[m]);
        }
      }
    }

    /** Appending closest, at s[a + c], and refilling behind the old tail keeps the invariant. */
    lemma AppendClosest(s: seq<PyPoint>, nt: seq<PyPoint>, idx: seq<nat>, a: nat, pos: nat, c: nat,
                        a': nat, pos': nat)
      requires Growing(s, nt, idx, a, pos) && a + c < a' <= pos <= pos' <= |s|
      requires forall m :: pos <= m < pos' ==> Joins(nt[|nt| - 1], s[m])
      requires Near(nt[|nt| - 1], s[a + c])
      ensures Growing(s, nt + [s[a + c]], idx + [a + c], a', pos')
    {
      var closest := s[a + c];
      KeepGrowing(s, nt, idx, a, pos, a', pos');
      assert AnchoredIn(nt, closest);
      forall m | a' <= m < pos'
        ensures AnchoredIn(nt + [closest], s[m])
      {
        AnchoredInGrow(nt, closest, s[m]);
      }
      AnchoredGrow(nt, closest);
      ChainedGrow(nt, closest);
      PickGrow(s, idx, a + c);
    }

    /**
     * One turn of the inner loop (lines 134-148): closest is the first working-list point
     * nearest to the tail; the points up to it are dropped, l is drained into the working
     * list against the same tail, and closest is appended unless it is too far, which
     * ends the piece.
     */
    method Advance(nt: seq<PyPoint>, ghost idx: seq<nat>, work: seq<PyPoint>, l: seq<PyPoint>,
                   ghost s: seq<PyPoint>, ghost a: nat, ghost pos: nat)
      returns (nt': seq<PyPoint>, ghost idx': seq<nat>, work': seq<PyPoint>, l': seq<PyPoint>,
               ghost a': nat, ghost pos': nat, stop: bool)
      requires SortedByTime(s) && Growing(s, nt, idx, a, pos)
      requires l == s[pos..] && work == s[a..pos] && work != []
      ensures var closest := work[Geometry.FirstMin(Dists(nt[|nt| - 1], work))];
        (stop <==> !Near(nt[|nt| - 1], closest)) &&
        nt' == (if stop then nt else nt + [closest])
      ensures Growing(s, nt', idx', a', pos') && idx'[0] == idx[0]
      ensures a < a' && pos <= pos' && l' == s[pos'..] && work' == s[a'..pos']
      ensures GrowFrom(s, nt, a, pos) == if stop then (nt', pos') else GrowFrom(s, nt', a', pos')
    {
      var tail := nt[|nt| - 1];
      var c := Geometry.FirstMin(Dists(tail, work));
      var closest := work[c];
      assert closest == s[a + c];
      work', a' := PopThrough(work, closest.t, s, a, pos, c);
      work', l', pos' := Gather(tail, work', l, s, a', pos);
      GrowFromStep(s, nt, a, pos, c, tail, closest, a', pos');
      if !Near(tail, closest) {
        stop := true;
        nt', idx' := nt, idx;
        KeepGrowing(s, nt, idx, a, pos, a', pos');
        return;
      }
      stop := false;
      AppendClosest(s, nt, idx, a, pos, c, a', pos');
      nt', idx' := nt + [closest], idx + [a + c];
    }

    /**
     * fix_and_split: cut the list into pieces and keep those that pass isvalid. On a
     * time-sorted list the pieces are subsequences taken at increasing positions, one
     * after the other, so no point is in two pieces.
     */
    method FixAndSplit(trajectory: seq<PyPoint>) returns (fixed: seq<seq<PyPoint>>, ghost segs: seq<seq<nat>>)
      requires SortedByTime(trajectory)
      ensures |segs| == |fixed| && Increasing(Flatten(segs)) && Below(Flatten(segs), |trajectory|)
      ensures forall g :: 0 <= g < |fixed| ==> Piece(trajectory, fixed[g], segs[g])
      ensures forall g :: 0 <= g < |fixed| ==> SortedByTime(fixed[g])
      ensures Apart(segs)
      ensures fixed == Pieces(trajectory, 0)
    {
      var l := trajectory;
      ghost var pos := 0;
      fixed, segs := [], [];
      while l != []
        invariant pos <= |trajectory| && l == trajectory[pos..]
        invariant SplitSoFar(trajectory, pos, fixed, segs)
        invariant fixed + Pieces(trajectory, pos) == Pieces(trajectory, 0)
        decreases |l|
      {
        ghost var fixed0, pos0 := fixed, pos;
        var nt;
        nt, l, pos, fixed, segs := NextPiece(trajectory, l, pos, fixed, segs);
        PiecesStep(trajectory, pos0, fixed0, nt, pos, fixed);
      }
      PiecesSorted(trajectory, fixed, segs);
    }

    /** Pieces taken at increasing positions of a sorted list are sorted. */
    lemma PiecesSorted(s: seq<PyPoint>, fixed: seq<seq<PyPoint>>, segs: seq<seq<nat>>)
      requires SortedByTime(s) && |segs| == |fixed|
      requires forall g :: 0 <= g < |fixed| ==> Piece(s, fixed[g], segs[g])
      ensures forall g :: 0 <= g < |fixed| ==> SortedByTime(fixed[g])
    {
      forall g | 0 <= g < |fixed|
        ensures SortedByTime(fixed[g])
      {
        PickSorted(s, segs[g]);
      }
    }

    /** One turn of the outer loop moves the next piece, if valid, from the pieces still to come to fixed. */
    lemma {:induction false} PiecesStep(s: seq<PyPoint>, pos: nat, fixed: seq<seq<PyPoint>>,
                     nt: seq<PyPoint>, pos': nat, fixed': seq<seq<PyPoint>>)
      requires SortedByTime(s) && pos < |s| && (nt, pos') == GrowAt(s, pos)
      requires fixed' == if ValidSpan(nt, minBoundary) then fixed + [nt] else fixed
      ensures fixed + Pieces(s, pos) == fixed' + Pieces(s, pos')
    {
    }

    /** What holds of the pieces kept once the points before pos have left l. */
    ghost predicate SplitSoFar(s: seq<PyPoint>, pos: nat, fixed: seq<seq<PyPoint>>, segs: seq<seq<nat>>)
    {
      |segs| == |fixed| && Increasing(Flatten(segs)) && Below(Flatten(segs), pos) &&
      (forall g :: 0 <= g < |fixed| ==> Piece(s, fixed[g], segs[g])) &&
      (forall g :: 0 <= g < |segs| ==> Below(segs[g], pos)) && Apart(segs)
    }

    /**
     * One turn of the outer loop (lines 127-150): grow a new trajectory from the front of
     * l and keep it if it passes isvalid.
     */
    method NextPiece(s: seq<PyPoint>, l: seq<PyPoint>, ghost pos: nat,
                     fixed: seq<seq<PyPoint>>, ghost segs: seq<seq<nat>>)
      returns (nt: seq<PyPoint>, l': seq<PyPoint>, ghost pos': nat,
               fixed': seq<seq<PyPoint>>, ghost segs': seq<seq<nat>>)
      requires SortedByTime(s) && pos < |s| && l == s[pos..] && SplitSoFar(s, pos, fixed, segs)
      ensures pos < pos' <= |s| && l' == s[pos'..] && SplitSoFar(s, pos', fixed', segs')
      ensures (nt, pos') == GrowAt(s, pos)
      ensures fixed' == if ValidSpan(nt, minBoundary) then fixed + [nt] else fixed
    {
      ghost var idx;
      nt, l', idx, pos' := Grow(s, l, pos);
      var ok := IsValid(nt);
      fixed', segs' := fixed, segs;
      if ok {
        FlattenAppend(segs, idx);
        ConcatBelow(Flatten(segs), idx, pos, pos');
        ApartGrow(segs, idx, pos, pos');
        fixed', segs' := fixed + [nt], segs + [idx];
      }
    }

    /** The key_list comprehension of line 158: the keys, in dict order, whose list passes isvalid. */
    method SelectKeys(d: TrajectoryDict) returns (keyList: seq<string>)
      requires d.Valid()
      ensures keyList == ValidKeys(d.keys, d.lists, minBoundary)
    {
      keyList := [];
      for i := 0 to |d.keys|
        invariant keyList == ValidKeys(d.keys[..i], d.lists, minBoundary)
      {
        assert d.keys[..i + 1][..i] == d.keys[..i];
        var ok := IsValid(d.lists[d.keys[i]]);
        if ok {
          keyList := keyList + [d.keys[i]];
        }
      }
      assert d.keys[..|d.keys|] == d.keys;
    }

    /** Piece n comes from key keyList[from[n]], one of the first i keys, taken at the
      * positions idxs[n] of its list. */
    ghost predicate FromKeys(lists: map<string, seq<PyPoint>>, keyList: seq<string>, i: nat,
                             out: map<nat, seq<PyPoint>>, from: seq<nat>, idxs: seq<seq<nat>>)
      requires Numbered(out, from, idxs)
    {
      forall n :: 0 <= n < |from| ==>
        from[n] < i && from[n] < |keyList| && keyList[from[n]] in lists &&
        Piece(lists[keyList[from[n]]], out[n], idxs[n])
    }

    /**
     * What the numbered pieces out[0..|from|) satisfy once the first i keys of keyList
     * are done: they come from those keys, the keys come in key_list order, and pieces of
     * one key in list order.
     */
    ghost predicate Collected(lists: map<string, seq<PyPoint>>, keyList: seq<string>, i: nat,
                              out: map<nat, seq<PyPoint>>, from: seq<nat>, idxs: seq<seq<nat>>)
    {
      Numbered(out, from, idxs) && FromKeys(lists, keyList, i, out, from, idxs) &&
      NonDecreasing(from) && KeyPiecesApart(from, idxs)
    }

    /**
     * The inner loop of lines 170-171: each piece goes under the key len(new_trajectories),
     * the next unused number.
     */
    method AddPieces(out: map<nat, seq<PyPoint>>, ghost from: seq<nat>, ghost idxs: seq<seq<nat>>,
                     pieces: seq<seq<PyPoint>>, ghost segs: seq<seq<nat>>, ghost i: nat)
      returns (out': map<nat, seq<PyPoint>>, ghost from': seq<nat>, ghost idxs': seq<seq<nat>>)
      requires Numbered(out, from, idxs) && |segs| == |pieces|
      ensures Numbered(out', from', idxs') && |from'| == |from| + |pieces|
      ensures Extended(from, idxs, segs, i, from', idxs')
      ensures forall n :: 0 <= n < |from| ==> out'[n] == out[n]
      ensures forall n :: |from| <= n < |from'| ==> out'[n] == pieces[n - |from|]
    {
      out', from', idxs' := out, from, idxs;
      for j := 0 to |pieces|
        invariant Numbered(out', from', idxs') && |from'| == |from| + j
        invariant Extended(from, idxs, segs[..j], i, from', idxs')
        invariant forall n :: 0 <= n < |from| ==> out'[n] == out[n]
        invariant forall n :: |from| <= n < |from'| ==> out'[n] == pieces[n - |from|]
      {
        out' := out'[|out'| := pieces[j]];
        from', idxs' := from' + [i], idxs' + [segs[j]];
      }
      assert segs[..|pieces|] == segs;
    }

    lemma CollectFromKeys(lists: map<string, seq<PyPoint>>, keyList: seq<string>, i: nat,
                          out: map<nat, seq<PyPoint>>, from: seq<nat>, idxs: seq<seq<nat>>,
                          pieces: seq<seq<PyPoint>>, segs: seq<seq<nat>>,
                          out': map<nat, seq<PyPoint>>, from': seq<nat>, idxs': seq<seq<nat>>)
      requires Numbered(out, from, idxs) && FromKeys(lists, keyList, i, out, from, idxs)
      requires i < |keyList| && keyList[i] in lists && |segs| == |pieces|
      requires forall g :: 0 <= g < |pieces| ==> Piece(lists[keyList[i]], pieces[g], segs[g])
      requires Numbered(out', from', idxs') && Extended(from, idxs, segs, i, from', idxs')
      requires forall n :: 0 <= n < |from| ==> out'[n] == out[n]
      requires forall n :: |from| <= n < |from'| ==> out'[n] == pieces[n - |from|]
      ensures FromKeys(lists, keyList, i + 1, out', from', idxs')
    {
      forall n | 0 <= n < |from'|
        ensures from'[n] < i + 1 && from'[n] < |keyList| && keyList[from'[n]] in lists
        ensures Piece(lists[keyList[from'[n]]], out'[n], idxs'[n])
      {
        if n >= |from| {
          var g := n - |from|;
          assert out'[n] == pieces[g] && idxs'[n] == segs[g] && from'[n] == i;
        }
      }
    }

    /**
     * fix_trajectories: sort every list by timestamp, keep the keys whose whole list
     * passes isvalid, and number the pieces fix_and_split returns for them 0, 1, 2, ...
     * in key order. from[n] is the position in key_list of the key piece n comes from,
     * idxs[n] the positions of its points in that key's sorted list. With no key left,
     * the progress bar of lines 160-161 is built with max_value 0 and its first draw
     * divides by it (line 48): ZeroDivisionError, after the lists were sorted. The
     * result is then None.
     */
    method FixTrajectories(d: TrajectoryDict)
      returns (out: Option<map<nat, seq<PyPoint>>>, ghost from: seq<nat>, ghost idxs: seq<seq<nat>>)
      requires d.Valid()
      modifies d
      ensures d.Valid() && d.keys == old(d.keys)
      ensures forall k :: k in d.lists <==> k in old(d.lists)
      ensures forall k :: k in d.lists ==> d.lists[k] == SortByTime(old(d.lists)[k])
      ensures forall k :: k in d.lists ==> SortedByTime(d.lists[k])
      ensures var keyList := ValidKeys(d.keys, d.lists, minBoundary);
        (out == None <==> keyList == []) &&
        (out.Some? ==>
          Collected(d.lists, keyList, |keyList|, out.value, from, idxs) &&
          NumberedAs(out.value, AllPieces(d.lists, keyList)))
    {
      ghost var m0 := d.lists;
      SortLists(d);
      forall k | k in d.lists
        ensures SortedByTime(d.lists[k])
      {
        SortByTimeFacts(m0[k]);
      }
      var keyList := SelectKeys(d);
      ValidKeysExact(d.keys, d.lists, minBoundary);
      if |keyList| == 0 {
        return None, [], [];
      }
      var result;
      result, from, idxs := SplitKeys(d.lists, keyList);
      out := Some(result);
    }

    /** The loop of lines 165-171 over key_list, on the already sorted lists. */
    method SplitKeys(lists: map<string, seq<PyPoint>>, keyList: seq<string>)
      returns (out: map<nat, seq<PyPoint>>, ghost from: seq<nat>, ghost idxs: seq<seq<nat>>)
      requires forall k :: k in keyList ==> k in lists && SortedByTime(lists[k])
      ensures Collected(lists, keyList, |keyList|, out, from, idxs)
      ensures NumberedAs(out, AllPieces(lists, keyList))
    {
      out, from, idxs := map[], [], [];
      for i := 0 to |keyList|
        invariant Collected(lists, keyList, i, out, from, idxs)
        invariant NumberedAs(out, AllPieces(lists, keyList[..i])) && |from| == |AllPieces(lists, keyList[..i])|
      {
        out, from, idxs := SplitKey(lists, keyList, i, out, from, idxs);
      }
      assert keyList[..|keyList|] == keyList;
    }

    /** One turn of the loop of lines 165-171: number the pieces of key_list[i] after the others. */
    method SplitKey(lists: map<string, seq<PyPoint>>, keyList: seq<string>, i: nat,
                    out: map<nat, seq<PyPoint>>, ghost from: seq<nat>, ghost idxs: seq<seq<nat>>)
      returns (out': map<nat, seq<PyPoint>>, ghost from': seq<nat>, ghost idxs': seq<seq<nat>>)
      requires forall k :: k in keyList ==> k in lists && SortedByTime(lists[k])
      requires i < |keyList| && Collected(lists, keyList, i, out, from, idxs)
      requires NumberedAs(out, AllPieces(lists, keyList[..i])) && |from| == |AllPieces(lists, keyList[..i])|
      ensures Collected(lists, keyList, i + 1, out', from', idxs')
      ensures NumberedAs(out', AllPieces(lists, keyList[..i + 1]))
      ensures |from'| == |AllPieces(lists, keyList[..i + 1])|
    {
      assert keyList[..i + 1][..i] == keyList[..i];
      ghost var done := AllPieces(lists, keyList[..i]);
      var pieces;
      ghost var segs;
      pieces, segs := FixAndSplit(lists[keyList[i]]);
      out', from', idxs' := AddPieces(out, from, idxs, pieces, segs, i);
      CollectFromKeys(lists, keyList, i, out, from, idxs, pieces, segs, out', from', idxs');
      ExtendedOrder(from, idxs, segs, i, from', idxs');
      NumberedAppend(out, done, from, out', from', idxs', pieces);
    }
  }

  /** out maps 0, 1, 2, ... to the pieces, in order, and holds nothing else. */
  ghost predicate NumberedAs(out: map<nat, seq<PyPoint>>, pieces: seq<seq<PyPoint>>)
  {
    (forall n: nat :: n in out <==> n < |pieces|) && forall n: nat :: n < |pieces| ==> out[n] == pieces[n]
  }

  /** Numbering the pieces of one more key after those already numbered. */
  lemma NumberedAppend(out: map<nat, seq<PyPoint>>, done: seq<seq<PyPoint>>, from: seq<nat>,
                       out': map<nat, seq<PyPoint>>, from': seq<nat>, idxs': seq<seq<nat>>,
                       pieces: seq<seq<PyPoint>>)
    requires NumberedAs(out, done) && |from| == |done|
    requires Numbered(out', from', idxs') && |from'| == |from| + |pieces|
    requires forall n :: 0 <= n < |from| ==> out'[n] == out[n]
    requires forall n :: |from| <= n < |from'| ==> out'[n] == pieces[n - |from|]
    ensures NumberedAs(out', done + pieces) && |from'| == |done + pieces|
  {
  }

  /** out holds the pieces under the numbers 0 .. |from|-1 and nothing else. */
  ghost predicate Numbered(out: map<nat, seq<PyPoint>>, from: seq<nat>, idxs: seq<seq<nat>>)
  {
    (forall n: nat :: n in out <==> n < |from|) && |out| == |from| == |idxs|
  }

  ghost predicate NonDecreasing(from: seq<nat>)
  {
    forall n, n' :: 0 <= n < n' < |from| ==> from[n] <= from[n']
  }

  /** Two pieces of one key: the earlier one's positions all come before the later one's. */
  ghost predicate KeyPiecesApart(from: seq<nat>, idxs: seq<seq<nat>>)
    requires |from| == |idxs|
  {
    forall n, n', a, b ::
      (0 <= n < n' < |from| && from[n] == from[n'] && 0 <= a < |idxs[n]| && 0 <= b < |idxs[n']|) ==>
      idxs[n][a] < idxs[n'][b]
  }

  /** from' and idxs' are from and idxs followed by the pieces segs of key i. */
  ghost predicate Extended(from: seq<nat>, idxs: seq<seq<nat>>, segs: seq<seq<nat>>, i: nat,
                           from': seq<nat>, idxs': seq<seq<nat>>)
  {
    |from| == |idxs| && |from'| == |idxs'| == |from| + |segs| &&
    (forall n :: 0 <= n < |from| ==> from'[n] == from[n] && idxs'[n] == idxs[n]) &&
    (forall n :: |from| <= n < |from'| ==> from'[n] == i && idxs'[n] == segs[n - |from|])
  }

  /** Appending the pieces of key i, which is after every earlier key, keeps both orders. */
  lemma ExtendedOrder(from: seq<nat>, idxs: seq<seq<nat>>, segs: seq<seq<nat>>, i: nat,
                      from': seq<nat>, idxs': seq<seq<nat>>)
    requires Extended(from, idxs, segs, i, from', idxs')
    requires NonDecreasing(from) && KeyPiecesApart(from, idxs) && Apart(segs)
    requires forall n :: 0 <= n < |from| ==> from[n] < i
    ensures NonDecreasing(from') && KeyPiecesApart(from', idxs')
  {
    var base := |from|;
    forall n, n', a, b |
      (0 <= n < n' < |from'| && from'[n] == from'[n'] && 0 <= a < |idxs'[n]| && 0 <= b < |idxs'[n']|)
      ensures idxs'[n][a] < idxs'[n'][b]
    {
      if n' < base {
        assert from[n] == from[n'];
      } else if n >= base {
        assert idxs'[n] == segs[n - base] && idxs'[n'] == segs[n' - base];
      }
    }
  }

  /** The keys of ks, in order, whose list passes the span test. */
  function ValidKeys(ks: seq<string>, lists: map<string, seq<PyPoint>>, bound: real): (r: seq<string>)
    requires forall k :: k in ks ==> k in lists
    ensures forall k :: k in r ==> k in ks
  {
    if ks == [] then []
    else
      var last := ks[|ks| - 1];
      ValidKeys(ks[..|ks| - 1], lists, bound) + (if ValidSpan(lists[last], bound) then [last] else [])
  }

  /** A key is selected exactly when it is a key and its list passes the test. */
  lemma {:induction false} ValidKeysExact(ks: seq<string>, lists: map<string, seq<PyPoint>>, bound: real)
    requires forall k :: k in ks ==> k in lists
    ensures forall k :: k in ValidKeys(ks, lists, bound) <==> k in ks && ValidSpan(lists[k], bound)
    decreases |ks|
  {
    if ks != [] {
      var init := ks[..|ks| - 1];
      assert ks == init + [ks[|ks| - 1]];
      ValidKeysExact(init, lists, bound);
    }
  }

  /** The test of line 158 runs on the sorted lists; sorting does not change its answer. */
  lemma ValidSpanSorted(s: seq<PyPoint>, bound: real)
    ensures ValidSpan(SortByTime(s), bound) == ValidSpan(s, bound)
  {
    var r := SortByTime(s);
    SortByTimeFacts(s);
    assert |r| == |s| by {
      assert |multiset(r)| == |multiset(s)|;
    }
    if |s| > 0 {
      var lr, ls, gr, gs := Lats(r), Lats(s), Lngs(r), Lngs(s);
      forall i | 0 <= i < |r|
        ensures lr[i] in ls && gr[i] in gs
      {
        assert r[i] in multiset(s);
        var j :| 0 <= j < |s| && s[j] == r[i];
        assert ls[j] == lr[i] && gs[j] == gr[i];
      }
      forall j | 0 <= j < |s|
        ensures ls[j] in lr && gs[j] in gr
      {
        assert s[j] in multiset(r);
        var i :| 0 <= i < |r| && r[i] == s[j];
        assert lr[i] == ls[j] && gr[i] == gs[j];
      }
      Geometry.SpreadSameValues(lr, ls);
      Geometry.SpreadSameValues(gr, gs);
    }
  }
}
