/**
 * The output side of trajectory_fixer_c.c (lines 215-235): a writer that prints the
 * header line once and then one row per point, tagging every row of a trajectory with
 * the writer's running trajectory counter.
 *
 * The output file is the sequence `rows`; a row is kept as its fields, not as text.
 */
module CWriter {
  import opened SeqUtil
  import opened CTrajectory

  /** One line of the output file: the header, or driver_id;id;lat;lng;timestamp. */
  datatype OutRow = Header | Record(driverId: int, id: int, lat: real, lng: real, t: int)

  /** The rows writeTrajectory prints for the samples s under trajectory id `id`. */
  function RowsOf(s: seq<Point>, id: int): (rows: seq<OutRow>)
    ensures |rows| == |s|
    ensures forall i :: 0 <= i < |s| ==>
      rows[i] == Record(s[i].taxiId, id, s[i].lat, s[i].lng, s[i].t)
  {
    seq(|s|, i requires 0 <= i < |s| => Record(s[i].taxiId, id, s[i].lat, s[i].lng, s[i].t))
  }

  /** The rows for the trajectories segs written one after the other from id firstId on. */
  function RowsOfAll(segs: seq<seq<Point>>, firstId: int): seq<OutRow>
  {
    if segs == [] then []
    else RowsOfAll(segs[..|segs| - 1], firstId) + RowsOf(segs[|segs| - 1], firstId + |segs| - 1)
  }

  lemma RowsOfAllAppend(segs: seq<seq<Point>>, x: seq<Point>, firstId: int)
    ensures RowsOfAll(segs + [x], firstId) == RowsOfAll(segs, firstId) + RowsOf(x, firstId + |segs|)
  {
    assert (segs + [x])[..|segs|] == segs;
  }

  /** The points a sequence of data rows describes, dropping the trajectory ids. */
  function PointsOf(rows: seq<OutRow>): (s: seq<Point>)
    requires forall i :: 0 <= i < |rows| ==> rows[i].Record?
    ensures |s| == |rows|
  {
    seq(|rows|, i requires 0 <= i < |rows| =>
      Point(rows[i].driverId, rows[i].lat, rows[i].lng, rows[i].t))
  }

  /** Reading a trajectory's rows back gives its samples, in stored order. */
  lemma RowsOfRoundTrip(s: seq<Point>, id: int)
    ensures PointsOf(RowsOf(s, id)) == s
  {
    var r := PointsOf(RowsOf(s, id));
    assert forall i :: 0 <= i < |s| ==> r[i] == s[i];
  }

  /** Reading back all rows of trajectories written in a row gives their samples, in order. */
  lemma {:induction false} RowsOfAllRoundTrip(segs: seq<seq<Point>>, firstId: int)
    ensures forall i :: 0 <= i < |RowsOfAll(segs, firstId)| ==> RowsOfAll(segs, firstId)[i].Record?
    ensures PointsOf(RowsOfAll(segs, firstId)) == Flatten(segs)
    decreases |segs|
  {
    if segs != [] {
      var init, last := segs[..|segs| - 1], segs[|segs| - 1];
      RowsOfAllRoundTrip(init, firstId);
      var a, b := RowsOfAll(init, firstId), RowsOf(last, firstId + |init|);
      RowsOfRoundTrip(last, firstId + |init|);
      assert RowsOfAll(segs, firstId) == a + b;
      assert PointsOf(a + b) == PointsOf(a) + PointsOf(b);
    }
  }

  /** Data rows are numbered by trajectory: the ids never decrease and are below `bound`. */
  ghost predicate NumberedBelow(rows: seq<OutRow>, bound: int)
  {
    (forall i :: 0 <= i < |rows| ==> rows[i].Record? && 0 <= rows[i].id < bound) &&
    (forall i, j :: 0 <= i < j < |rows| ==> rows[i].id <= rows[j].id)
  }

  /**
   * The rows of trajectories written from id 0 on: the k-th trajectory's rows carry id k,
   * so the ids run 0, 1, 2, ... in order of writing.
   */
  lemma {:induction false} RowsOfAllNumbered(segs: seq<seq<Point>>, firstId: int)
    requires 0 <= firstId
    ensures NumberedBelow(RowsOfAll(segs, firstId), firstId + |segs|)
    ensures |RowsOfAll(segs, firstId)| == |Flatten(segs)|
    decreases |segs|
  {
    if segs != [] {
      var init, last := segs[..|segs| - 1], segs[|segs| - 1];
      RowsOfAllNumbered(init, firstId);
      var a, b := RowsOfAll(init, firstId), RowsOf(last, firstId + |init|);
      assert RowsOfAll(segs, firstId) == a + b;
      NumberedAppend(a, b, firstId + |init|);
    }
  }

  lemma NumberedAppend(a: seq<OutRow>, b: seq<OutRow>, id: int)
    requires NumberedBelow(a, id) && 0 <= id
    requires forall i :: 0 <= i < |b| ==> b[i].Record? && b[i].id == id
    ensures NumberedBelow(a + b, id + 1)
  {
  }

  /**
   * The writer: `nextId` is the id the next trajectory gets and `rows` is everything
   * printed so far.
   */
  class TrajectoryWriter {
    var nextId: int
    var rows: seq<OutRow>

    /** The header comes first, and the data rows are numbered below nextId in order. */
    ghost predicate Valid()
      reads this
    {
      0 <= nextId && |rows| >= 1 && rows[0] == Header && NumberedBelow(rows[1..], nextId)
    }

    /** newTrajectoryWriter: counter at 0, and the header line printed. */
    constructor ()
      ensures Valid() && nextId == 0 && rows == [Header]
    {
      nextId := 0;
      rows := [Header];
    }

    /**
     * writeTrajectory: one row per stored sample, in stored order, all tagged nextId;
     * then the counter moves on by one.
     */
    method WriteTrajectory(t: Trajectory)
      requires Valid() && t.Valid()
      modifies this
      ensures Valid()
      ensures rows == old(rows) + RowsOf(t.Contents(), old(nextId))
      ensures nextId == old(nextId) + 1
    {
      ghost var s := t.Contents();
      ghost var before := rows;
      for i := 0 to t.filled
        invariant nextId == old(nextId)
        invariant rows == before + RowsOf(s[..i], nextId)
      {
        var p := t.points[i];
        assert RowsOf(s[..i + 1], nextId) == RowsOf(s[..i], nextId) + RowsOf([p], nextId);
        rows := rows + [Record(p.taxiId, nextId, p.lat, p.lng, p.t)];
      }
      assert s[..t.filled] == s;
      assert rows[1..] == before[1..] + RowsOf(s, nextId);
      NumberedAppend(before[1..], RowsOf(s, nextId), nextId);
      nextId := nextId + 1;
    }
  }
}
