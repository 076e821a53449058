/**
 * The point record and the growable trajectory of trajectory_fixer_c.c (lines 75-130);
 * my_converter_c.c declares the same two structures and the same addPoint/getPoint
 * (its lines 8-55), so this one module stands for both files.
 */
module CTrajectory {
  import opened Options
  import Geometry

  /** One GPS sample: taxi id, latitude, longitude, millisecond timestamp. */
  datatype Point = Point(taxiId: int, lat: real, lng: real, t: int)

  /** Squared planar distance between two samples (the C `distance` before its sqrt). */
  function SqDistance(p: Point, q: Point): real
  {
    Geometry.SqDist(p.lat, p.lng, q.lat, q.lng)
  }

  function Lats(s: seq<Point>): (r: seq<real>)
    ensures |r| == |s| && forall i :: 0 <= i < |s| ==> r[i] == s[i].lat
  {
    seq(|s|, i requires 0 <= i < |s| => s[i].lat)
  }

  function Lngs(s: seq<Point>): (r: seq<real>)
    ensures |r| == |s| && forall i :: 0 <= i < |s| ==> r[i] == s[i].lng
  {
    seq(|s|, i requires 0 <= i < |s| => s[i].lng)
  }

  /** Nondecreasing in timestamp. */
  ghost predicate SortedByTime(s: seq<Point>)
  {
    forall i, j :: 0 <= i < j < |s| ==> s[i].t <= s[j].t
  }

  /** Capacity step of newTrajectory and of every reallocation in addPoint. */
  const CHUNK: nat := 100

  /**
   * A trajectory: `points[0..filled)` are the stored samples, `size` is the capacity of
   * the buffer and `id` the output id (-1 until someone assigns one).
   */
  class Trajectory {
    var id: int
    var size: nat
    var filled: nat
    var points: array<Point>

    ghost predicate Valid()
      reads this
    {
      points.Length == size && filled <= size && size > 0 && size % CHUNK == 0
    }

    /** The stored samples, in storage order. */
    ghost function Contents(): seq<Point>
      reads this, points
      requires Valid()
    {
      points[..filled]
    }

    /** newTrajectory: id -1, capacity 100, nothing stored. */
    constructor ()
      ensures Valid() && fresh(points)
      ensures id == -1 && size == CHUNK && filled == 0 && Contents() == []
    {
      id := -1;
      size := CHUNK;
      filled := 0;
      points := new Point[CHUNK];
    }

    /**
     * addPoint: when the buffer is full it grows by 100 slots (realloc keeps the stored
     * prefix), then p goes to index `filled` and `filled` grows by one.
     */
    method AddPoint(p: Point)
      requires Valid()
      modifies this, points
      ensures Valid()
      ensures Contents() == old(Contents()) + [p]
      ensures filled == old(filled) + 1
      ensures size == if old(filled) >= old(size) then old(size) + CHUNK else old(size)
      ensures id == old(id)
      ensures points == old(points) || fresh(points)
    {
      if filled >= size {
        size := size + CHUNK;
        var grown := new Point[size];
        forall k | 0 <= k < filled {
          grown[k] := points[k];
        }
        points := grown;
      }
      points[filled] := p;
      filled := filled + 1;
    }

    /** getPoint: NULL past the stored samples, otherwise the sample at index. */
    method GetPoint(index: int) returns (r: Option<Point>)
      requires Valid() && 0 <= index
      ensures index >= filled ==> r == None
      ensures index < filled ==> r == Some(Contents()[index])
    {
      if index >= filled {
        return None;
      }
      return Some(points[index]);
    }
  }
}
