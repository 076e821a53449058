/**
 * What my_converter_c.c adds to the shared trajectory and reader code: its own record
 * layout for readPoint (lines 76-90), the line writeTrajectory prints for a trajectory
 * (lines 125-133), and the read-and-write loop of convert (lines 138-156).
 */
module CConverter {
  import opened CTrajectory
  import opened CReader

  /**
   * One input record of the converter: a leading number that readPoint reads and throws
   * away, then taxi id, latitude, longitude and timestamp.
   */
  datatype ConvRecord = ConvRecord(lead: int, taxiId: int, lat: real, lng: real, t: int)

  /** readPoint of my_converter_c.c: the point takes its id from the second field. */
  function DecodePoint(r: ConvRecord): (p: Point)
    ensures p.taxiId == r.taxiId && p.lat == r.lat && p.lng == r.lng && p.t == r.t
  {
    Point(r.taxiId, r.lat, r.lng, r.t)
  }

  /** The leading field never reaches the point: records differing only there decode alike. */
  lemma LeadIgnored(r: ConvRecord, lead: int)
    ensures DecodePoint(r) == DecodePoint(r.(lead := lead))
  {
  }

  /** The records as the converter's readPoint delivers them, one point per record. */
  function Decode(rs: seq<ConvRecord>): (ps: seq<Point>)
    ensures |ps| == |rs| && forall i :: 0 <= i < |rs| ==> ps[i] == DecodePoint(rs[i])
  {
    seq(|rs|, i requires 0 <= i < |rs| => DecodePoint(rs[i]))
  }

  /** One field of an output line: the trajectory id, or one printed coordinate. */
  datatype Field = Id(n: int) | Coord(v: real)

  /** The coordinate fields of a line: lat then lng of every sample, in stored order. */
  function CoordsOf(s: seq<Point>): (fs: seq<Field>)
    ensures |fs| == 2 * |s|
    ensures forall i :: 0 <= i < |s| ==> fs[2 * i] == Coord(s[i].lat) && fs[2 * i + 1] == Coord(s[i].lng)
  {
    if s == [] then []
    else CoordsOf(s[..|s| - 1]) + [Coord(s[|s| - 1].lat), Coord(s[|s| - 1].lng)]
  }

  /** The line writeTrajectory prints: the id, then a lat;lng pair per sample. */
  function LineOf(id: int, s: seq<Point>): (line: seq<Field>)
    ensures |line| == 1 + 2 * |s| && line[0] == Id(id)
    ensures forall i :: 0 <= i < |s| ==>
      line[1 + 2 * i] == Coord(s[i].lat) && line[2 + 2 * i] == Coord(s[i].lng)
  {
    [Id(id)] + CoordsOf(s)
  }

  /** Reading the coordinate fields back two at a time. */
  function PairsOf(fs: seq<Field>): seq<(real, real)>
    requires |fs| % 2 == 0 && forall i :: 0 <= i < |fs| ==> fs[i].Coord?
  {
    seq(|fs| / 2, k requires 0 <= k < |fs| / 2 => (fs[2 * k].v, fs[2 * k + 1].v))
  }

  function LatLngs(s: seq<Point>): seq<(real, real)>
  {
    seq(|s|, i requires 0 <= i < |s| => (s[i].lat, s[i].lng))
  }

  /** A printed line gives back its id and the coordinates of every sample, in order. */
  lemma LineRoundTrip(id: int, s: seq<Point>)
    ensures var line := LineOf(id, s);
      line[0] == Id(id) &&
      (forall i :: 1 <= i < |line| ==> line[i].Coord?) &&
      PairsOf(line[1..]) == LatLngs(s)
  {
    var line := LineOf(id, s);
    var fs := line[1..];
    forall i | 1 <= i < |line|
      ensures line[i].Coord?
    {
      var k := (i - 1) / 2;
      assert 0 <= k < |s|;
      assert line[1 + 2 * k] == Coord(s[k].lat) && line[2 + 2 * k] == Coord(s[k].lng);
      assert i == 1 + 2 * k || i == 2 + 2 * k;
    }
    assert forall k :: 0 <= k < |s| ==> fs[2 * k] == line[1 + 2 * k] && fs[2 * k + 1] == line[2 + 2 * k];
  }

  /** writeTrajectory of my_converter_c.c: the id, then each stored sample's lat and lng. */
  method WriteTrajectory(t: Trajectory) returns (line: seq<Field>)
    requires t.Valid()
    ensures line == LineOf(t.id, t.Contents())
  {
    ghost var s := t.Contents();
    line := [Id(t.id)];
    for i := 0 to t.filled
      invariant line == LineOf(t.id, s[..i])
    {
      var p := t.points[i];
      assert s[..i + 1][..i] == s[..i];
      line := line + [Coord(p.lat), Coord(p.lng)];
    }
    assert s[..t.filled] == s;
  }

  /**
   * convert: read the groups of equal taxi id one by one and print a line for each. No
   * code assigns a trajectory id, so every line carries the -1 of newTrajectory.
   */
  method Convert(records: seq<ConvRecord>) returns (lines: seq<seq<Field>>)
    ensures var gs := Groups(Records(Decode(records)));
      |lines| == |gs| && forall g :: 0 <= g < |gs| ==> lines[g] == LineOf(-1, gs[g])
    ensures forall g :: 0 <= g < |lines| ==> lines[g][0] == Id(-1)
  {
    var reader := new TrajectoryReader(Decode(records));
    ghost var gs := Groups(Records(Decode(records)));
    ghost var done: seq<seq<Point>> := [];
    lines := [];
    var t;
    ghost var rest;
    t, rest := Fetch(reader);
    while t != null
      invariant reader.Valid()
      invariant gs == done + rest
      invariant |lines| == |done| && forall g :: 0 <= g < |done| ==> lines[g] == LineOf(-1, done[g])
      invariant t == null <==> rest == []
      invariant t != null ==> t.Valid() && t.id == -1 && t.Contents() == rest[0]
      invariant t != null ==> Groups(reader.Pending()) == rest[1..]
      decreases |rest|
    {
      var line;
      ghost var rest';
      line, t, rest' := Emit(reader, t, rest);
      ConvertStep(gs, done, rest, lines, line);
      lines, done, rest := lines + [line], done + [rest[0]], rest';
    }
  }

  /** The loop's bookkeeping: printing the first pending group moves it to the done side. */
  lemma ConvertStep(gs: seq<seq<Point>>, done: seq<seq<Point>>, rest: seq<seq<Point>>,
                    lines: seq<seq<Field>>, line: seq<Field>)
    requires rest != [] && gs == done + rest && line == LineOf(-1, rest[0])
    requires |lines| == |done| && forall g :: 0 <= g < |done| ==> lines[g] == LineOf(-1, done[g])
    ensures gs == (done + [rest[0]]) + rest[1..]
    ensures var lines', done' := lines + [line], done + [rest[0]];
      |lines'| == |done'| && forall g :: 0 <= g < |done'| ==> lines'[g] == LineOf(-1, done'[g])
  {
    assert done + [rest[0]] + rest[1..] == done + rest;
  }

  /** One turn of convert's loop: print the trajectory just read, then read the next one. */
  method Emit(reader: TrajectoryReader, t: Trajectory, ghost rest: seq<seq<Point>>)
    returns (line: seq<Field>, t': Trajectory?, ghost rest': seq<seq<Point>>)
    requires reader.Valid() && rest != []
    requires t.Valid() && t.id == -1 && t.Contents() == rest[0]
    requires Groups(reader.Pending()) == rest[1..]
    modifies reader
    ensures line == LineOf(-1, rest[0]) && rest' == rest[1..]
    ensures reader.Valid() && (t' == null <==> rest' == [])
    ensures t' != null ==> t'.Valid() && t'.id == -1 && t'.Contents() == rest'[0]
    ensures t' != null ==> Groups(reader.Pending()) == rest'[1..]
  {
    line := WriteTrajectory(t);
    t', rest' := Fetch(reader);
  }

  /** One readTrajectory call, described by the groups still to come: `rest` before the
    * call; the trajectory is the first of them, NULL when there are none. */
  method Fetch(reader: TrajectoryReader) returns (t: Trajectory?, ghost rest: seq<seq<Point>>)
    requires reader.Valid()
    modifies reader
    ensures reader.Valid() && rest == Groups(old(reader.Pending()))
    ensures t == null <==> rest == []
    ensures t != null ==> fresh(t) && t.Valid() && t.id == -1 && t.Contents() == rest[0]
    ensures t != null ==> Groups(reader.Pending()) == rest[1..]
  {
    rest := Groups(reader.Pending());
    t := reader.ReadTrajectory();
  }
}
