/**
 * main of my_converter.py (lines 12-39): group the records by key, sort each list by
 * timestamp, and print one line per key with the coordinates of its points.
 */
module PyConverter {
  import opened Options
  import opened PyData

  /** One output line: the key, then one `lat;lng` field per point. */
  datatype OutLine = OutLine(key: string, coords: seq<(real, real)>)

  /** `[str(p) for p in ...]`: the coordinates of each point, in list order. */
  function CoordsOf(s: seq<PyPoint>): (r: seq<(real, real)>)
    ensures |r| == |s| && forall i :: 0 <= i < |s| ==> r[i] == (s[i].lat, s[i].lng)
  {
    seq(|s|, i requires 0 <= i < |s| => (s[i].lat, s[i].lng))
  }

  /** The line of key k: its points sorted by timestamp. */
  function LineOf(rs: seq<Row>, k: string): (line: OutLine)
    ensures line.key == k && |line.coords| == |PointsOf(rs, k)|
  {
    SortByTimeFacts(PointsOf(rs, k));
    assert |multiset(SortByTime(PointsOf(rs, k)))| == |multiset(PointsOf(rs, k))|;
    OutLine(k, CoordsOf(SortByTime(PointsOf(rs, k))))
  }

  /** Number of coordinate fields over all lines. */
  function PairCount(ls: seq<OutLine>): nat
  {
    if ls == [] then 0 else PairCount(ls[..|ls| - 1]) + |ls[|ls| - 1].coords|
  }

  /**
   * main: read the lines after the header into the dict, sort each list, then write one
   * line per key in dict order. With no records, `max(trajectories.keys())` raises
   * ValueError before anything is written: the result is None.
   */
  method Convert(lines: seq<Row>) returns (out: Option<seq<OutLine>>)
    ensures var rs := Body(lines);
      (out == None <==> rs == []) &&
      (out.Some? ==>
        |out.value| == |KeysOf(rs)| &&
        forall i :: 0 <= i < |out.value| ==> out.value[i] == LineOf(rs, KeysOf(rs)[i]))
  {
    var d := ReadTrajectories(lines);
    ghost var rs := Body(lines);
    SortLists(d);
    var keys, lists := d.keys, d.lists;
    KeysOfExact(rs);
    if keys == [] {
      assert rs != [] ==> rs[0].key in KeysOf(rs);
      return None;
    }
    var result := WriteLines(keys, lists);
    return Some(result);
  }

  /** The writing loop of lines 36-39: one line per key, in dict order. */
  method WriteLines(keys: seq<string>, lists: map<string, seq<PyPoint>>) returns (result: seq<OutLine>)
    requires forall k :: k in keys ==> k in lists
    ensures |result| == |keys|
    ensures forall j :: 0 <= j < |keys| ==> result[j] == OutLine(keys[j], CoordsOf(lists[keys[j]]))
  {
    result := [];
    for i := 0 to |keys|
      invariant |result| == i
      invariant forall j :: 0 <= j < i ==> result[j] == OutLine(keys[j], CoordsOf(lists[keys[j]]))
    {
      var k := keys[i];
      result := result + [OutLine(k, CoordsOf(lists[k]))];
    }
  }

  /** Sum of the list lengths, per key, is the sum of the line lengths. */
  lemma {:induction false} PairCountLines(rs: seq<Row>, ks: seq<string>)
    requires forall k :: k in ks ==> k in KeysOf(rs)
    ensures PairCount(seq(|ks|, i requires 0 <= i < |ks| => LineOf(rs, ks[i]))) == TotalLength(ks, ListsOf(rs))
    decreases |ks|
  {
    var ls := seq(|ks|, i requires 0 <= i < |ks| => LineOf(rs, ks[i]));
    if ks != [] {
      var init := ks[..|ks| - 1];
      PairCountLines(rs, init);
      assert ls[..|ls| - 1] == seq(|init|, i requires 0 <= i < |init| => LineOf(rs, init[i]));
    }
  }

  /** Every record after the header gives exactly one coordinate field of the output. */
  lemma ConvertedCount(rs: seq<Row>)
    ensures var ks := KeysOf(rs);
      PairCount(seq(|ks|, i requires 0 <= i < |ks| => LineOf(rs, ks[i]))) == |rs|
  {
    PairCountLines(rs, KeysOf(rs));
    TotalPoints(rs);
  }
}
