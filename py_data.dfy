/**
 * The data both Python scripts share: the point record, the dictionary that
 * read_trajectories (trajectory_fixer.py lines 77-90) and the reading loop of
 * my_converter.py (lines 16-25) build from the input lines, and the per-list timestamp
 * sort of order_by_timestamp (trajectory_fixer.py lines 109-111) and of my_converter.py
 * (lines 27-28).
 */
module PyData {
  import Geometry

  /** Point of the Python code: latitude, longitude and an integer timestamp. */
  datatype PyPoint = PyPoint(lat: real, lng: real, t: int)

  /** One input line split at ';': the key (kept as text), latitude, longitude, timestamp. */
  datatype Row = Row(key: string, lat: real, lng: real, t: int)

  /** Point(data_line[1], data_line[2], data_line[3]): the key does not enter the point. */
  function PointOf(r: Row): (p: PyPoint)
    ensures p.lat == r.lat && p.lng == r.lng && p.t == r.t
  {
    PyPoint(r.lat, r.lng, r.t)
  }

  /** Squared Euclidean distance of Point.distance (the norm before its square root). */
  function SqDistance(p: PyPoint, q: PyPoint): real
  {
    Geometry.SqDist(p.lat, p.lng, q.lat, q.lng)
  }

  function Lats(s: seq<PyPoint>): (r: seq<real>)
    ensures |r| == |s| && forall i :: 0 <= i < |s| ==> r[i] == s[i].lat
  {
    seq(|s|, i requires 0 <= i < |s| => s[i].lat)
  }

  function Lngs(s: seq<PyPoint>): (r: seq<real>)
    ensures |r| == |s| && forall i :: 0 <= i < |s| ==> r[i] == s[i].lng
  {
    seq(|s|, i requires 0 <= i < |s| => s[i].lng)
  }

  ghost predicate SortedByTime(s: seq<PyPoint>)
  {
    forall i, j :: 0 <= i < j < |s| ==> s[i].t <= s[j].t
  }

  /** `lines[1:]`: the header line is skipped, and an empty file has no records. */
  function Body(lines: seq<Row>): (rs: seq<Row>)
    ensures |lines| == 0 ==> rs == []
    ensures |lines| > 0 ==> |rs| == |lines| - 1 && forall i :: 0 <= i < |rs| ==> rs[i] == lines[i + 1]
  {
    if lines == [] then [] else lines[1..]
  }

  // ---------------------------------------------------------------------------------------
  // The grouping, as functions of the records read so far

  /** The keys in order of first appearance: the order a dict keeps its keys. */
  function KeysOf(rs: seq<Row>): seq<string>
  {
    if rs == [] then []
    else
      var ks := KeysOf(rs[..|rs| - 1]);
      if rs[|rs| - 1].key in ks then ks else ks + [rs[|rs| - 1].key]
  }

  /** The points of the records with key k, in record order. */
  function PointsOf(rs: seq<Row>, k: string): seq<PyPoint>
  {
    if rs == [] then []
    else
      PointsOf(rs[..|rs| - 1], k) + (if rs[|rs| - 1].key == k then [PointOf(rs[|rs| - 1])] else [])
  }

  ghost predicate Distinct(ks: seq<string>)
  {
    forall i, j :: 0 <= i < j < |ks| ==> ks[i] != ks[j]
  }

  /** Index of the first record with key k. */
  function FirstWith(rs: seq<Row>, k: string): (i: nat)
    requires exists i :: 0 <= i < |rs| && rs[i].key == k
    ensures i < |rs| && rs[i].key == k && forall j :: 0 <= j < i ==> rs[j].key != k
  {
    if rs[0].key == k then 0 else 1 + FirstWith(rs[1..], k)
  }

  /**
   * KeysOf holds each key of the records exactly once, and lists them in the order of
   * their first records.
   */
  lemma {:induction false} KeysOfExact(rs: seq<Row>)
    ensures Distinct(KeysOf(rs))
    ensures forall k :: k in KeysOf(rs) <==> exists i :: 0 <= i < |rs| && rs[i].key == k
    decreases |rs|
  {
    if rs != [] {
      var init := rs[..|rs| - 1];
      KeysOfExact(init);
      forall k
        ensures k in KeysOf(rs) <==> exists i :: 0 <= i < |rs| && rs[i].key == k
      {
        if exists i :: 0 <= i < |init| && init[i].key == k {
          var i :| 0 <= i < |init| && init[i].key == k;
          assert rs[i].key == k;
        }
        if k in KeysOf(rs) && k != rs[|rs| - 1].key {
          var i :| 0 <= i < |init| && init[i].key == k;
          assert rs[i].key == k;
        }
        if exists i :: 0 <= i < |rs| && rs[i].key == k {
          var i :| 0 <= i < |rs| && rs[i].key == k;
          if i < |init| { assert init[i].key == k; }
        }
      }
    }
  }

  /** A key's first record comes before the first record of every key listed after it. */
  lemma {:induction false} KeysOfFirstAppearance(rs: seq<Row>, a: nat, b: nat)
    requires a < b < |KeysOf(rs)|
    ensures var ks := KeysOf(rs);
      (exists i :: 0 <= i < |rs| && rs[i].key == ks[a]) &&
      (exists i :: 0 <= i < |rs| && rs[i].key == ks[b]) &&
      FirstWith(rs, ks[a]) < FirstWith(rs, ks[b])
    decreases |rs|
  {
    KeysOfExact(rs);
    var init := rs[..|rs| - 1];
    var ks, ks0 := KeysOf(rs), KeysOf(init);
    KeysOfExact(init);
    InPrefix(rs, a);
    FirstWithPrefix(rs, ks[a]);
    if b < |ks0| {
      KeysOfFirstAppearance(init, a, b);
      InPrefix(rs, b);
      FirstWithPrefix(rs, ks[b]);
    } else {
      // ks[b] is the key of the last record, seen for the first time there
      assert ks[b] == rs[|rs| - 1].key && ks[b] !in ks0;
      assert forall j :: 0 <= j < |init| ==> init[j].key != ks[b];
      assert FirstWith(rs, ks[b]) == |rs| - 1 by {
        assert forall j :: 0 <= j < |rs| - 1 ==> rs[j].key == init[j].key;
      }
    }
  }

  /** A key listed before the last record's key occurs among the earlier records. */
  lemma InPrefix(rs: seq<Row>, a: nat)
    requires rs != [] && a < |KeysOf(rs[..|rs| - 1])|
    ensures a < |KeysOf(rs)| && KeysOf(rs)[a] == KeysOf(rs[..|rs| - 1])[a]
    ensures exists i :: 0 <= i < |rs| - 1 && rs[i].key == KeysOf(rs)[a]
  {
    var init := rs[..|rs| - 1];
    KeysOfExact(init);
    assert KeysOf(init)[a] in KeysOf(init);
    var i :| 0 <= i < |init| && init[i].key == KeysOf(init)[a];
    assert rs[i] == init[i];
  }

  /** A key already present in a prefix has its first record in that prefix. */
  lemma FirstWithPrefix(rs: seq<Row>, k: string)
    requires rs != [] && exists i :: 0 <= i < |rs| - 1 && rs[i].key == k
    ensures var init := rs[..|rs| - 1];
      (exists i :: 0 <= i < |init| && init[i].key == k) && FirstWith(rs, k) == FirstWith(init, k)
  {
    var init := rs[..|rs| - 1];
    var i :| 0 <= i < |rs| - 1 && rs[i].key == k;
    assert init[i].key == k;
    var f, g := FirstWith(rs, k), FirstWith(init, k);
    assert rs[g].key == k;
    assert f <= i && init[f] == rs[f];
  }

  /** A key's list is empty exactly when no record carries it. */
  lemma {:induction false} PointsOfEmpty(rs: seq<Row>, k: string)
    ensures PointsOf(rs, k) == [] <==> k !in KeysOf(rs)
    decreases |rs|
  {
    if rs != [] {
      PointsOfEmpty(rs[..|rs| - 1], k);
      KeysOfExact(rs[..|rs| - 1]);
    }
  }

  /** Sum of the list lengths over the given keys. */
  function TotalLength(ks: seq<string>, lists: map<string, seq<PyPoint>>): nat
    requires forall k :: k in ks ==> k in lists
  {
    if ks == [] then 0 else TotalLength(ks[..|ks| - 1], lists) + |lists[ks[|ks| - 1]]|
  }

  /** The lists of the records read so far. */
  function ListsOf(rs: seq<Row>): (m: map<string, seq<PyPoint>>)
    ensures forall k :: k in m <==> k in KeysOf(rs)
  {
    map k | k in KeysOf(rs) :: PointsOf(rs, k)
  }

  /** Every record lands in exactly one list: the lists hold as many points as there are records. */
  lemma {:induction false} TotalPoints(rs: seq<Row>)
    ensures TotalLength(KeysOf(rs), ListsOf(rs)) == |rs|
    decreases |rs|
  {
    if rs != [] {
      var init, r := rs[..|rs| - 1], rs[|rs| - 1];
      TotalPoints(init);
      KeysOfExact(init);
      var ks0 := KeysOf(init);
      var m0, m := ListsOf(init), ListsOf(rs);
      forall k | k in ks0 && k != r.key
        ensures m[k] == m0[k]
      {
      }
      if r.key in ks0 {
        assert m[r.key] == m0[r.key] + [PointOf(r)];
        TotalBump(ks0, m0, m, r.key);
      } else {
        TotalSame(ks0, m0, m);
        PointsOfEmpty(init, r.key);
        assert |m[r.key]| == 1;
      }
    }
  }

  /** Lists that agree on every key of ks give the same total. */
  lemma {:induction false} TotalSame(ks: seq<string>, m0: map<string, seq<PyPoint>>, m: map<string, seq<PyPoint>>)
    requires forall k :: k in ks ==> k in m0 && k in m && m[k] == m0[k]
    ensures TotalLength(ks, m) == TotalLength(ks, m0)
    decreases |ks|
  {
    if ks != [] {
      TotalSame(ks[..|ks| - 1], m0, m);
    }
  }

  /** One list one longer, the others unchanged: the total grows by one. */
  lemma {:induction false} TotalBump(ks: seq<string>, m0: map<string, seq<PyPoint>>,
                                     m: map<string, seq<PyPoint>>, key: string)
    requires Distinct(ks) && key in ks
    requires forall k :: k in ks ==> k in m0 && k in m
    requires forall k :: k in ks && k != key ==> m[k] == m0[k]
    requires |m[key]| == |m0[key]| + 1
    ensures TotalLength(ks, m) == TotalLength(ks, m0) + 1
    decreases |ks|
  {
    var init := ks[..|ks| - 1];
    if ks[|ks| - 1] == key {
      assert key !in init;
      TotalSame(init, m0, m);
    } else {
      assert key in init;
      TotalBump(init, m0, m, key);
    }
  }

  /** Records of one id separated by another id still end up in one list. */
  lemma NonContiguousKeysMerge(p: Row, q: Row, r: Row)
    requires p.key == r.key != q.key
    ensures KeysOf([p, q, r]) == [p.key, q.key]
    ensures PointsOf([p, q, r], p.key) == [PointOf(p), PointOf(r)]
    ensures PointsOf([p, q, r], q.key) == [PointOf(q)]
  {
    assert [p, q, r][..2] == [p, q];
    assert [p, q][..1] == [p];
    assert [p][..0] == [];
    assert KeysOf([p]) == [p.key];
    assert KeysOf([p, q]) == [p.key, q.key];
    assert PointsOf([p], p.key) == [PointOf(p)] && PointsOf([p], q.key) == [];
    assert PointsOf([p, q], p.key) == [PointOf(p)] && PointsOf([p, q], q.key) == [PointOf(q)];
  }

  // ---------------------------------------------------------------------------------------
  // The dictionary

  /**
   * The `trajectories` dict: a map from key to list of points whose key order is the
   * insertion order (Python dicts iterate in insertion order).
   */
  class TrajectoryDict {
    var keys: seq<string>
    var lists: map<string, seq<PyPoint>>

    ghost predicate Valid()
      reads this
    {
      Distinct(keys) && forall k :: k in lists <==> k in keys
    }

    /** `{}` */
    constructor ()
      ensures Valid() && keys == [] && lists == map[]
    {
      keys := [];
      lists := map[];
    }

    /** `trajectories[k] = v`: a new key goes last, an existing key keeps its place. */
    method Put(k: string, v: seq<PyPoint>)
      requires Valid()
      modifies this
      ensures Valid()
      ensures lists == old(lists)[k := v]
      ensures keys == if k in old(lists) then old(keys) else old(keys) + [k]
    {
      if k !in lists {
        keys := keys + [k];
      }
      lists := lists[k := v];
    }

    /** `trajectories[k].append(p)` */
    method Append(k: string, p: PyPoint)
      requires Valid() && k in lists
      modifies this
      ensures Valid() && keys == old(keys)
      ensures lists == old(lists)[k := old(lists)[k] + [p]]
    {
      lists := lists[k := lists[k] + [p]];
    }
  }

  /** One more record: its key is added if new and its point goes at the end of its list. */
  lemma GroupStep(rs: seq<Row>, i: nat)
    requires i < |rs|
    ensures var r, pre := rs[i], rs[..i];
      (r.key !in KeysOf(pre) ==> PointsOf(pre, r.key) == []) &&
      KeysOf(rs[..i + 1]) == (if r.key in KeysOf(pre) then KeysOf(pre) else KeysOf(pre) + [r.key]) &&
      ListsOf(rs[..i + 1]) == ListsOf(pre)[r.key := PointsOf(pre, r.key) + [PointOf(r)]]
  {
    var pre, r := rs[..i], rs[i];
    var rs' := rs[..i + 1];
    assert rs'[..i] == pre && rs'[i] == r;
    PointsOfEmpty(pre, r.key);
    var m, m' := ListsOf(rs'), ListsOf(pre)[r.key := PointsOf(pre, r.key) + [PointOf(r)]];
    assert m.Keys == m'.Keys;
    forall k | k in m
      ensures m[k] == m'[k]
    {
      assert PointsOf(rs', k) == PointsOf(pre, k) + (if r.key == k then [PointOf(r)] else []);
    }
  }

  /** GroupStep on the dict's contents: the update one record makes turns the dict of the
    * first i records into the dict of the first i + 1. */
  lemma RecordStep(rs: seq<Row>, i: nat, keys: seq<string>, lists: map<string, seq<PyPoint>>)
    requires i < |rs| && keys == KeysOf(rs[..i]) && lists == ListsOf(rs[..i])
    ensures var r := rs[i];
      (if r.key in lists then keys else keys + [r.key]) == KeysOf(rs[..i + 1]) &&
      lists[r.key := (if r.key in lists then lists[r.key] else []) + [PointOf(r)]] == ListsOf(rs[..i + 1])
  {
    GroupStep(rs, i);
  }

  /** Lines 86-89 for one record: start an empty list for a new key, then append the point. */
  method AddRecord(d: TrajectoryDict, r: Row)
    requires d.Valid()
    modifies d
    ensures d.Valid()
    ensures d.keys == if r.key in old(d.lists) then old(d.keys) else old(d.keys) + [r.key]
    ensures d.lists ==
      old(d.lists)[r.key := (if r.key in old(d.lists) then old(d.lists)[r.key] else []) + [PointOf(r)]]
  {
    if r.key !in d.lists {
      d.Put(r.key, []);
    }
    d.Append(r.key, PointOf(r));
  }

  /**
   * read_trajectories, and the same loop in my_converter.py: for each line after the
   * header, start an empty list for a new key, then append the line's point to its key's
   * list.
   */
  method ReadTrajectories(lines: seq<Row>) returns (d: TrajectoryDict)
    ensures fresh(d) && d.Valid()
    ensures d.keys == KeysOf(Body(lines)) && d.lists == ListsOf(Body(lines))
  {
    d := new TrajectoryDict();
    var rs := Body(lines);
    for i := 0 to |rs|
      invariant d.Valid() && d.keys == KeysOf(rs[..i]) && d.lists == ListsOf(rs[..i])
    {
      ghost var keys, lists := d.keys, d.lists;
      RecordStep(rs, i, keys, lists);
      AddRecord(d, rs[i]);
    }
    assert rs[..|rs|] == rs;
  }

  // ---------------------------------------------------------------------------------------
  // Sorting a list by timestamp

  /**
   * x placed after every element whose timestamp is at most its own: sorting by
   * insertion this way keeps equal timestamps in their original order, as Python's
   * stable sort does.
   */
  function Insert(s: seq<PyPoint>, x: PyPoint): seq<PyPoint>
  {
    if s == [] || s[|s| - 1].t <= x.t then s + [x]
    else Insert(s[..|s| - 1], x) + [s[|s| - 1]]
  }

  /** `sorted(s, key=lambda x: x.t)` and `s.sort(key=lambda p: p.t)`. */
  function SortByTime(s: seq<PyPoint>): seq<PyPoint>
  {
    if s == [] then [] else Insert(SortByTime(s[..|s| - 1]), s[|s| - 1])
  }

  /** The elements with timestamp v, in order. */
  function AtTime(s: seq<PyPoint>, v: int): seq<PyPoint>
  {
    if s == [] then []
    else AtTime(s[..|s| - 1], v) + (if s[|s| - 1].t == v then [s[|s| - 1]] else [])
  }

  lemma AtTimeAppend(s: seq<PyPoint>, u: seq<PyPoint>, v: int)
    ensures AtTime(s + u, v) == AtTime(s, v) + AtTime(u, v)
    decreases |u|
  {
    if u != [] {
      var su := s + u;
      assert su[..|su| - 1] == s + u[..|u| - 1];
      AtTimeAppend(s, u[..|u| - 1], v);
    } else {
      assert s + u == s;
    }
  }

  lemma AtTimeOne(x: PyPoint, v: int)
    ensures AtTime([x], v) == if x.t == v then [x] else []
  {
    assert [x][..0] == [];
  }

  /** Insert adds x and nothing else. */
  lemma {:induction false} InsertPerm(s: seq<PyPoint>, x: PyPoint)
    ensures multiset(Insert(s, x)) == multiset(s) + multiset{x}
    decreases |s|
  {
    if !(s == [] || s[|s| - 1].t <= x.t) {
      var init := s[..|s| - 1];
      assert s == init + [s[|s| - 1]];
      InsertPerm(init, x);
    }
  }

  /** Insert keeps a sorted sequence sorted. */
  lemma {:induction false} InsertSorted(s: seq<PyPoint>, x: PyPoint)
    requires SortedByTime(s)
    ensures SortedByTime(Insert(s, x))
    decreases |s|
  {
    if !(s == [] || s[|s| - 1].t <= x.t) {
      var init, last := s[..|s| - 1], s[|s| - 1];
      assert s == init + [last];
      InsertSorted(init, x);
      InsertPerm(init, x);
      var r := Insert(init, x);
      forall i | 0 <= i < |r|
        ensures r[i].t <= last.t
      {
        assert r[i] in multiset(init) + multiset{x};
        if r[i] != x {
          assert r[i] in init;
        }
      }
    }
  }

  /** Insert puts x after every element of its timestamp. */
  lemma {:induction false} InsertAtTime(s: seq<PyPoint>, x: PyPoint, v: int)
    ensures AtTime(Insert(s, x), v) == AtTime(s, v) + AtTime([x], v)
    decreases |s|
  {
    if s == [] || s[|s| - 1].t <= x.t {
      AtTimeAppend(s, [x], v);
    } else {
      var init, last := s[..|s| - 1], s[|s| - 1];
      assert s == init + [last];
      InsertAtTime(init, x, v);
      AtTimeAppend(Insert(init, x), [last], v);
      AtTimeAppend(init, [last], v);
      AtTimeOne(x, v);
      AtTimeOne(last, v);
    }
  }

  /**
   * The sort is a stable timestamp sort: ascending, a permutation of its input, and within
   * one timestamp the original order is kept.
   */
  lemma {:induction false} SortByTimeFacts(s: seq<PyPoint>)
    ensures SortedByTime(SortByTime(s))
    ensures multiset(SortByTime(s)) == multiset(s)
    ensures forall v :: AtTime(SortByTime(s), v) == AtTime(s, v)
    decreases |s|
  {
    if s != [] {
      var init, last := s[..|s| - 1], s[|s| - 1];
      assert s == init + [last];
      SortByTimeFacts(init);
      InsertSorted(SortByTime(init), last);
      InsertPerm(SortByTime(init), last);
      forall v
        ensures AtTime(SortByTime(s), v) == AtTime(s, v)
      {
        InsertAtTime(SortByTime(init), last, v);
        AtTimeAppend(init, [last], v);
      }
    }
  }

  /** Equal timestamps keep file order: two points at one timestamp appear sorted as in the input. */
  lemma StableExample(p: PyPoint, q: PyPoint)
    requires p.t == q.t
    ensures SortByTime([p, q]) == [p, q] && SortByTime([q, p]) == [q, p]
  {
    assert [p, q][..1] == [p] && [q, p][..1] == [q];
    assert [p][..0] == [] && [q][..0] == [];
    assert SortByTime([p]) == [p] && SortByTime([q]) == [q];
    assert Insert([p], q) == [p, q] && Insert([q], p) == [q, p];
  }

  /**
   * order_by_timestamp, and the sorting loop of my_converter.py: every list is replaced by
   * its timestamp-sorted copy; the keys and their order stay.
   */
  method SortLists(d: TrajectoryDict)
    requires d.Valid()
    modifies d
    ensures d.Valid() && d.keys == old(d.keys)
    ensures forall k :: k in d.lists <==> k in old(d.lists)
    ensures forall k :: k in d.lists ==> d.lists[k] == SortByTime(old(d.lists)[k])
  {
    ghost var m0 := d.lists;
    for i := 0 to |d.keys|
      invariant d.Valid() && d.keys == old(d.keys)
      invariant forall k :: k in d.lists <==> k in m0
      invariant forall j :: 0 <= j < i ==> d.lists[d.keys[j]] == SortByTime(m0[d.keys[j]])
      invariant forall j :: i <= j < |d.keys| ==> d.lists[d.keys[j]] == m0[d.keys[j]]
    {
      var k := d.keys[i];
      d.Put(k, SortByTime(d.lists[k]));
    }
    forall k | k in d.lists
      ensures d.lists[k] == SortByTime(m0[k])
    {
      var j :| 0 <= j < |d.keys| && d.keys[j] == k;
    }
  }
}
