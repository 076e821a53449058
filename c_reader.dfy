/**
 * The grouping reader of trajectory_fixer_c.c (lines 167-213). my_converter_c.c repeats
 * newTrajectoryReader and readTrajectory word for word (its lines 92-123); only its
 * readPoint differs, and that difference lives in CConverter.
 *
 * The input file is an abstract sequence of already parsed records whose first element is
 * the header line; readPoint consumes one record per call.
 */
module CReader {
  import opened Options
  import opened SeqUtil
  import opened CTrajectory

  /** Length of the run of equal taxi ids at the front of s, counted from index i on. */
  function RunFrom(s: seq<Point>, i: nat): (k: nat)
    requires 0 < i <= |s|
    requires forall j :: 0 <= j < i ==> s[j].taxiId == s[0].taxiId
    ensures i <= k <= |s|
    ensures forall j :: 0 <= j < k ==> s[j].taxiId == s[0].taxiId
    ensures k < |s| ==> s[k].taxiId != s[0].taxiId
    decreases |s| - i
  {
    if i < |s| && s[i].taxiId == s[0].taxiId then RunFrom(s, i + 1) else i
  }

  /** Length of the maximal run of points sharing the first point's taxi id. */
  function RunLength(s: seq<Point>): (k: nat)
    requires |s| > 0
    ensures 1 <= k <= |s|
    ensures forall j :: 0 <= j < k ==> s[j].taxiId == s[0].taxiId
    ensures k < |s| ==> s[k].taxiId != s[0].taxiId
  {
    RunFrom(s, 1)
  }

  lemma RunLengthUnique(s: seq<Point>, k: nat)
    requires 0 < k <= |s|
    requires forall j :: 0 <= j < k ==> s[j].taxiId == s[0].taxiId
    requires k < |s| ==> s[k].taxiId != s[0].taxiId
    ensures k == RunLength(s)
  {
  }

  /** The groups readTrajectory hands out, one call per group: the maximal runs of equal id. */
  function Groups(s: seq<Point>): seq<seq<Point>>
    decreases |s|
  {
    if s == [] then [] else [s[..RunLength(s)]] + Groups(s[RunLength(s)..])
  }

  /** All points of a group carry one taxi id. */
  ghost predicate SameId(g: seq<Point>)
  {
    g != [] && forall j :: 0 <= j < |g| ==> g[j].taxiId == g[0].taxiId
  }

  /** Group a is followed by group b of another id. */
  ghost predicate Meets(a: seq<Point>, b: seq<Point>)
  {
    a != [] && b != [] && a[|a| - 1].taxiId != b[0].taxiId
  }

  /** Neighbouring groups differ in id where they meet. */
  ghost predicate Separated(gs: seq<seq<Point>>)
  {
    forall g, h :: 0 <= g && h == g + 1 && h < |gs| ==> Meets(gs[g], gs[h])
  }

  /**
   * The groups partition the stream: together they are the stream, in order; each one is
   * non-empty and of one id; two neighbouring groups have different ids, so an id that
   * comes back later in the stream opens a group of its own.
   */
  lemma {:induction false} GroupsPartition(s: seq<Point>)
    ensures Flatten(Groups(s)) == s
    decreases |s|
  {
    if s != [] {
      var k := RunLength(s);
      GroupsPartition(s[k..]);
      FlattenCons(s[..k], Groups(s[k..]));
      assert s[..k] + s[k..] == s;
    }
  }

  lemma {:induction false} GroupsSameId(s: seq<Point>)
    ensures forall g :: 0 <= g < |Groups(s)| ==> SameId(Groups(s)[g])
    decreases |s|
  {
    if s != [] {
      GroupsSameId(s[RunLength(s)..]);
    }
  }

  lemma {:induction false} GroupsSeparated(s: seq<Point>)
    ensures Separated(Groups(s))
    decreases |s|
  {
    if s != [] {
      var k := RunLength(s);
      var rest := s[k..];
      GroupsSeparated(rest);
      var gs: seq<seq<Point>>, gr: seq<seq<Point>> := Groups(s), Groups(rest);
      assert gs == [s[..k]] + gr;
      forall g: int, h: int | 0 <= g && h == g + 1 && h < |gs|
        ensures Meets(gs[g], gs[h])
      {
        if g == 0 {
          assert gr[0][0] == rest[0] == s[k];
          assert gs[0][k - 1] == s[k - 1];
        } else {
          assert gs[g] == gr[g - 1] && gs[h] == gr[h - 1];
        }
      }
    }
  }

  /** Ids 1,1,1,2,2,3 give groups of 3, 2 and 1. */
  lemma GroupSizesExample(a: real, b: real)
    ensures |Groups([Point(1, a, b, 0), Point(1, a, b, 1), Point(1, a, b, 2),
                     Point(2, a, b, 3), Point(2, a, b, 4), Point(3, a, b, 5)])| == 3
    ensures Groups([Point(1, a, b, 0), Point(1, a, b, 1), Point(1, a, b, 2),
                    Point(2, a, b, 3), Point(2, a, b, 4), Point(3, a, b, 5)]) ==
      [[Point(1, a, b, 0), Point(1, a, b, 1), Point(1, a, b, 2)],
       [Point(2, a, b, 3), Point(2, a, b, 4)],
       [Point(3, a, b, 5)]]
  {
    var s := [Point(1, a, b, 0), Point(1, a, b, 1), Point(1, a, b, 2),
              Point(2, a, b, 3), Point(2, a, b, 4), Point(3, a, b, 5)];
    RunLengthUnique(s, 3);
    RunLengthUnique(s[3..], 2);
    RunLengthUnique(s[5..], 1);
    assert s[3..][2..] == s[5..];
    assert s[5..][1..] == [];
    assert s[5..][..1] == s[5..];
    assert s[3..][..2] == s[3..5];
    assert Groups(s[5..]) == [s[5..]] + Groups([]);
    assert Groups(s[3..]) == [s[3..5]] + Groups(s[5..]);
    assert Groups(s) == [s[..3]] + Groups(s[3..]);
    assert Groups(s) == [s[..3], s[3..5], s[5..]];
    assert s[..3] == [Point(1, a, b, 0), Point(1, a, b, 1), Point(1, a, b, 2)];
    assert s[3..5] == [Point(2, a, b, 3), Point(2, a, b, 4)];
  }

  /** An id that comes back after another id is not merged: ids p, q, p give three groups. */
  lemma NonContiguousIdsSplit(p: Point, q: Point, r: Point)
    requires p.taxiId == r.taxiId != q.taxiId
    ensures Groups([p, q, r]) == [[p], [q], [r]]
  {
    var s := [p, q, r];
    RunLengthUnique(s, 1);
    RunLengthUnique(s[1..], 1);
    RunLengthUnique(s[2..], 1);
    assert s[1..][1..] == s[2..];
    assert s[2..][1..] == [];
    assert s[2..][..1] == [r];
    assert s[1..][..1] == [q];
    assert s[..1] == [p];
    assert Groups(s[2..]) == [[r]] + Groups([]);
    assert Groups(s[1..]) == [[q]] + Groups(s[2..]);
    assert Groups(s) == [[p]] + Groups(s[1..]);
  }

  /**
   * One step of the reader, on values: taking the maximal run of length k off the pending
   * points input[c0..] gives the first group and leaves the remaining groups.
   */
  lemma TakeGroup(input: seq<Point>, c0: nat, k: nat)
    requires 0 < k && c0 + k <= |input|
    requires forall j :: c0 <= j < c0 + k ==> input[j].taxiId == input[c0].taxiId
    requires c0 + k < |input| ==> input[c0 + k].taxiId != input[c0].taxiId
    ensures Groups(input[c0..])[0] == input[c0..c0 + k]
    ensures Groups(input[c0 + k..]) == Groups(input[c0..])[1..]
    ensures SameId(input[c0..c0 + k])
  {
    var pend := input[c0..];
    assert pend[..k] == input[c0..c0 + k];
    assert pend[k..] == input[c0 + k..];
    RunLengthUnique(pend, k);
  }

  /** The records after the header line. */
  function Records(input: seq<Point>): seq<Point>
  {
    if input == [] then [] else input[1..]
  }

  function CursorOf(pos: nat, buffer: Option<Point>): nat
  {
    if buffer.Some? && pos > 0 then pos - 1 else pos
  }

  /** Number of header records at the front of the file: one, unless the file is empty. */
  function HeaderLen(input: seq<Point>): nat
  {
    if input == [] then 0 else 1
  }

  /**
   * The reader's invariant on its state: the header has been consumed, the buffered point
   * is the last record read and differs in id from the group handed out last, and the
   * groups handed out so far are, in order, the records between the header and the cursor.
   */
  ghost predicate ReaderInv(input: seq<Point>, pos: nat, buffer: Option<Point>,
                            emitted: seq<seq<Point>>)
  {
    HeaderLen(input) <= pos <= |input| &&
    (buffer.Some? ==> 2 <= pos && buffer.value == input[pos - 1]) &&
    Flatten(emitted) == input[HeaderLen(input)..CursorOf(pos, buffer)] &&
    (buffer.Some? ==>
      emitted != [] && emitted[|emitted| - 1] != [] &&
      emitted[|emitted| - 1][0].taxiId != buffer.value.taxiId)
  }

  /** Under the invariant, the groups handed out followed by the pending points are all the
    * records after the header. */
  lemma ReaderInvCovers(input: seq<Point>, pos: nat, buffer: Option<Point>,
                        emitted: seq<seq<Point>>)
    requires ReaderInv(input, pos, buffer, emitted)
    ensures Flatten(emitted) + input[CursorOf(pos, buffer)..] == Records(input)
  {
    var c := CursorOf(pos, buffer);
    if input != [] {
      assert input[1..c] + input[c..] == input[1..];
    }
  }

  /** One readTrajectory call that returns the run input[c0..c0 + k], on the reader's state. */
  lemma ReaderStep(input: seq<Point>, pos0: nat, buf0: Option<Point>, em0: seq<seq<Point>>,
                   c0: nat, k: nat, pos1: nat, next: Option<Point>)
    requires ReaderInv(input, pos0, buf0, em0) && c0 == CursorOf(pos0, buf0)
    requires 0 < k && c0 + k <= |input|
    requires forall j :: c0 <= j < c0 + k ==> input[j].taxiId == input[c0].taxiId
    requires next.Some? ==>
      pos1 == c0 + k + 1 <= |input| && next.value == input[c0 + k] &&
      next.value.taxiId != input[c0].taxiId
    requires next.None? ==> pos1 == |input| == c0 + k
    ensures ReaderInv(input, pos1, next, em0 + [input[c0..c0 + k]])
    ensures CursorOf(pos1, next) == c0 + k
  {
    var g := input[c0..c0 + k];
    assert CursorOf(pos1, next) == c0 + k;
    var em1 := em0 + [g];
    FlattenAppend(em0, g);
    var h := HeaderLen(input);
    assert h <= c0;
    assert input[h..c0 + k] == input[h..c0] + g;
    assert em1[|em1| - 1] == g && g[0] == input[c0];
  }

  /**
   * The reader: `input` is the file, `pos` the number of records readPoint has consumed
   * and `buffer` the one-point lookahead (NULL as None). The ghost `emitted` lists the
   * groups handed out so far.
   */
  class TrajectoryReader {
    const input: seq<Point>
    var pos: nat
    var buffer: Option<Point>
    ghost var emitted: seq<seq<Point>>

    /** Where the points not yet handed out start: the buffered point, if any, was the
      * last record read. */
    ghost function Cursor(): nat
      reads this
    {
      CursorOf(pos, buffer)
    }

    /** The points not yet handed out: the buffer, then the unread records. */
    ghost function Pending(): seq<Point>
      reads this
      requires Cursor() <= |input|
    {
      input[Cursor()..]
    }

    ghost predicate Valid()
      reads this
    {
      ReaderInv(input, pos, buffer, emitted)
    }

    /** newTrajectoryReader: no lookahead, and the header record is read and dropped. */
    constructor (input: seq<Point>)
      ensures Valid()
      ensures this.input == input && buffer == None && emitted == []
      ensures pos == if input == [] then 0 else 1
      ensures Pending() == Records(input)
    {
      this.input := input;
      pos := 0;
      buffer := None;
      emitted := [];
      new;
      var header := ReadPoint();
    }

    /** readPoint on the reader's stream: the next record, or NULL at end of file. */
    method ReadPoint() returns (r: Option<Point>)
      modifies this`pos
      ensures old(pos) < |input| ==> r == Some(input[old(pos)]) && pos == old(pos) + 1
      ensures old(pos) >= |input| ==> r == None && pos == old(pos)
    {
      if pos < |input| {
        r := Some(input[pos]);
        pos := pos + 1;
      } else {
        r := None;
      }
    }

    /**
     * readTrajectory: NULL exactly when there is no lookahead and the file is exhausted;
     * otherwise a fresh trajectory holding the next maximal run of one taxi id, the first
     * point with another id being kept as the new lookahead.
     */
    method ReadTrajectory() returns (t: Trajectory?)
      requires Valid()
      modifies this
      ensures Valid()
      ensures t == null <==> old(Pending()) == []
      ensures t == null ==> pos == old(pos) && buffer == old(buffer) && emitted == old(emitted)
      ensures t != null ==> fresh(t) && fresh(t.points) && t.Valid() && t.id == -1
      ensures t != null ==> t.Contents() == Groups(old(Pending()))[0]
      ensures t != null ==> Groups(Pending()) == Groups(old(Pending()))[1..]
      ensures t != null ==> emitted == old(emitted) + [t.Contents()]
    {
      ghost var c0 := Cursor();
      ghost var pos0, buf0 := pos, buffer;
      var seed := NextSeed();
      if seed.None? {
        return null;
      }
      t := ReadGroup(seed.value, pos0, buf0, c0);
    }

    /** The first point of the next group: the lookahead if there is one, else a fresh
      * record (NULL at end of file). */
    method NextSeed() returns (seed: Option<Point>)
      requires Valid()
      modifies this`pos
      ensures seed.None? <==> old(Cursor()) == |input|
      ensures seed.None? ==> pos == old(pos)
      ensures seed.Some? ==> old(Cursor()) < |input| && seed.value == input[old(Cursor())]
      ensures seed.Some? ==> pos == old(Cursor()) + 1
    {
      if buffer.None? {
        seed := ReadPoint();
      } else {
        seed := buffer;
      }
    }

    /** The rest of readTrajectory once the seed p (the record at c0) is known. */
    method ReadGroup(p: Point, ghost pos0: nat, ghost buf0: Option<Point>, ghost c0: nat)
      returns (t: Trajectory)
      requires ReaderInv(input, pos0, buf0, emitted) && c0 == CursorOf(pos0, buf0)
      requires pos == c0 + 1 <= |input| && input[c0] == p
      modifies this
      ensures Valid()
      ensures fresh(t) && fresh(t.points) && t.Valid() && t.id == -1
      ensures t.Contents() == Groups(input[c0..])[0]
      ensures Groups(Pending()) == Groups(input[c0..])[1..]
      ensures emitted == old(emitted) + [t.Contents()]
    {
      t := new Trajectory();
      var next := ReadRun(t, p, c0);
      ghost var k := t.filled;
      ghost var g := input[c0..c0 + k];
      ReaderStep(input, pos0, buf0, emitted, c0, k, pos, next);
      TakeGroup(input, c0, k);
      assert t.Contents() == g;
      buffer := next;
      emitted := emitted + [g];
      assert Cursor() == c0 + k;
      assert Pending() == input[c0 + k..];
    }

    /**
     * The do-while loop of readTrajectory: store the seed p, then keep reading and storing
     * while the record read has the seed's taxi id; the first record that does not (or NULL
     * at end of file) is returned.
     */
    method ReadRun(t: Trajectory, p: Point, ghost c0: nat) returns (next: Option<Point>)
      requires t.Valid() && t.filled == 0
      requires pos == c0 + 1 <= |input| && input[c0] == p
      modifies this`pos, t, t.points
      ensures t.Valid() && t.id == old(t.id) && (t.points == old(t.points) || fresh(t.points))
      ensures 0 < t.filled && c0 + t.filled <= |input| && t.Contents() == input[c0..c0 + t.filled]
      ensures forall j :: c0 <= j < c0 + t.filled ==> input[j].taxiId == p.taxiId
      ensures next.Some? ==>
        pos == c0 + t.filled + 1 <= |input| && next.value == input[c0 + t.filled] &&
        next.value.taxiId != p.taxiId
      ensures next.None? ==> pos == |input| == c0 + t.filled
    {
      var tId := p.taxiId;
      t.AddPoint(p);
      next := ReadPoint();
      while next.Some? && next.value.taxiId == tId
        invariant t.Valid() && t.id == old(t.id)
        invariant t.points == old(t.points) || fresh(t.points)
        invariant c0 < c0 + t.filled <= |input| && t.Contents() == input[c0..c0 + t.filled]
        invariant forall j :: c0 <= j < c0 + t.filled ==> input[j].taxiId == tId
        invariant next.Some? ==>
          pos == c0 + t.filled + 1 <= |input| && next.value == input[c0 + t.filled]
        invariant next.None? ==> pos == |input| == c0 + t.filled
        decreases |input| - t.filled
      {
        next := StoreAndRead(t, next.value, c0);
      }
    }

    /** One pass of that loop's body: store q, the record at c0 + t.filled, and read the
      * record after it. */
    method StoreAndRead(t: Trajectory, q: Point, ghost c0: nat) returns (next: Option<Point>)
      requires t.Valid() && pos == c0 + t.filled + 1 <= |input| && q == input[c0 + t.filled]
      requires t.Contents() == input[c0..c0 + t.filled]
      modifies this`pos, t, t.points
      ensures t.Valid() && t.id == old(t.id) && (t.points == old(t.points) || fresh(t.points))
      ensures t.filled == old(t.filled) + 1 && t.Contents() == input[c0..c0 + t.filled]
      ensures next.Some? ==> pos == c0 + t.filled + 1 <= |input| && next.value == input[c0 + t.filled]
      ensures next.None? ==> pos == |input| == c0 + t.filled
    {
      ghost var n := t.filled;
      assert input[c0..c0 + n + 1] == input[c0..c0 + n] + [q];
      t.AddPoint(q);
      next := ReadPoint();
    }
  }
}
