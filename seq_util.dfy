/** Sequence helpers shared by the C and the Python models. */
module SeqUtil {

  /** Concatenation of a sequence of sequences, built from the last element. */
  function Flatten<T>(ss: seq<seq<T>>): seq<T>
  {
    if ss == [] then [] else Flatten(ss[..|ss| - 1]) + ss[|ss| - 1]
  }

  lemma FlattenAppend<T>(ss: seq<seq<T>>, x: seq<T>)
    ensures Flatten(ss + [x]) == Flatten(ss) + x
  {
    assert (ss + [x])[..|ss|] == ss;
  }

  lemma {:induction false} FlattenCons<T>(x: seq<T>, ss: seq<seq<T>>)
    ensures Flatten([x] + ss) == x + Flatten(ss)
    decreases |ss|
  {
    if ss == [] {
      assert [x][..0] == [];
    } else {
      var init, last := ss[..|ss| - 1], ss[|ss| - 1];
      var xs := [x] + ss;
      assert xs[..|xs| - 1] == [x] + init;
      assert xs[|xs| - 1] == last;
      FlattenCons(x, init);
      assert Flatten(xs) == x + Flatten(init) + last;
    }
  }

  /** Strictly increasing. */
  ghost predicate Increasing(xs: seq<nat>)
  {
    forall a, b :: 0 <= a < b < |xs| ==> xs[a] < xs[b]
  }

  lemma IncreasingConcat(xs: seq<nat>, ys: seq<nat>)
    requires Increasing(xs) && Increasing(ys)
    requires forall a, b :: 0 <= a < |xs| && 0 <= b < |ys| ==> xs[a] < ys[b]
    ensures Increasing(xs + ys)
  {
  }
}
