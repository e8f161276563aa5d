/** Generic sequence helpers shared by the fetcher, the resolver and the tail loop. */
module Seqs {

  /** Flattening a list of lists left to right, as repeated `list.extend` / `+=` does. */
  function Concat<T>(ss: seq<seq<T>>): seq<T>
  {
    if ss == [] then [] else Concat(ss[..|ss| - 1]) + ss[|ss| - 1]
  }

  /** Every element of the flattening comes from one of the parts, and conversely. */
  lemma {:induction false} ConcatMembers<T>(ss: seq<seq<T>>, x: T)
    ensures x in Concat(ss) <==> exists i :: 0 <= i < |ss| && x in ss[i]
  {
    if ss != [] {
      var init := ss[..|ss| - 1];
      ConcatMembers(init, x);
      assert forall i :: 0 <= i < |init| ==> init[i] == ss[i];
      if x in Concat(ss) && x !in ss[|ss| - 1] {
        assert x in Concat(init);
        var i :| 0 <= i < |init| && x in init[i];
        assert x in ss[i];
      }
    }
  }

  /** The flattening of two lists of parts is the concatenation of their flattenings. */
  lemma {:induction false} ConcatAppend<T>(a: seq<seq<T>>, b: seq<seq<T>>)
    ensures Concat(a + b) == Concat(a) + Concat(b)
  {
    if b == [] {
      assert a + b == a;
    } else {
      var b' := b[..|b| - 1];
      assert (a + b)[..|a + b| - 1] == a + b';
      ConcatAppend(a, b');
    }
  }
}
