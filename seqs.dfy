/** Sequence helpers shared by the dictionary models: distinctness and first-occurrence order. */
module Seqs {
  /** No element occurs twice. */
  predicate Distinct<T(==)>(xs: seq<T>) {
    forall i, j :: 0 <= i < j < |xs| ==> xs[i] != xs[j]
  }

  /**
    The distinct elements of `xs` in the order of their first occurrence: the key order of a
    Python dict into which the elements of `xs` are assigned one after another.
   */
  function FirstOccurrences<T(==)>(xs: seq<T>): (r: seq<T>)
    ensures Distinct(r)
    ensures forall i :: 0 <= i < |r| ==> r[i] in xs
    ensures forall i :: 0 <= i < |xs| ==> xs[i] in r
    decreases |xs|
  {
    if xs == [] then []
    else
      var prev := FirstOccurrences(xs[..|xs| - 1]);
      var x := xs[|xs| - 1];
      assert forall i :: 0 <= i < |xs| - 1 ==> xs[i] == xs[..|xs| - 1][i];
      if x in prev then prev else prev + [x]
  }

  /** Some occurrence of `a` in `xs` comes before every occurrence of `b`. */
  predicate FirstSeenBefore<T(==)>(xs: seq<T>, a: T, b: T) {
    exists p :: 0 <= p < |xs| && xs[p] == a && b !in xs[..p + 1]
  }

  /** `FirstOccurrences` lists the elements in the order in which they are first seen. */
  lemma {:induction false} FirstOccurrencesOrder<T>(xs: seq<T>)
    ensures forall i, j :: 0 <= i < j < |FirstOccurrences(xs)| ==>
      FirstSeenBefore(xs, FirstOccurrences(xs)[i], FirstOccurrences(xs)[j])
    decreases |xs|
  {
    if xs != [] {
      var init := xs[..|xs| - 1];
      var prev := FirstOccurrences(init);
      var r := FirstOccurrences(xs);
      FirstOccurrencesOrder(init);
      forall i, j | 0 <= i < j < |r| ensures FirstSeenBefore(xs, r[i], r[j]) {
        assert r[i] == prev[i];
        assert r[i] in init;
        var p :| 0 <= p < |init| && init[p] == r[i] && (j == |prev| || r[j] !in init[..p + 1]);
        assert xs[..p + 1] == init[..p + 1];
        assert xs[p] == r[i];
        if j == |prev| {
          assert r[j] !in prev;
          assert r[j] !in init;
          assert forall k :: 0 <= k < p + 1 ==> init[..p + 1][k] == init[k];
        }
      }
    }
  }
}
