/** Sequence helpers shared by the loops that build one output per input. */
module Sequences {

  /** `[f(x) for x in s]`, built by appending at the end as the loops do. */
  function MapSeq<A, B>(s: seq<A>, f: A -> B): (r: seq<B>)
    ensures |r| == |s|
  {
    if s == [] then [] else MapSeq(s[..|s| - 1], f) + [f(s[|s| - 1])]
  }

  /** Element `k` of the mapped sequence is `f` of element `k`. */
  lemma {:induction false} MapSeqAt<A, B>(s: seq<A>, f: A -> B, k: nat)
    requires k < |s|
    ensures MapSeq(s, f)[k] == f(s[k])
  {
    var n := |s| - 1;
    if k < n {
      MapSeqAt(s[..n], f, k);
    }
  }
}
