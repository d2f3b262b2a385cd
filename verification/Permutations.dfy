/** Index lists that rearrange sequences. */
module Permutations {

  /** Distinct indices below n. */
  ghost predicate DistinctBelow(order: seq<nat>, n: nat) {
    && (forall i :: 0 <= i < |order| ==> order[i] < n)
    && (forall i, j :: 0 <= i < j < |order| ==> order[i] != order[j])
  }

  /** order lists every index below n exactly once. */
  ghost predicate IsPermutation(order: seq<nat>, n: nat) {
    |order| == n && DistinctBelow(order, n)
  }

  /** [v[i] for i in order] */
  function Gather<T>(v: seq<T>, order: seq<nat>): (w: seq<T>)
    requires forall i :: 0 <= i < |order| ==> order[i] < |v|
    ensures |w| == |order| && forall i :: 0 <= i < |order| ==> w[i] == v[order[i]]
  {
    seq(|order|, i requires 0 <= i < |order| => v[order[i]])
  }
}
