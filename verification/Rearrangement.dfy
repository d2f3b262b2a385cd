/** Sorting a vector by adjacent swaps, and what such swaps do to squared
    distances: the reason a sorted proximal step may ignore unsorted competitors. */
module Rearrangement {
  import opened Vectors
  import opened Isotonic
  import opened Permutations

  function Swap<T>(v: seq<T>, k: nat): (w: seq<T>)
    requires k + 1 < |v|
    ensures |w| == |v| && w[k] == v[k + 1] && w[k + 1] == v[k]
    ensures forall i :: 0 <= i < |v| && i != k && i != k + 1 ==> w[i] == v[i]
  {
    v[k := v[k + 1]][k + 1 := v[k]]
  }

  ghost predicate InBounds(n: nat, ks: seq<nat>) {
    forall i :: 0 <= i < |ks| ==> ks[i] + 1 < n
  }

  ghost function ApplySwaps<T>(v: seq<T>, ks: seq<nat>): (w: seq<T>)
    requires InBounds(|v|, ks)
    ensures |w| == |v|
    decreases |ks|
  {
    if ks == [] then v else ApplySwaps(Swap(v, ks[0]), ks[1..])
  }

  lemma {:induction false} ApplySwapsAppend<T>(v: seq<T>, ks: seq<nat>, ls: seq<nat>)
    requires InBounds(|v|, ks) && InBounds(|v|, ls)
    ensures ApplySwaps(v, ks + ls) == ApplySwaps(ApplySwaps(v, ks), ls)
    decreases |ks|
  {
    if ks == [] {
      assert ks + ls == ls;
    } else {
      assert (ks + ls)[1..] == ks[1..] + ls;
      ApplySwapsAppend(Swap(v, ks[0]), ks[1..], ls);
    }
  }

  /** Every swap in turn exchanges a descending adjacent pair. */
  ghost predicate SwapsInversions(v: Vec, ks: seq<nat>)
    decreases |ks|
  {
    if ks == [] then true
    else ks[0] + 1 < |v| && v[ks[0]] > v[ks[0] + 1] && SwapsInversions(Swap(v, ks[0]), ks[1..])
  }

  lemma {:induction false} InversionsInBounds(v: Vec, ks: seq<nat>)
    requires SwapsInversions(v, ks)
    ensures InBounds(|v|, ks)
    decreases |ks|
  {
    if ks != [] {
      InversionsInBounds(Swap(v, ks[0]), ks[1..]);
      assert forall i :: 0 < i < |ks| ==> ks[i] == ks[1..][i - 1];
    }
  }

  lemma {:induction false} InversionsAppend(v: Vec, ks: seq<nat>, ls: seq<nat>)
    requires SwapsInversions(v, ks) && InBounds(|v|, ks) && SwapsInversions(ApplySwaps(v, ks), ls)
    ensures SwapsInversions(v, ks + ls)
    decreases |ks|
  {
    if ks == [] {
      assert ks + ls == ls;
    } else {
      assert (ks + ls)[1..] == ks[1..] + ls;
      InversionsAppend(Swap(v, ks[0]), ks[1..], ls);
    }
  }

  /** v ascends on its first k entries, leaving out position j; what stands at j
      is below everything after it. */
  ghost predicate AscendsAround(v: Vec, j: nat, k: nat)
    requires j < k <= |v|
  {
    && (forall a, b :: 0 <= a <= b < k && a != j && b != j ==> v[a] <= v[b])
    && (forall b :: j < b < k ==> v[j] <= v[b])
  }

  lemma {:induction false} InsertSwaps(v: Vec, j: nat, k: nat) returns (ks: seq<nat>)
    requires j < k <= |v| && AscendsAround(v, j, k)
    ensures SwapsInversions(v, ks) && InBounds(|v|, ks)
    ensures forall i :: 0 <= i < |ks| ==> ks[i] + 1 < k
    ensures Nondecreasing(ApplySwaps(v, ks)[..k])
    decreases j
  {
    if j == 0 || v[j - 1] <= v[j] {
      ks := [];
    } else {
      var w := Swap(v, j - 1);
      var rest := InsertSwaps(w, j - 1, k);
      ks := [j - 1] + rest;
      assert ks[1..] == rest;
    }
  }

  lemma {:induction false} SortPrefix(v: Vec, k: nat) returns (ks: seq<nat>)
    requires k <= |v|
    ensures SwapsInversions(v, ks) && InBounds(|v|, ks)
    ensures Nondecreasing(ApplySwaps(v, ks)[..k])
  {
    if k == 0 {
      ks := [];
    } else {
      var first := SortPrefix(v, k - 1);
      var w := ApplySwaps(v, first);
      assert forall i :: 0 <= i < k - 1 ==> w[i] == w[..k - 1][i];
      var second := InsertSwaps(w, k - 1, k);
      ks := first + second;
      InversionsAppend(v, first, second);
      ApplySwapsAppend(v, first, second);
      InversionsInBounds(v, ks);
    }
  }

  /** Every vector is sorted by exchanging descending adjacent pairs. */
  lemma SortBySwaps(v: Vec) returns (ks: seq<nat>)
    ensures SwapsInversions(v, ks) && InBounds(|v|, ks) && Nondecreasing(ApplySwaps(v, ks))
  {
    ks := SortPrefix(v, |v|);
    assert ApplySwaps(v, ks)[..|v|] == ApplySwaps(v, ks);
  }

  // ----- squared distances -----

  lemma SquareOfDifference(p: real, x: real, d: real)
    requires d == p - x
    ensures Times(d, d) == Times(p, p) - 2.0 * Times(p, x) + Times(x, x)
  {
    hide Times;
    TimesSub(d, p, x, d);
    TimesSub(p, p, x, d);
    TimesSub(x, p, x, d);
    TimesCommutes(x, p);
  }

  lemma SqDistSplit(p: Vec, b: Vec, k: nat)
    requires |p| == |b| && k + 1 < |p|
    ensures
      SqDist(p, b) ==
      SqDist(p[..k], b[..k]) + Times(p[k] - b[k], p[k] - b[k]) +
      Times(p[k + 1] - b[k + 1], p[k + 1] - b[k + 1]) + SqDist(p[k + 2..], b[k + 2..])
  {
    hide Times;
    hide Dot;
    hide Sub;
    var d := Sub(p, b);
    assert Sub(p[..k], b[..k]) == d[..k];
    assert Sub(p[k + 2..], b[k + 2..]) == d[k + 2..];
    assert d == d[..k] + ([d[k]] + ([d[k + 1]] + d[k + 2..]));
    DotAppend([d[k + 1]], [d[k + 1]], d[k + 2..], d[k + 2..]);
    DotAppend([d[k]], [d[k]], [d[k + 1]] + d[k + 2..], [d[k + 1]] + d[k + 2..]);
    DotAppend(d[..k], d[..k], [d[k]] + ([d[k + 1]] + d[k + 2..]), [d[k]] + ([d[k + 1]] + d[k + 2..]));
    DotSingle(d[k], d[k]);
    DotSingle(d[k + 1], d[k + 1]);
  }

  lemma CrossTerms(p: real, q: real, x: real, y: real)
    requires p <= q && y <= x
    ensures Times(p - y, p - y) + Times(q - x, q - x) <= Times(p - x, p - x) + Times(q - y, q - y)
  {
    hide Times;
    SquareOfDifference(p, y, p - y);
    SquareOfDifference(q, x, q - x);
    SquareOfDifference(p, x, p - x);
    SquareOfDifference(q, y, q - y);
    TimesNonNegative(q - p, x - y);
    TimesSub(q - p, x, y, x - y);
    TimesSub(x, q, p, q - p);
    TimesSub(y, q, p, q - p);
    TimesCommutes(q - p, x);
    TimesCommutes(q - p, y);
  }

  /** Putting a descending pair in the order of the target brings it closer. */
  lemma SwapBringsCloser(p: Vec, b: Vec, k: nat)
    requires |p| == |b| && k + 1 < |p| && p[k] <= p[k + 1] && b[k] >= b[k + 1]
    ensures SqDist(p, Swap(b, k)) <= SqDist(p, b)
  {
    hide Times;
    hide SqDist;
    var c := Swap(b, k);
    SqDistSplit(p, b, k);
    SqDistSplit(p, c, k);
    assert c[..k] == b[..k] && c[k + 2..] == b[k + 2..];
    CrossTerms(p[k], p[k + 1], b[k], b[k + 1]);
  }

  lemma SwapBoth(p: Vec, b: Vec, k: nat)
    requires |p| == |b| && k + 1 < |p|
    ensures SqDist(Swap(p, k), Swap(b, k)) == SqDist(p, b)
  {
    hide Times;
    hide SqDist;
    var q, c := Swap(p, k), Swap(b, k);
    SqDistSplit(p, b, k);
    SqDistSplit(q, c, k);
    assert c[..k] == b[..k] && c[k + 2..] == b[k + 2..];
    assert q[..k] == p[..k] && q[k + 2..] == p[k + 2..];
  }

  // ----- permutations -----

  lemma {:induction false} IdentityPrefix(order: seq<nat>, n: nat, k: nat)
    requires IsPermutation(order, n) && k < n
    requires forall i, j :: 0 <= i < j < n ==> order[i] < order[j]
    ensures order[k] >= k
  {
    if k > 0 {
      IdentityPrefix(order, n, k - 1);
    }
  }

  lemma {:induction false} IdentitySuffix(order: seq<nat>, n: nat, k: nat)
    requires IsPermutation(order, n) && k < n
    requires forall i, j :: 0 <= i < j < n ==> order[i] < order[j]
    ensures order[k] <= k
    decreases n - k
  {
    if k + 1 < n {
      IdentitySuffix(order, n, k + 1);
    }
  }

  lemma {:induction false} SwapsCommuteWithGather<T>(v: seq<T>, order: seq<nat>, ks: seq<nat>)
    requires IsPermutation(order, |v|) && InBounds(|v|, ks)
    ensures IsPermutation(ApplySwaps(order, ks), |v|)
    ensures Gather(v, ApplySwaps(order, ks)) == ApplySwaps(Gather(v, order), ks)
    decreases |ks|
  {
    if ks != [] {
      var next := Swap(order, ks[0]);
      assert Gather(v, next) == Swap(Gather(v, order), ks[0]);
      SwapsCommuteWithGather(v, next, ks[1..]);
    }
  }

  lemma {:induction false} SwapsCommuteWithReals(order: seq<nat>, reals: Vec, ks: seq<nat>)
    requires
      |order| == |reals| && InBounds(|order|, ks) && forall i :: 0 <= i < |order| ==> reals[i] == order[i] as real
    ensures forall i :: 0 <= i < |order| ==> ApplySwaps(reals, ks)[i] == ApplySwaps(order, ks)[i] as real
    decreases |ks|
  {
    if ks != [] {
      SwapsCommuteWithReals(Swap(order, ks[0]), Swap(reals, ks[0]), ks[1..]);
    }
  }

  /** Any reordering of a vector is undone by adjacent swaps. */
  lemma SwapsUndoPermutation(order: seq<nat>, n: nat) returns (ks: seq<nat>)
    requires IsPermutation(order, n)
    ensures InBounds(n, ks)
    ensures forall v: Vec :: |v| == n ==> ApplySwaps(Gather(v, order), ks) == v
  {
    var reals := seq(n, i requires 0 <= i < n => order[i] as real);
    ks := SortBySwaps(reals);
    SwapsCommuteWithReals(order, reals, ks);
    var sorted := ApplySwaps(order, ks);
    forall v: Vec | |v| == n
      ensures ApplySwaps(Gather(v, order), ks) == v
    {
      SwapsCommuteWithGather(v, order, ks);
      forall i | 0 <= i < n
        ensures sorted[i] == i
      {
        assert forall a, b :: 0 <= a < b < n ==> ApplySwaps(reals, ks)[a] <= ApplySwaps(reals, ks)[b];
        IdentityPrefix(sorted, n, i);
        IdentitySuffix(sorted, n, i);
      }
      assert Gather(v, sorted) == v;
    }
  }
}
