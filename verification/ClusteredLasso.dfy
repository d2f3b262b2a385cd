/** The clustered-lasso family of examples/workflow-smoke/solver.py against the
    objective of examples/workflow-smoke/evaluator.py, over the reals. */
module ClusteredLasso {
  import opened Vectors
  import opened Matrices
  import opened Isotonic
  import opened Permutations
  import opened Rearrangement

  function Max(a: real, b: real): real {
    if a >= b then a else b
  }

  /** soft(value, penalty) */
  function Soft(value: real, penalty: real): real {
    Max(value - penalty, 0.0) - Max(-value - penalty, 0.0)
  }

  function SoftAll(u: Vec, penalty: real): (w: Vec)
    ensures |w| == |u| && forall i :: 0 <= i < |u| ==> w[i] == Soft(u[i], penalty)
  {
    seq(|u|, i requires 0 <= i < |u| => Soft(u[i], penalty))
  }

  // ----- the evaluator's penalty -----

  /** fsum(map(abs, beta)) */
  function L1(b: Vec): real {
    if b == [] then 0.0 else Abs(b[0]) + L1(b[1..])
  }

  /** The pairs of one element with the ones after it. */
  function PairsWith(a: real, rest: Vec): real {
    if rest == [] then 0.0 else Abs(a - rest[0]) + PairsWith(a, rest[1..])
  }

  /** fsum(abs(a - b) for i, a in enumerate(beta) for b in beta[i + 1 :]) */
  function Pairs(b: Vec): real {
    if b == [] then 0.0 else PairsWith(b[0], b[1..]) + Pairs(b[1..])
  }

  function Penalty(l1: real, fusion: real, b: Vec): real {
    Times(l1, L1(b)) + Times(fusion, Pairs(b))
  }

  /** The evaluator's objective for this family. */
  function Objective(x: Mat, y: Vec, l1: real, fusion: real, b: Vec): real
    requires Rectangular(x, |b|) && |x| == |y|
  {
    Loss(x, y, b) / 2.0 + Penalty(l1, fusion, b)
  }

  /** What one proximal step is meant to minimise over b. */
  function ProxObjective(p: Vec, l1: real, fusion: real, b: Vec): real
    requires |p| == |b|
  {
    SqDist(p, b) / 2.0 + Penalty(l1, fusion, b)
  }

  ghost predicate IsProx(p: Vec, l1: real, fusion: real, w: Vec) {
    |w| == |p| && forall b: Vec :: |b| == |p| ==> ProxObjective(p, l1, fusion, w) <= ProxObjective(p, l1, fusion, b)
  }

  // ----- the sorted form of the pairwise penalty -----

  /** 2k - (n - 1) for k below n. */
  function RankWeights(n: nat): (c: Vec)
    ensures |c| == n && forall k :: 0 <= k < n ==> c[k] == (2 * k - (n - 1)) as real
  {
    seq(n, k => (2 * k - (n - 1)) as real)
  }

  lemma {:induction false} PairsWithSmallest(a: real, rest: Vec)
    requires forall i :: 0 <= i < |rest| ==> a <= rest[i]
    ensures PairsWith(a, rest) == Sum(rest) - Times(|rest| as real, a)
  {
    hide Times;
    TimesUnits(a);
    if rest != [] {
      assert forall i :: 0 <= i < |rest| - 1 ==> rest[1..][i] == rest[i + 1];
      PairsWithSmallest(a, rest[1..]);
      TimesAdd(a, (|rest| - 1) as real, 1.0, |rest| as real);
    }
  }

  /** On a sorted vector the explicit sum over unordered pairs equals the
      rank-weighted sum the solver shifts by. */
  lemma {:induction false} PairsOfSorted(b: Vec)
    requires Nondecreasing(b)
    ensures Pairs(b) == Dot(RankWeights(|b|), b)
  {
    hide Times;
    hide RankWeights;
    hide Add;
    hide Constant;
    if b != [] {
      var n, tail := |b|, b[1..];
      assert forall i, j :: 0 <= i <= j < |tail| ==> tail[i] == b[i + 1] && tail[j] == b[j + 1] && b[i + 1] <= b[j + 1];
      PairsOfSorted(tail);
      assert forall i :: 0 <= i < |tail| ==> tail[i] == b[i + 1] && b[0] <= b[i + 1];
      PairsWithSmallest(b[0], tail);
      RankWeightsTail(n);
      DotAdd(RankWeights(n - 1), Constant(1.0, n - 1), tail);
      DotCommutes(Constant(1.0, n - 1), tail);
      DotConstant(tail, 1.0);
      TimesUnits(Sum(tail));
      FirstRank(n, b[0]);
    }
  }

  lemma FirstRank(n: nat, a: real)
    requires n > 0
    ensures Times(RankWeights(n)[0], a) == -Times((n - 1) as real, a)
  {
    hide Times;
    TimesSub(a, 0.0, (n - 1) as real, RankWeights(n)[0]);
    TimesUnits(a);
  }

  lemma RankWeightsTail(n: nat)
    requires n > 0
    ensures RankWeights(n)[1..] == Add(RankWeights(n - 1), Constant(1.0, n - 1))
  {}

  // ----- soft thresholding -----

  /** Soft thresholding splits u into a part w and a remainder within the
      penalty that is aligned with w. Both parts move with u. */
  lemma SoftParts(u: real, penalty: real)
    requires penalty >= 0.0
    ensures
      var w, r := Soft(u, penalty), u - Soft(u, penalty);
      -penalty <= r <= penalty && Times(r, w) == Times(penalty, Abs(w))
  {
    hide Times;
    var w := Soft(u, penalty);
    TimesUnits(penalty);
    TimesUnits(u - w);
    if w < 0.0 {
      TimesSub(w, 0.0, penalty, u - w);
      TimesSub(penalty, 0.0, w, -w);
      TimesUnits(w);
    }
  }

  lemma SoftMoves(u: real, v: real, penalty: real)
    requires u <= v && penalty >= 0.0
    ensures Soft(u, penalty) <= Soft(v, penalty) && u - Soft(u, penalty) <= v - Soft(v, penalty)
  {}

  lemma {:induction false} RemainderAligned(u: Vec, penalty: real)
    requires penalty >= 0.0
    ensures Dot(Sub(u, SoftAll(u, penalty)), SoftAll(u, penalty)) == Times(penalty, L1(SoftAll(u, penalty)))
  {
    hide Times;
    hide Soft;
    TimesUnits(penalty);
    if u != [] {
      var w := SoftAll(u, penalty);
      var r := Sub(u, w);
      assert w[1..] == SoftAll(u[1..], penalty);
      assert r[1..] == Sub(u[1..], w[1..]);
      RemainderAligned(u[1..], penalty);
      SoftParts(u[0], penalty);
      TimesAdd(penalty, Abs(w[0]), L1(w[1..]), L1(w));
    }
  }

  lemma {:induction false} RemainderBounded(r: Vec, penalty: real, b: Vec)
    requires |r| == |b| && forall i :: 0 <= i < |r| ==> -penalty <= r[i] <= penalty
    ensures Dot(r, b) <= Times(penalty, L1(b))
  {
    hide Times;
    TimesUnits(penalty);
    if r != [] {
      assert forall i :: 0 <= i < |r| - 1 ==> r[1..][i] == r[i + 1];
      RemainderBounded(r[1..], penalty, b[1..]);
      TimesAdd(penalty, Abs(b[0]), L1(b[1..]), L1(b));
      BoundedProduct(r[0], penalty, b[0]);
    }
  }

  lemma BoundedProduct(r: real, penalty: real, b: real)
    requires -penalty <= r <= penalty
    ensures Times(r, b) <= Times(penalty, Abs(b))
  {
    hide Times;
    if b >= 0.0 {
      TimesMonotone(r, penalty, b);
    } else {
      TimesMonotone(-penalty, r, -b);
      TimesSub(-penalty, 0.0, b, -b);
      TimesSub(r, 0.0, b, -b);
      TimesSub(b, 0.0, penalty, -penalty);
      TimesSub(penalty, 0.0, b, -b);
      TimesUnits(-penalty);
      TimesUnits(penalty);
      TimesUnits(r);
      TimesUnits(b);
    }
  }

  // ----- the sorted proximal step -----

  /** point[k] + fusion * (n - 1 - 2k) */
  function Shifted(p: Vec, fusion: real): (s: Vec)
    ensures |s| == |p| && forall k :: 0 <= k < |p| ==> s[k] == p[k] + Times(fusion, (|p| as int - 1 - 2 * k) as real)
  {
    seq(|p|, k requires 0 <= k < |p| => p[k] + Times(fusion, (|p| as int - 1 - 2 * k) as real))
  }

  lemma ShiftedIsSub(p: Vec, fusion: real)
    ensures Shifted(p, fusion) == Sub(p, Scale(fusion, RankWeights(|p|)))
  {
    hide Times;
    hide Shifted;
    hide RankWeights;
    hide Scale;
    hide Sub;
    var n := |p|;
    forall k | 0 <= k < n
      ensures Shifted(p, fusion)[k] == Sub(p, Scale(fusion, RankWeights(n)))[k]
    {
      var c := RankWeights(n)[k];
      TimesSub(fusion, 0.0, c, -c);
      TimesUnits(fusion);
      assert Sub(p, Scale(fusion, RankWeights(n)))[k] == p[k] - Scale(fusion, RankWeights(n))[k];
    }
  }

  lemma PartsAscend(u: Vec, penalty: real)
    requires Nondecreasing(u) && penalty >= 0.0
    ensures Nondecreasing(SoftAll(u, penalty)) && Nondecreasing(Sub(u, SoftAll(u, penalty)))
  {
    hide Soft;
    hide Sub;
    hide SoftAll;
    forall i, j | 0 <= i <= j < |u|
      ensures SoftAll(u, penalty)[i] <= SoftAll(u, penalty)[j]
      ensures Sub(u, SoftAll(u, penalty))[i] <= Sub(u, SoftAll(u, penalty))[j]
    {
      SoftMoves(u[i], u[j], penalty);
    }
  }

  /** The pooled residual is orthogonal to the thresholded part as well: both
      parts of u are nondecreasing and their sum is orthogonal. */
  lemma ResidualOrthogonalToSoft(s: Vec, u: Vec, penalty: real)
    requires IsIsotonicFit(s, u) && penalty >= 0.0
    ensures Dot(Sub(s, u), SoftAll(u, penalty)) == 0.0
  {
    hide Dot;
    hide Soft;
    PartsAscend(u, penalty);
    var g, w := Sub(s, u), SoftAll(u, penalty);
    var r := Sub(u, w);
    assert u == Add(w, r);
    DotCommutes(g, u);
    DotAdd(w, r, g);
    DotCommutes(w, g);
    DotCommutes(r, g);
    FitAlong(s, u, w);
    FitAlong(s, u, r);
  }

  lemma FitAlong(s: Vec, u: Vec, b: Vec)
    requires IsIsotonicFit(s, u) && |b| == |s| && Nondecreasing(b)
    ensures Dot(Sub(s, u), b) <= 0.0
  {}

  /** p - w as the pooled residual, the fusion shift and the soft remainder. */
  lemma ThreeParts(p: Vec, fusion: real, u: Vec, w: Vec, b: Vec)
    requires |p| == |u| == |w| == |b|
    ensures
      Dot(Sub(p, w), b) ==
      Dot(Sub(Shifted(p, fusion), u), b) + Times(fusion, Dot(RankWeights(|p|), b)) + Dot(Sub(u, w), b)
  {
    hide Times;
    hide Dot;
    hide RankWeights;
    hide Shifted;
    hide Sub;
    ShiftedIsSub(p, fusion);
    var c := RankWeights(|p|);
    DotSub(p, w, b);
    DotSub(Shifted(p, fusion), u, b);
    DotSub(p, Scale(fusion, c), b);
    DotScale(fusion, c, b);
    DotSub(u, w, b);
  }

  /** For a nondecreasing competitor b, soft thresholding the isotonic fit of the
      shifted point is optimal, with a margin of half the squared distance. */
  lemma SortedStepBeats(p: Vec, l1: real, fusion: real, u: Vec, b: Vec)
    requires l1 >= 0.0 && IsIsotonicFit(Shifted(p, fusion), u) && |b| == |p| && Nondecreasing(b)
    ensures
      var w := SoftAll(u, l1);
      ProxObjective(p, l1, fusion, w) + SqDist(w, b) / 2.0 <= ProxObjective(p, l1, fusion, b)
  {
    hide Times;
    hide Dot;
    hide Soft;
    hide Shifted;
    hide RankWeights;
    hide IsIsotonicFit;
    hide Nondecreasing;
    hide L1;
    hide Pairs;
    hide SoftAll;
    hide Sub;
    var w := SoftAll(u, l1);
    FitShape(Shifted(p, fusion), u);
    SortedStepParts(p, l1, fusion, u, b);
    SqDistAround(p, w, b);
    DotCommutes(Sub(p, w), Sub(w, b));
    DotSub(w, b, Sub(p, w));
    DotCommutes(w, Sub(p, w));
    DotCommutes(b, Sub(p, w));
  }

  lemma FitShape(s: Vec, u: Vec)
    requires IsIsotonicFit(s, u)
    ensures |u| == |s| && Nondecreasing(u)
  {}

  /** p - w is a subgradient of the penalty at w, as far as nondecreasing vectors
      can tell. */
  lemma SortedStepParts(p: Vec, l1: real, fusion: real, u: Vec, b: Vec)
    requires l1 >= 0.0 && IsIsotonicFit(Shifted(p, fusion), u) && |u| == |b| == |p| && Nondecreasing(b)
    ensures
      var w := SoftAll(u, l1);
      Dot(Sub(p, w), w) == Penalty(l1, fusion, w) && Dot(Sub(p, w), b) <= Penalty(l1, fusion, b)
  {
    hide Times;
    hide Dot;
    hide Soft;
    hide Shifted;
    hide RankWeights;
    hide IsIsotonicFit;
    hide Nondecreasing;
    hide L1;
    hide Pairs;
    hide SoftAll;
    hide Sub;
    FitShape(Shifted(p, fusion), u);
    var w := SoftAll(u, l1);
    PartsAscend(u, l1);
    ThreeParts(p, fusion, u, w, w);
    ThreeParts(p, fusion, u, w, b);
    ResidualOrthogonalToSoft(Shifted(p, fusion), u, l1);
    FitAlong(Shifted(p, fusion), u, b);
    PairsOfSorted(w);
    PairsOfSorted(b);
    RemainderAligned(u, l1);
    forall i | 0 <= i < |u|
      ensures -l1 <= Sub(u, w)[i] <= l1
    {
      SoftParts(u[i], l1);
    }
    RemainderBounded(Sub(u, w), l1, b);
  }

  // ----- unsorted competitors -----

  lemma AbsSymmetric(a: real, b: real)
    ensures Abs(a - b) == Abs(b - a)
  {}

  lemma {:induction false} L1Swap(b: Vec, k: nat)
    requires k + 1 < |b|
    ensures L1(Swap(b, k)) == L1(b)
  {
    hide Abs;
    var c := Swap(b, k);
    if k == 0 {
      assert b[1..][0] == b[1] && c[1..][0] == c[1];
      assert c[1..][1..] == b[1..][1..];
    } else {
      assert c[1..] == Swap(b[1..], k - 1);
      L1Swap(b[1..], k - 1);
    }
  }

  lemma {:induction false} PairsWithSwap(a: real, b: Vec, k: nat)
    requires k + 1 < |b|
    ensures PairsWith(a, Swap(b, k)) == PairsWith(a, b)
  {
    hide Abs;
    var c := Swap(b, k);
    if k == 0 {
      assert b[1..][0] == b[1] && c[1..][0] == c[1];
      assert c[1..][1..] == b[1..][1..];
    } else {
      assert c[1..] == Swap(b[1..], k - 1);
      PairsWithSwap(a, b[1..], k - 1);
    }
  }

  lemma {:induction false} PairsSwap(b: Vec, k: nat)
    requires k + 1 < |b|
    ensures Pairs(Swap(b, k)) == Pairs(b)
  {
    hide Abs;
    var c := Swap(b, k);
    if k == 0 {
      var rest := b[2..];
      assert b[1..][1..] == rest && c[1..][1..] == rest;
      assert b[1..][0] == b[1] && c[1..][0] == c[1];
      AbsSymmetric(b[0], b[1]);
    } else {
      assert c[1..] == Swap(b[1..], k - 1);
      PairsSwap(b[1..], k - 1);
      PairsWithSwap(b[0], b[1..], k - 1);
    }
  }

  lemma {:induction false} SwapsImprove(p: Vec, l1: real, fusion: real, b: Vec, ks: seq<nat>)
    requires |p| == |b| && Nondecreasing(p) && InBounds(|b|, ks) && SwapsInversions(b, ks)
    ensures ProxObjective(p, l1, fusion, ApplySwaps(b, ks)) <= ProxObjective(p, l1, fusion, b)
    decreases |ks|
  {
    hide Times;
    hide SqDist;
    hide L1;
    hide Pairs;
    if ks != [] {
      var c := Swap(b, ks[0]);
      SwapsImprove(p, l1, fusion, c, ks[1..]);
      L1Swap(b, ks[0]);
      PairsSwap(b, ks[0]);
      SwapBringsCloser(p, b, ks[0]);
    }
  }

  lemma {:induction false} SwapsPreserve(p: Vec, l1: real, fusion: real, b: Vec, ks: seq<nat>)
    requires |p| == |b| && InBounds(|b|, ks)
    ensures ProxObjective(ApplySwaps(p, ks), l1, fusion, ApplySwaps(b, ks)) == ProxObjective(p, l1, fusion, b)
    decreases |ks|
  {
    hide Times;
    hide SqDist;
    hide L1;
    hide Pairs;
    if ks != [] {
      var q, c := Swap(p, ks[0]), Swap(b, ks[0]);
      SwapsPreserve(q, l1, fusion, c, ks[1..]);
      L1Swap(b, ks[0]);
      PairsSwap(b, ks[0]);
      SwapBoth(p, b, ks[0]);
    }
  }

  /** Reordering point and competitor alike changes nothing. */
  lemma OrderIsIrrelevant(p: Vec, l1: real, fusion: real, b: Vec, order: seq<nat>)
    requires |p| == |b| && IsPermutation(order, |p|)
    ensures ProxObjective(Gather(p, order), l1, fusion, Gather(b, order)) == ProxObjective(p, l1, fusion, b)
  {
    hide Times;
    hide SqDist;
    hide L1;
    hide Pairs;
    hide ApplySwaps;
    var ks := SwapsUndoPermutation(order, |p|);
    SwapsPreserve(Gather(p, order), l1, fusion, Gather(b, order), ks);
    assert ApplySwaps(Gather(p, order), ks) == p && ApplySwaps(Gather(b, order), ks) == b;
  }

  /** Soft thresholding the isotonic fit of the shifted, sorted point minimises
      the proximal objective over all vectors, sorted or not. */
  lemma SortedStepIsProx(p: Vec, l1: real, fusion: real, u: Vec)
    requires l1 >= 0.0 && Nondecreasing(p) && IsIsotonicFit(Shifted(p, fusion), u)
    ensures IsProx(p, l1, fusion, SoftAll(u, l1))
  {
    hide ProxObjective;
    hide Nondecreasing;
    hide IsIsotonicFit;
    hide Shifted;
    hide ApplySwaps;
    hide SqDist;
    FitShape(Shifted(p, fusion), u);
    var w := SoftAll(u, l1);
    forall b: Vec | |b| == |p|
      ensures ProxObjective(p, l1, fusion, w) <= ProxObjective(p, l1, fusion, b)
    {
      var ks := SortBySwaps(b);
      SwapsImprove(p, l1, fusion, b, ks);
      var c := ApplySwaps(b, ks);
      SortedStepBeats(p, l1, fusion, u, c);
      DistanceNonNegative(w, c);
    }
  }

  lemma DistanceNonNegative(a: Vec, b: Vec)
    requires |a| == |b|
    ensures SqDist(a, b) >= 0.0
  {
    SqNormNonNegative(Sub(a, b));
  }

  // ----- the step as the solver runs it -----

  /** i comes before j in sorted(range(n), key=point.__getitem__): smaller value,
      or equal value and smaller index. */
  predicate Before(p: Vec, i: nat, j: nat)
    requires i < |p| && j < |p|
  {
    p[i] < p[j] || (p[i] == p[j] && i < j)
  }

  ghost predicate SortedPrefix(p: Vec, order: seq<nat>) {
    && (forall k :: 0 <= k < |order| ==> order[k] < |p|)
    && (forall k, l :: 0 <= k < l < |order| ==> Before(p, order[k], order[l]))
  }

  /** sorted(range(len(point)), key=point.__getitem__), a stable sort. */
  method ArgSort(p: Vec) returns (order: seq<nat>)
    ensures IsPermutation(order, |p|) && SortedPrefix(p, order)
    ensures Nondecreasing(Gather(p, order))
  {
    order := [];
    for i := 0 to |p|
      invariant |order| == i && SortedPrefix(p, order)
      invariant forall k :: 0 <= k < i ==> order[k] < i
    {
      var at := i;
      while at > 0 && p[order[at - 1]] > p[i]
        invariant at <= i
        invariant forall k :: at <= k < i ==> Before(p, i, order[k])
      {
        at := at - 1;
      }
      InsertAt(p, order, i, at);
      order := order[..at] + [i] + order[at..];
    }
  }

  lemma InsertAt(p: Vec, order: seq<nat>, i: nat, at: nat)
    requires i < |p| && |order| == i && at <= i && SortedPrefix(p, order)
    requires forall k :: 0 <= k < i ==> order[k] < i
    requires forall k :: at <= k < i ==> Before(p, i, order[k])
    requires at > 0 ==> p[order[at - 1]] <= p[i]
    ensures SortedPrefix(p, order[..at] + [i] + order[at..])
  {
    forall k | 0 <= k < at
      ensures Before(p, order[k], i)
    {
      if k < at - 1 {
        assert Before(p, order[k], order[at - 1]);
      }
    }
  }

  method ProxStep(point: Vec, l1: real, fusion: real) returns (updated: Vec)
    requires l1 >= 0.0
    ensures IsProx(point, l1, fusion, updated)
  {
    hide IsProx;
    hide IsIsotonicFit;
    hide Nondecreasing;
    hide SqDist;
    hide Times;
    hide Soft;
    hide Sum;
    var n := |point|;
    var order := ArgSort(point);
    ghost var sorted := Gather(point, order);
    var shifted := seq(n, k requires 0 <= k < n =>
      Gather(point, order)[k] + Times(fusion, (n as int - 1 - 2 * k) as real));
    assert shifted == Shifted(sorted, fusion);
    var projected, _ := Pool(shifted);
    var cells := new real[n](_ => 0.0);
    for k := 0 to n
      invariant forall k' :: 0 <= k' < k ==> cells[order[k']] == Soft(projected[k'], l1)
    {
      cells[order[k]] := Soft(projected[k], l1);
    }
    updated := cells[..];
    assert Gather(updated, order) == SoftAll(projected, l1);
    SortedStepIsProx(sorted, l1, fusion, projected);
    Unsort(point, l1, fusion, order, updated);
  }

  lemma Unsort(p: Vec, l1: real, fusion: real, order: seq<nat>, w: Vec)
    requires |w| == |p| && IsPermutation(order, |p|) && IsProx(Gather(p, order), l1, fusion, Gather(w, order))
    ensures IsProx(p, l1, fusion, w)
  {
    hide ProxObjective;
    forall b: Vec | |b| == |p|
      ensures ProxObjective(p, l1, fusion, w) <= ProxObjective(p, l1, fusion, b)
    {
      OrderIsIrrelevant(p, l1, fusion, w, order);
      OrderIsIrrelevant(p, l1, fusion, b, order);
      assert |Gather(b, order)| == |p|;
    }
  }
}
