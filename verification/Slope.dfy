/** The SLOPE family of examples/workflow-smoke/solver.py on its identity design,
    against the sorted-L1 objective of examples/workflow-smoke/evaluator.py. */
module Slope {
  import opened Vectors
  import opened Isotonic
  import opened Permutations
  import opened Rearrangement
  import ClusteredLasso

  function Negate(v: Vec): (w: Vec)
    ensures |w| == |v| && forall i :: 0 <= i < |v| ==> w[i] == -v[i]
  {
    seq(|v|, i requires 0 <= i < |v| => -v[i])
  }

  /** -|b|, entry by entry: the sort key of the solver. */
  function NegatedMagnitudes(b: Vec): (c: Vec)
    ensures |c| == |b| && forall i :: 0 <= i < |b| ==> c[i] == -Abs(b[i])
  {
    seq(|b|, i requires 0 <= i < |b| => -Abs(b[i]))
  }

  function Insert(x: real, s: Vec): (t: Vec)
    ensures |t| == |s| + 1
  {
    if s == [] || x <= s[0] then [x] + s else [s[0]] + Insert(x, s[1..])
  }

  function Sort(v: Vec): (t: Vec)
    ensures |t| == |v|
  {
    if v == [] then [] else Insert(v[0], Sort(v[1..]))
  }

  /** sorted(map(abs, beta), reverse=True) */
  function SortedMagnitudes(b: Vec): (m: Vec)
    ensures |m| == |b|
  {
    Negate(Sort(NegatedMagnitudes(b)))
  }

  /** The evaluator's objective on the identity design. */
  function Objective(y: Vec, weights: Vec, b: Vec): real
    requires |y| == |weights| == |b| > 0
  {
    SqDist(b, y) / 2.0 / (|y| as real) + Dot(weights, SortedMagnitudes(b))
  }

  // ----- the evaluator's sort -----

  lemma {:induction false} InsertIntoSorted(x: real, s: Vec)
    requires Nondecreasing(s)
    ensures Nondecreasing(Insert(x, s))
    ensures s != [] ==> Insert(x, s)[0] == if x <= s[0] then x else s[0]
  {
    if s == [] || x <= s[0] {
    } else {
      NondecreasingTail(s);
      InsertIntoSorted(x, s[1..]);
      var rest := Insert(x, s[1..]);
      assert s[0] <= rest[0] by {
        if |s| > 1 {
          assert s[0] <= s[1] == s[1..][0];
        }
      }
      NondecreasingCons(s[0], rest);
    }
  }

  lemma NondecreasingCons(x: real, s: Vec)
    requires Nondecreasing(s) && s != [] && x <= s[0]
    ensures Nondecreasing([x] + s)
  {}

  lemma {:induction false} InsertKeeps(x: real, s: Vec)
    ensures multiset(Insert(x, s)) == multiset(s) + multiset{x}
  {
    if s == [] || x <= s[0] {
    } else {
      InsertKeeps(x, s[1..]);
      assert s == [s[0]] + s[1..];
    }
  }

  lemma NondecreasingTail(s: Vec)
    requires Nondecreasing(s) && s != []
    ensures Nondecreasing(s[1..])
  {
    NondecreasingSplit(s, 1);
  }

  lemma {:induction false} SortSorts(v: Vec)
    ensures Nondecreasing(Sort(v)) && multiset(Sort(v)) == multiset(v)
  {
    if v != [] {
      SortSorts(v[1..]);
      InsertIntoSorted(v[0], Sort(v[1..]));
      InsertKeeps(v[0], Sort(v[1..]));
      assert v == [v[0]] + v[1..];
    }
  }

  lemma {:induction false} SortOfSorted(v: Vec)
    requires Nondecreasing(v)
    ensures Sort(v) == v
  {
    if v != [] {
      NondecreasingTail(v);
      SortOfSorted(v[1..]);
      if |v| > 1 {
        assert v[0] <= v[1] == v[1..][0];
      }
    }
  }

  lemma {:induction false} InsertsCommute(x: real, y: real, s: Vec)
    requires Nondecreasing(s)
    ensures Insert(x, Insert(y, s)) == Insert(y, Insert(x, s))
  {
    if s == [] || (x <= s[0] && y <= s[0]) {
    } else {
      NondecreasingTail(s);
      InsertsCommute(x, y, s[1..]);
      InsertIntoSorted(x, s[1..]);
      InsertIntoSorted(y, s[1..]);
      assert ([s[0]] + Insert(x, s[1..]))[1..] == Insert(x, s[1..]);
      assert ([s[0]] + Insert(y, s[1..]))[1..] == Insert(y, s[1..]);
      assert ([x] + s)[1..] == s && ([y] + s)[1..] == s;
    }
  }

  lemma {:induction false} SortSwap(v: Vec, k: nat)
    requires k + 1 < |v|
    ensures Sort(Swap(v, k)) == Sort(v)
  {
    var c := Swap(v, k);
    if k == 0 {
      var rest := v[2..];
      assert v[1..][1..] == rest && c[1..][1..] == rest;
      assert v[1..][0] == v[1] && c[1..][0] == c[1];
      SortSorts(rest);
      InsertsCommute(v[0], v[1], Sort(rest));
    } else {
      assert c[1..] == Swap(v[1..], k - 1);
      SortSwap(v[1..], k - 1);
    }
  }

  /** The sorted magnitudes are the magnitudes in descending order. */
  lemma SortedMagnitudesDescend(b: Vec)
    ensures Nondecreasing(Negate(SortedMagnitudes(b)))
    ensures multiset(Negate(SortedMagnitudes(b))) == multiset(NegatedMagnitudes(b))
  {
    var c := NegatedMagnitudes(b);
    SortSorts(c);
    assert Negate(SortedMagnitudes(b)) == Sort(c);
  }

  // ----- the problem on negated magnitudes -----

  /** Half the squared distance to q, minus the weighted sorted entries of c. */
  function Folded(q: Vec, weights: Vec, c: Vec): real
    requires |q| == |weights| == |c|
  {
    SqDist(q, c) / 2.0 - Dot(weights, Sort(c))
  }

  lemma {:induction false} SwapsImprove(q: Vec, weights: Vec, c: Vec, ks: seq<nat>)
    requires |q| == |weights| == |c| && Nondecreasing(q) && InBounds(|c|, ks) && SwapsInversions(c, ks)
    ensures Folded(q, weights, ApplySwaps(c, ks)) <= Folded(q, weights, c)
    decreases |ks|
  {
    hide SqDist;
    hide Dot;
    hide Sort;
    if ks != [] {
      SwapsImprove(q, weights, Swap(c, ks[0]), ks[1..]);
      SortSwap(c, ks[0]);
      SwapBringsCloser(q, c, ks[0]);
    }
  }

  lemma {:induction false} SwapsPreserve(q: Vec, weights: Vec, c: Vec, ks: seq<nat>)
    requires |q| == |weights| == |c| && InBounds(|c|, ks)
    ensures Folded(ApplySwaps(q, ks), weights, ApplySwaps(c, ks)) == Folded(q, weights, c)
    decreases |ks|
  {
    hide SqDist;
    hide Dot;
    hide Sort;
    if ks != [] {
      SwapsPreserve(Swap(q, ks[0]), weights, Swap(c, ks[0]), ks[1..]);
      SortSwap(c, ks[0]);
      SwapBoth(q, c, ks[0]);
    }
  }

  lemma OrderIsIrrelevant(q: Vec, weights: Vec, c: Vec, order: seq<nat>)
    requires |q| == |weights| == |c| && IsPermutation(order, |q|)
    ensures Folded(Gather(q, order), weights, Gather(c, order)) == Folded(q, weights, c)
  {
    hide Folded;
    hide ApplySwaps;
    var ks := SwapsUndoPermutation(order, |q|);
    SwapsPreserve(Gather(q, order), weights, Gather(c, order), ks);
    assert ApplySwaps(Gather(q, order), ks) == q && ApplySwaps(Gather(c, order), ks) == c;
  }

  /** min(t, 0), entry by entry. */
  function NegativePart(t: Vec): (z: Vec)
    ensures |z| == |t| && forall i :: 0 <= i < |t| ==> z[i] == if t[i] < 0.0 then t[i] else 0.0
  {
    seq(|t|, i requires 0 <= i < |t| => if t[i] < 0.0 then t[i] else 0.0)
  }

  lemma {:induction false} PartsAreOrthogonal(t: Vec)
    ensures Dot(Sub(t, NegativePart(t)), NegativePart(t)) == 0.0
  {
    hide Times;
    if t != [] {
      var z := NegativePart(t);
      var r := Sub(t, z);
      assert z[1..] == NegativePart(t[1..]);
      assert r[1..] == Sub(t[1..], z[1..]);
      PartsAreOrthogonal(t[1..]);
      TimesUnits(z[0]);
      TimesUnits(r[0]);
    }
  }

  lemma {:induction false} OppositeSigns(r: Vec, c: Vec)
    requires |r| == |c| && forall i :: 0 <= i < |r| ==> r[i] >= 0.0 && c[i] <= 0.0
    ensures Dot(r, c) <= 0.0
  {
    hide Times;
    if r != [] {
      assert forall i :: 0 <= i < |r| - 1 ==> r[1..][i] == r[i + 1] && c[1..][i] == c[i + 1];
      OppositeSigns(r[1..], c[1..]);
      TimesMonotone(c[0], 0.0, r[0]);
      TimesUnits(r[0]);
    }
  }

  /** q - z, the weights and the two residuals along a vector b. */
  lemma ResidualParts(q: Vec, weights: Vec, t: Vec, z: Vec, b: Vec)
    requires |q| == |weights| == |t| == |z| == |b|
    ensures Dot(Sub(q, z), b) + Dot(weights, b) == Dot(Sub(Add(weights, q), t), b) + Dot(Sub(t, z), b)
  {
    hide Dot;
    DotSub(q, z, b);
    DotSub(Add(weights, q), t, b);
    DotAdd(weights, q, b);
    DotSub(t, z, b);
  }

  lemma NegativePartFits(s: Vec, t: Vec)
    requires IsIsotonicFit(s, t)
    ensures Nondecreasing(NegativePart(t)) && Dot(Sub(s, t), NegativePart(t)) == 0.0
  {
    hide Dot;
    var z, g := NegativePart(t), Sub(s, t);
    var r := Sub(t, z);
    assert Nondecreasing(z) && Nondecreasing(r);
    assert t == Add(z, r);
    DotCommutes(g, t);
    DotAdd(z, r, g);
    DotCommutes(z, g);
    DotCommutes(r, g);
    assert Dot(g, z) <= 0.0 && Dot(g, r) <= 0.0;
  }

  /** For a sorted point, the negative part of the isotonic fit of weights + q
      beats every sorted, nonpositive competitor. */
  lemma SortedStepBeats(q: Vec, weights: Vec, t: Vec, c: Vec)
    requires |q| == |weights| == |c| && IsIsotonicFit(Add(weights, q), t)
    requires Nondecreasing(c) && forall i :: 0 <= i < |c| ==> c[i] <= 0.0
    ensures Folded(q, weights, NegativePart(t)) <= Folded(q, weights, c)
  {
    hide Dot;
    hide Sort;
    hide NegativePart;
    hide Nondecreasing;
    hide Sub;
    var s := Add(weights, q);
    ClusteredLasso.FitShape(s, t);
    var z := NegativePart(t);
    NegativePartFits(s, t);
    ClusteredLasso.FitAlong(s, t, c);
    hide IsIsotonicFit;
    hide Add;
    SortOfSorted(z);
    SortOfSorted(c);
    ResidualParts(q, weights, t, z, z);
    ResidualParts(q, weights, t, z, c);
    PartsAreOrthogonal(t);
    OppositeSigns(Sub(t, z), c);
    SqDistAround(q, z, c);
    ClusteredLasso.DistanceNonNegative(z, c);
    hide SqDist;
    DotCommutes(Sub(q, z), Sub(z, c));
    DotSub(z, c, Sub(q, z));
    DotCommutes(z, Sub(q, z));
    DotCommutes(c, Sub(q, z));
  }

  ghost predicate IsFoldedMinimiser(q: Vec, weights: Vec, z: Vec)
    requires |q| == |weights|
  {
    && |z| == |q|
    && forall c: Vec :: |c| == |q| && (forall i :: 0 <= i < |c| ==> c[i] <= 0.0) ==>
         Folded(q, weights, z) <= Folded(q, weights, c)
  }

  lemma {:induction false} SwapsKeepSign(c: Vec, ks: seq<nat>)
    requires InBounds(|c|, ks) && forall i :: 0 <= i < |c| ==> c[i] <= 0.0
    ensures forall i :: 0 <= i < |c| ==> ApplySwaps(c, ks)[i] <= 0.0
    decreases |ks|
  {
    if ks != [] {
      SwapsKeepSign(Swap(c, ks[0]), ks[1..]);
    }
  }

  lemma SortedStepIsMinimiser(q: Vec, weights: Vec, t: Vec)
    requires |q| == |weights| && Nondecreasing(q) && IsIsotonicFit(Add(weights, q), t)
    ensures IsFoldedMinimiser(q, weights, NegativePart(t))
  {
    hide Folded;
    hide ApplySwaps;
    hide IsIsotonicFit;
    hide Nondecreasing;
    ClusteredLasso.FitShape(Add(weights, q), t);
    forall c: Vec | |c| == |q| && forall i :: 0 <= i < |c| ==> c[i] <= 0.0
      ensures Folded(q, weights, NegativePart(t)) <= Folded(q, weights, c)
    {
      var ks := SortBySwaps(c);
      SwapsImprove(q, weights, c, ks);
      SwapsKeepSign(c, ks);
      SortedStepBeats(q, weights, t, ApplySwaps(c, ks));
    }
  }

  lemma Unsort(q: Vec, weights: Vec, order: seq<nat>, z: Vec)
    requires |z| == |q| == |weights| && IsPermutation(order, |q|)
    requires IsFoldedMinimiser(Gather(q, order), weights, Gather(z, order))
    ensures IsFoldedMinimiser(q, weights, z)
  {
    hide Folded;
    forall c: Vec | |c| == |q| && forall i :: 0 <= i < |c| ==> c[i] <= 0.0
      ensures Folded(q, weights, z) <= Folded(q, weights, c)
    {
      OrderIsIrrelevant(q, weights, z, order);
      OrderIsIrrelevant(q, weights, c, order);
      assert |Gather(c, order)| == |q|;
    }
  }

  // ----- back to signed coefficients -----

  lemma SignedSquare(y: real, b: real)
    ensures Times(Abs(y) - Abs(b), Abs(y) - Abs(b)) <= Times(b - y, b - y)
    ensures (b == 0.0 || (b >= 0.0) == (y >= 0.0)) ==> Times(Abs(y) - Abs(b), Abs(y) - Abs(b)) == Times(b - y, b - y)
  {
    hide Times;
    var d, e := Abs(y) - Abs(b), b - y;
    TimesNegate(d, d);
    TimesNegate(e, e);
    TimesNegate(d, -d);
    TimesNegate(e, -e);
    SquareMonotone(Abs(d), Abs(e));
  }

  lemma SquareMonotone(a: real, b: real)
    requires 0.0 <= a <= b
    ensures Times(a, a) <= Times(b, b)
  {
    hide Times;
    TimesMonotone(a, b, a);
    TimesMonotone(a, b, b);
  }

  ghost predicate SameSigns(y: Vec, b: Vec)
    requires |y| == |b|
  {
    forall i :: 0 <= i < |b| ==> b[i] == 0.0 || (b[i] >= 0.0) == (y[i] >= 0.0)
  }

  lemma FoldTails(y: Vec, b: Vec)
    requires |y| == |b| > 0
    ensures
      NegatedMagnitudes(y)[1..] == NegatedMagnitudes(y[1..]) && NegatedMagnitudes(b)[1..] == NegatedMagnitudes(b[1..])
    ensures
      Sub(NegatedMagnitudes(y), NegatedMagnitudes(b))[1..] == Sub(NegatedMagnitudes(y)[1..], NegatedMagnitudes(b)[1..])
    ensures Sub(b, y)[1..] == Sub(b[1..], y[1..])
    ensures
      var d, e := Sub(NegatedMagnitudes(y), NegatedMagnitudes(b))[0], Sub(b, y)[0];
      Times(d, d) <= Times(e, e) && (b[0] == 0.0 || (b[0] >= 0.0) == (y[0] >= 0.0) ==> Times(d, d) == Times(e, e))
  {
    hide Times;
    hide Abs;
    var d := Abs(y[0]) - Abs(b[0]);
    SignedSquare(y[0], b[0]);
    TimesNegate(d, -d);
    TimesNegate(d, d);
  }

  /** Dropping signs never increases the distance, and keeps it when the signs
      agree. */
  lemma {:induction false} FoldDistance(y: Vec, b: Vec)
    requires |y| == |b|
    ensures SqDist(NegatedMagnitudes(y), NegatedMagnitudes(b)) <= SqDist(b, y)
  {
    hide Times;
    hide Sub;
    hide NegatedMagnitudes;
    if y != [] {
      FoldTails(y, b);
      FoldDistance(y[1..], b[1..]);
    }
  }

  lemma {:induction false} FoldKeepsDistance(y: Vec, b: Vec)
    requires |y| == |b| && SameSigns(y, b)
    ensures SqDist(NegatedMagnitudes(y), NegatedMagnitudes(b)) == SqDist(b, y)
  {
    hide Times;
    hide Sub;
    hide NegatedMagnitudes;
    if y != [] {
      FoldTails(y, b);
      FoldKeepsDistance(y[1..], b[1..]);
    }
  }

  /** n times the objective, on negated magnitudes. */
  lemma {:induction false} NegateDot(a: Vec, b: Vec)
    requires |a| == |b|
    ensures Dot(a, Negate(b)) == -Dot(a, b)
  {
    hide Times;
    if a != [] {
      assert Negate(b)[1..] == Negate(b[1..]);
      NegateDot(a[1..], b[1..]);
      TimesNegate(a[0], b[0]);
    }
  }

  lemma ObjectiveFolds(y: Vec, weights: Vec, b: Vec)
    requires |y| == |weights| == |b| > 0
    ensures
      var n := |y| as real;
      Times(n, Objective(y, weights, b)) - SqDist(b, y) / 2.0 ==
      Folded(NegatedMagnitudes(y), Scale(n, weights), NegatedMagnitudes(b)) -
      SqDist(NegatedMagnitudes(y), NegatedMagnitudes(b)) / 2.0
  {
    hide Dot;
    hide SqDist;
    hide Sort;
    var n := |y| as real;
    var half := SqDist(b, y) / 2.0;
    QuotientTimes(half, n);
    hide Times;
    var c := NegatedMagnitudes(b);
    TimesAdd(n, half / n, Dot(weights, SortedMagnitudes(b)), Objective(y, weights, b));
    NegateDot(weights, Sort(c));
    DotScale(n, weights, Sort(c));
    TimesNegate(n, Dot(weights, Sort(c)));
  }

  /** The slope branch of solve(): sort by magnitude, shift by the weights, pool,
      clip at zero and restore the signs. The result minimises the evaluator's
      objective over every coefficient vector. */
  method Solve(y: Vec, weights: Vec) returns (beta: Vec)
    requires |y| == |weights| > 0
    ensures |beta| == |y|
    ensures forall b: Vec :: |b| == |y| ==> Objective(y, weights, beta) <= Objective(y, weights, b)
  {
    hide Objective;
    hide IsIsotonicFit;
    hide Nondecreasing;
    hide SqDist;
    hide Times;
    hide Sum;
    hide IsFoldedMinimiser;
    hide Add;
    var n := |y|;
    var keys := NegatedMagnitudes(y);
    var order := ClusteredLasso.ArgSort(keys);
    ghost var q := Gather(keys, order);
    var shifted := seq(n, k requires 0 <= k < n => Abs(Gather(y, order)[k]) - Times(n as real, weights[k]));
    var pooled, _ := Pool(Negate(shifted));
    assert Negate(shifted) == Add(Scale(n as real, weights), q);
    var projected := Negate(pooled);
    var cells := new real[n](_ => 0.0);
    for k := 0 to n
      invariant forall k' :: 0 <= k' < k ==> cells[order[k']] == Restored(projected[k'], y[order[k']])
    {
      cells[order[k]] := Restored(projected[k], y[order[k]]);
    }
    beta := cells[..];
    var c := NegatedMagnitudes(beta);
    forall k | 0 <= k < n
      ensures Gather(c, order)[k] == NegativePart(pooled)[k]
    {
      RestoredMagnitude(projected[k], y[order[k]]);
    }
    assert Gather(c, order) == NegativePart(pooled);
    SortedStepIsMinimiser(q, Scale(n as real, weights), pooled);
    Unsort(keys, Scale(n as real, weights), order, c);
    SignsAgree(y, projected, order, beta);
    MinimiserUnfolds(y, weights, beta);
  }

  /** max(value, 0) * (1 if y >= 0 else -1) */
  function Restored(value: real, y: real): real {
    Times(ClusteredLasso.Max(value, 0.0), if y >= 0.0 then 1.0 else -1.0)
  }

  lemma RestoredMagnitude(value: real, y: real)
    ensures Abs(Restored(value, y)) == ClusteredLasso.Max(value, 0.0)
    ensures Restored(value, y) == 0.0 || (Restored(value, y) >= 0.0) == (y >= 0.0)
  {
    hide Times;
    TimesUnits(ClusteredLasso.Max(value, 0.0));
  }

  lemma {:induction false} SwappedMember(v: Vec, ks: seq<nat>, i: nat) returns (k: nat)
    requires InBounds(|v|, ks) && i < |v|
    ensures k < |v| && v[k] == ApplySwaps(v, ks)[i]
    decreases |ks|
  {
    if ks == [] {
      k := i;
    } else {
      var a := ks[0];
      k := SwappedMember(Swap(v, a), ks[1..], i);
      k := if k == a then a + 1 else if k == a + 1 then a else k;
    }
  }

  /** Every index is listed by a permutation. */
  lemma PermutationCovers(order: seq<nat>, n: nat, i: nat) returns (k: nat)
    requires IsPermutation(order, n) && i < n
    ensures k < n && order[k] == i
  {
    var ks := SwapsUndoPermutation(order, n);
    var indices: Vec := seq(n, j requires 0 <= j < n => j as real);
    assert ApplySwaps(Gather(indices, order), ks) == indices;
    k := SwappedMember(Gather(indices, order), ks, i);
    assert order[k] as real == i as real;
  }

  lemma SignsAgree(y: Vec, projected: Vec, order: seq<nat>, beta: Vec)
    requires |beta| == |y| == |projected| && IsPermutation(order, |y|)
    requires forall k :: 0 <= k < |y| ==> beta[order[k]] == Restored(projected[k], y[order[k]])
    ensures SameSigns(y, beta)
  {
    hide Restored;
    forall i | 0 <= i < |y|
      ensures beta[i] == 0.0 || (beta[i] >= 0.0) == (y[i] >= 0.0)
    {
      var k := PermutationCovers(order, |y|, i);
      RestoredMagnitude(projected[k], y[order[k]]);
    }
  }

  lemma MinimiserUnfolds(y: Vec, weights: Vec, beta: Vec)
    requires |y| == |weights| == |beta| > 0 && SameSigns(y, beta)
    requires IsFoldedMinimiser(NegatedMagnitudes(y), Scale(|y| as real, weights), NegatedMagnitudes(beta))
    ensures forall b: Vec :: |b| == |y| ==> Objective(y, weights, beta) <= Objective(y, weights, b)
  {
    hide Objective;
    hide Folded;
    hide SqDist;
    hide Times;
    var n := |y| as real;
    FoldKeepsDistance(y, beta);
    ObjectiveFolds(y, weights, beta);
    forall b: Vec | |b| == |y|
      ensures Objective(y, weights, beta) <= Objective(y, weights, b)
    {
      FoldDistance(y, b);
      ObjectiveFolds(y, weights, b);
      assert |NegatedMagnitudes(b)| == |y|;
      if Objective(y, weights, b) < Objective(y, weights, beta) {
        TimesStrict(Objective(y, weights, b), Objective(y, weights, beta), n);
      }
    }
  }
}
