/** The proximal gradient loop of solve() for the clustered lasso: every step
    obeys one inequality from which descent, optimality of fixed points and a
    convergence rate follow. */
module ProximalGradient {
  import opened Vectors
  import opened Matrices
  import opened ClusteredLasso

  predicate WellFormed(x: Mat, y: Vec) {
    |x| > 0 && |x| == |y| && |x[0]| > 0 && Rectangular(x, |x[0]|) && Frobenius(x) > 0.0
  }

  // ----- the penalty is convex -----

  /** The vector a fraction t of the way from w to b. */
  function Mix(w: Vec, b: Vec, t: real): (m: Vec)
    requires |w| == |b|
    ensures |m| == |w| && forall i :: 0 <= i < |w| ==> m[i] == w[i] + Times(t, b[i] - w[i])
  {
    seq(|w|, i requires 0 <= i < |w| => w[i] + Times(t, b[i] - w[i]))
  }

  lemma AbsConvex(x: real, y: real, t: real, z: real)
    requires 0.0 <= t <= 1.0 && z == x + Times(t, y - x)
    ensures Abs(z) <= Abs(x) + Times(t, Abs(y) - Abs(x))
  {
    hide Times;
    var s := if z < 0.0 then -1.0 else 1.0;
    var dx := if z < 0.0 then Abs(x) + x else Abs(x) - x;
    var dy := if z < 0.0 then Abs(y) + y else Abs(y) - y;
    TimesNonNegative(1.0 - t, dx);
    TimesNonNegative(t, dy);
    TimesSub(dx, 1.0, t, 1.0 - t);
    TimesUnits(dx);
    if z < 0.0 {
      TimesAdd(t, dy - dx, -(y - x), Abs(y) - Abs(x));
      TimesSub(t, 0.0, y - x, -(y - x));
    } else {
      TimesAdd(t, dy - dx, y - x, Abs(y) - Abs(x));
    }
    TimesUnits(t);
    TimesSub(t, dy, dx, dy - dx);
  }

  lemma {:induction false} L1Convex(w: Vec, b: Vec, t: real)
    requires |w| == |b| && 0.0 <= t <= 1.0
    ensures L1(Mix(w, b, t)) <= L1(w) + Times(t, L1(b) - L1(w))
  {
    hide Times;
    hide Abs;
    TimesUnits(t);
    if w != [] {
      var m := Mix(w, b, t);
      assert m[1..] == Mix(w[1..], b[1..], t);
      L1Convex(w[1..], b[1..], t);
      AbsConvex(w[0], b[0], t, m[0]);
      TimesAdd(t, Abs(b[0]) - Abs(w[0]), L1(b[1..]) - L1(w[1..]), L1(b) - L1(w));
    }
  }

  lemma {:induction false} PairsWithConvex(w: real, ws: Vec, b: real, bs: Vec, t: real, m: real)
    requires |ws| == |bs| && 0.0 <= t <= 1.0 && m == w + Times(t, b - w)
    ensures PairsWith(m, Mix(ws, bs, t)) <= PairsWith(w, ws) + Times(t, PairsWith(b, bs) - PairsWith(w, ws))
  {
    hide Times;
    hide Abs;
    TimesUnits(t);
    if ws != [] {
      var ms := Mix(ws, bs, t);
      assert ms[1..] == Mix(ws[1..], bs[1..], t);
      PairsWithConvex(w, ws[1..], b, bs[1..], t, m);
      TimesSub(t, b - w, bs[0] - ws[0], (b - bs[0]) - (w - ws[0]));
      AbsConvex(w - ws[0], b - bs[0], t, m - ms[0]);
      TimesAdd(t, Abs(b - bs[0]) - Abs(w - ws[0]), PairsWith(b, bs[1..]) - PairsWith(w, ws[1..]),
               PairsWith(b, bs) - PairsWith(w, ws));
    }
  }

  lemma {:induction false} PairsConvex(w: Vec, b: Vec, t: real)
    requires |w| == |b| && 0.0 <= t <= 1.0
    ensures Pairs(Mix(w, b, t)) <= Pairs(w) + Times(t, Pairs(b) - Pairs(w))
  {
    hide Times;
    hide PairsWith;
    TimesUnits(t);
    if w != [] {
      var m := Mix(w, b, t);
      assert m[1..] == Mix(w[1..], b[1..], t);
      PairsConvex(w[1..], b[1..], t);
      PairsWithConvex(w[0], w[1..], b[0], b[1..], t, m[0]);
      TimesAdd(t, PairsWith(b[0], b[1..]) - PairsWith(w[0], w[1..]), Pairs(b[1..]) - Pairs(w[1..]),
               Pairs(b) - Pairs(w));
    }
  }

  lemma WeightedConvex(c: real, m: real, w: real, b: real, t: real)
    requires c >= 0.0 && m <= w + Times(t, b - w)
    ensures Times(c, m) <= Times(c, w) + Times(t, Times(c, b) - Times(c, w))
  {
    hide Times;
    var k := Times(t, b - w);
    TimesMonotone(m, w + k, c);
    TimesAdd(c, w, k, w + k);
    TimesSub(c, b, w, b - w);
    TimesAssociates(c, t, b - w);
    TimesAssociates(t, c, b - w);
    TimesCommutes(c, t);
  }

  lemma PenaltyConvex(l1: real, fusion: real, w: Vec, b: Vec, t: real)
    requires |w| == |b| && 0.0 <= t <= 1.0 && l1 >= 0.0 && fusion >= 0.0
    ensures
      Penalty(l1, fusion, Mix(w, b, t)) <=
      Penalty(l1, fusion, w) + Times(t, Penalty(l1, fusion, b) - Penalty(l1, fusion, w))
  {
    hide Times;
    hide L1;
    hide Pairs;
    L1Convex(w, b, t);
    PairsConvex(w, b, t);
    WeightedConvex(l1, L1(Mix(w, b, t)), L1(w), L1(b), t);
    WeightedConvex(fusion, Pairs(Mix(w, b, t)), Pairs(w), Pairs(b), t);
    TimesAdd(t, Times(l1, L1(b)) - Times(l1, L1(w)), Times(fusion, Pairs(b)) - Times(fusion, Pairs(w)),
             Penalty(l1, fusion, b) - Penalty(l1, fusion, w));
  }

  // ----- a proximal point is a subgradient step -----

  lemma DistanceToMix(p: Vec, w: Vec, b: Vec, t: real)
    requires |p| == |w| == |b|
    ensures
      SqDist(p, Mix(w, b, t)) ==
      SqDist(p, w) - 2.0 * Times(t, Dot(Sub(p, w), Sub(b, w))) + Times(t, Times(t, SqDist(w, b)))
  {
    hide Times;
    hide Dot;
    hide Sub;
    hide Add;
    hide Scale;
    hide Mix;
    var g, d := Sub(p, w), Sub(b, w);
    forall i | 0 <= i < |p|
      ensures Sub(p, Mix(w, b, t))[i] == Add(g, Scale(-t, d))[i]
    {
      TimesNegate(t, d[i]);
      assert Add(g, Scale(-t, d))[i] == g[i] + Scale(-t, d)[i];
    }
    assert Sub(p, Mix(w, b, t)) == Add(g, Scale(-t, d));
    SqNormOfSum(g, Scale(-t, d));
    SqNormScale(-t, d);
    DotCommutes(g, Scale(-t, d));
    DotScale(-t, d, g);
    DotCommutes(d, g);
    SqDistSymmetric(w, b);
    TimesNegate(t, Dot(g, d));
    TimesNegate(t, SqNorm(d));
    TimesNegate(t, Times(t, SqNorm(d)));
    TimesNegate(t, Times(-t, SqNorm(d)));
    TimesSub(t, 0.0, Times(t, SqNorm(d)), Times(-t, SqNorm(d)));
    TimesUnits(t);
  }

  /** If t e <= t^2 d / 2 for every t in (0, 1], then e is not positive. */
  lemma ShrinkingStep(e: real, d: real) returns (t: real)
    requires e > 0.0 && d >= 0.0
    ensures 0.0 < t <= 1.0 && 2.0 * Times(t, e) > Times(t, Times(t, d))
  {
    hide Times;
    t := if e >= d + 1.0 then 1.0 else e / (d + 1.0);
    if e >= d + 1.0 {
      TimesUnits(e);
      TimesUnits(d);
    } else {
      FractionBounds(e, d + 1.0, t);
      TimesAdd(t, d, 1.0, d + 1.0);
      TimesUnits(t);
      TimesStrict(Times(t, d), e, t);
      TimesPositive(t, e);
    }
  }

  lemma FractionBounds(e: real, n: real, t: real)
    requires 0.0 < e < n && t == e / n
    ensures 0.0 < t < 1.0 && Times(t, n) == e
  {
    assert Times(t, n) == e;
    hide Times;
    if t <= 0.0 {
      TimesMonotone(t, 0.0, n);
      TimesUnits(n);
    }
    if t >= 1.0 {
      TimesMonotone(1.0, t, n);
      TimesUnits(n);
    }
  }

  /** The minimiser w of the proximal objective satisfies the variational
      inequality: p - w is a subgradient of the penalty at w. */
  lemma ProxIsSubgradient(p: Vec, l1: real, fusion: real, w: Vec, b: Vec)
    requires l1 >= 0.0 && fusion >= 0.0 && |b| == |p| && IsProx(p, l1, fusion, w)
    ensures Dot(Sub(p, w), Sub(b, w)) <= Penalty(l1, fusion, b) - Penalty(l1, fusion, w)
  {
    hide Times;
    hide SqDist;
    hide Penalty;
    hide Dot;
    var e := Dot(Sub(p, w), Sub(b, w)) - (Penalty(l1, fusion, b) - Penalty(l1, fusion, w));
    if e > 0.0 {
      DistanceNonNegative(w, b);
      var t := ShrinkingStep(e, SqDist(w, b));
      var m := Mix(w, b, t);
      assert ProxObjective(p, l1, fusion, w) <= ProxObjective(p, l1, fusion, m);
      PenaltyConvex(l1, fusion, w, b, t);
      DistanceToMix(p, w, b, t);
      TimesSub(t, Dot(Sub(p, w), Sub(b, w)), Penalty(l1, fusion, b) - Penalty(l1, fusion, w), e);
    }
  }

  // ----- one iteration -----

  /** [b - sum(row[j] * r ...) / lipschitz for j, b in enumerate(beta)] */
  function Point(x: Mat, y: Vec, beta: Vec): (p: Vec)
    requires WellFormed(x, y) && |beta| == |x[0]|
    ensures |p| == |beta|
  {
    var v := TransposeMul(x, |beta|, Residual(x, y, beta));
    seq(|beta|, j requires 0 <= j < |beta| => beta[j] - v[j] / Frobenius(x))
  }

  /** w is the exact result of one iteration from beta. */
  ghost predicate IsStep(x: Mat, y: Vec, l1: real, fusion: real, beta: Vec, w: Vec)
    requires WellFormed(x, y) && |beta| == |x[0]|
  {
    IsProx(Point(x, y, beta), l1 / Frobenius(x), fusion / Frobenius(x), w)
  }

  lemma QuotientNonNegative(v: real, n: real)
    requires v >= 0.0 && n > 0.0
    ensures v / n >= 0.0
  {}

  lemma PenaltyScaled(x: Mat, l1: real, fusion: real, b: Vec)
    requires Frobenius(x) > 0.0
    ensures Times(Frobenius(x), Penalty(l1 / Frobenius(x), fusion / Frobenius(x), b)) == Penalty(l1, fusion, b)
  {
    hide L1;
    hide Pairs;
    hide Frobenius;
    var n := Frobenius(x);
    QuotientTimes(l1, n);
    QuotientTimes(fusion, n);
    hide Times;
    TimesAdd(n, Times(l1 / n, L1(b)), Times(fusion / n, Pairs(b)), Penalty(l1 / n, fusion / n, b));
    TimesAssociates(n, l1 / n, L1(b));
    TimesAssociates(n, fusion / n, Pairs(b));
  }

  /** L <point - w, d> == L <beta - w, d> - <X' r, d> */
  lemma PointSplit(x: Mat, y: Vec, beta: Vec, w: Vec, d: Vec)
    requires WellFormed(x, y) && |beta| == |x[0]| == |w| == |d|
    ensures |Residual(x, y, beta)| == |x|
    ensures
      Times(Frobenius(x), Dot(Sub(Point(x, y, beta), w), d)) ==
      Times(Frobenius(x), Dot(Sub(beta, w), d)) - Dot(d, TransposeMul(x, |beta|, Residual(x, y, beta)))
  {
    hide Times;
    hide Dot;
    hide Residual;
    hide TransposeMul;
    hide Frobenius;
    hide Sub;
    hide Scale;
    ResidualShape(x, y, beta);
    var n, v, p := Frobenius(x), TransposeMul(x, |beta|, Residual(x, y, beta)), Point(x, y, beta);
    var q := Sub(beta, p);
    forall j | 0 <= j < |beta|
      ensures Scale(n, q)[j] == v[j]
    {
      QuotientTimes(v[j], n);
    }
    assert Scale(n, q) == v;
    DotScale(n, q, d);
    DotSub(beta, p, d);
    DotSub(p, w, d);
    DotSub(beta, w, d);
    TimesSub(n, Dot(beta, d), Dot(p, d), Dot(q, d));
    TimesSub(n, Dot(p, d), Dot(w, d), Dot(Sub(p, w), d));
    TimesSub(n, Dot(beta, d), Dot(w, d), Dot(Sub(beta, w), d));
    DotCommutes(d, v);
  }

  /** The squared loss around beta: exact first order, and a remainder between
      zero and the Frobenius bound. */
  lemma LossAround(x: Mat, y: Vec, beta: Vec, c: Vec)
    requires WellFormed(x, y) && |beta| == |x[0]| == |c|
    ensures |Residual(x, y, beta)| == |x|
    ensures
      var first := Loss(x, y, beta) + 2.0 * Dot(Sub(c, beta), TransposeMul(x, |beta|, Residual(x, y, beta)));
      first <= Loss(x, y, c) <= first + Times(Frobenius(x), SqDist(c, beta))
  {
    hide Times;
    hide Dot;
    hide Residual;
    hide TransposeMul;
    hide Frobenius;
    hide Loss;
    hide MulVec;
    hide Sub;
    ResidualShape(x, y, beta);
    var d := Sub(c, beta);
    forall i | 0 <= i < |c|
      ensures c[i] == Add(beta, Scale(1.0, d))[i]
    {
      TimesUnits(d[i]);
    }
    assert c == Add(beta, Scale(1.0, d));
    LossAlong(x, y, beta, 1.0, d);
    TimesUnits(Dot(d, TransposeMul(x, |beta|, Residual(x, y, beta))));
    TimesUnits(SqNorm(MulVec(x, d)));
    FrobeniusBound(x, d);
    SqNormNonNegative(MulVec(x, d));
  }

  /** The real arithmetic that combines the three estimates. */
  lemma Combine(n: real, lw: real, lb: real, l: real, pw: real, pb: real, dw: real, db: real,
                near: real, far: real, far': real, cross: real)
    requires lw <= l + 2.0 * dw + Times(n, near) && l + 2.0 * db <= lb
    requires Times(n, cross) - (db - dw) <= pb - pw
    requires far == near - 2.0 * cross + far'
    ensures 2.0 * ((lw / 2.0 + pw) - (lb / 2.0 + pb)) <= Times(n, far) - Times(n, far')
  {
    hide Times;
    TimesAdd(n, near, far' - 2.0 * cross, far);
    TimesSub(n, far', 2.0 * cross, far' - 2.0 * cross);
    TimesAdd(n, cross, cross, 2.0 * cross);
  }

  /** One step gains on every competitor b:
      2 (F(w) - F(b)) <= L (||beta - b||^2 - ||w - b||^2). */
  lemma StepInequality(x: Mat, y: Vec, l1: real, fusion: real, beta: Vec, w: Vec, b: Vec)
    requires WellFormed(x, y) && |beta| == |x[0]| == |b| == |w| && l1 >= 0.0 && fusion >= 0.0
    requires IsStep(x, y, l1, fusion, beta, w)
    ensures
      2.0 * (Objective(x, y, l1, fusion, w) - Objective(x, y, l1, fusion, b))
      <= Times(Frobenius(x), SqDist(beta, b)) - Times(Frobenius(x), SqDist(w, b))
  {
    hide Times;
    hide Dot;
    hide Residual;
    hide TransposeMul;
    hide Frobenius;
    hide Loss;
    hide Sub;
    hide Penalty;
    hide IsProx;
    hide Point;
    var n, v := Frobenius(x), TransposeMul(x, |beta|, StepResidual(x, y, beta));
    QuotientNonNegative(l1, n);
    QuotientNonNegative(fusion, n);
    var p := Point(x, y, beta);
    var d := Sub(b, w);
    ProxIsSubgradient(p, l1 / n, fusion / n, w, b);
    var pb, pw := Penalty(l1 / n, fusion / n, b), Penalty(l1 / n, fusion / n, w);
    TimesMonotone(Dot(Sub(p, w), d), pb - pw, n);
    TimesSub(n, pb, pw, pb - pw);
    PenaltyScaled(x, l1, fusion, b);
    PenaltyScaled(x, l1, fusion, w);
    PointSplit(x, y, beta, w, d);
    LossAround(x, y, beta, w);
    LossAround(x, y, beta, b);
    DotSub(b, w, v);
    DotSub(b, beta, v);
    DotSub(w, beta, v);
    CrossDistance(beta, w, b);
    SqDistSymmetric(w, beta);
    Combine(n, Loss(x, y, w), Loss(x, y, b), Loss(x, y, beta), Penalty(l1, fusion, w), Penalty(l1, fusion, b),
            Dot(Sub(w, beta), v), Dot(Sub(b, beta), v),
            SqDist(w, beta), SqDist(beta, b), SqDist(w, b), Dot(Sub(beta, w), d));
  }

  function StepResidual(x: Mat, y: Vec, beta: Vec): (r: Vec)
    requires WellFormed(x, y) && |beta| == |x[0]|
    ensures |r| == |x| && r == Residual(x, y, beta)
  {
    Residual(x, y, beta)
  }

  /** ||beta - b||^2 == ||beta - w||^2 - 2 <beta - w, b - w> + ||w - b||^2 */
  lemma CrossDistance(beta: Vec, w: Vec, b: Vec)
    requires |beta| == |w| == |b|
    ensures SqDist(beta, b) == SqDist(beta, w) - 2.0 * Dot(Sub(beta, w), Sub(b, w)) + SqDist(w, b)
  {
    hide Dot;
    hide Sub;
    SqDistAround(beta, w, b);
    var g := Sub(beta, w);
    DotCommutes(g, Sub(w, b));
    DotCommutes(g, Sub(b, w));
    DotSub(w, b, g);
    DotSub(b, w, g);
  }

  /** Each iteration lowers the evaluator's objective by at least
      L / 2 * ||w - beta||^2. */
  lemma StepDescends(x: Mat, y: Vec, l1: real, fusion: real, beta: Vec, w: Vec)
    requires WellFormed(x, y) && |beta| == |x[0]| == |w| && l1 >= 0.0 && fusion >= 0.0
    requires IsStep(x, y, l1, fusion, beta, w)
    ensures
      Objective(x, y, l1, fusion, w) + Times(Frobenius(x), SqDist(w, beta)) / 2.0 <= Objective(x, y, l1, fusion, beta)
  {
    hide Times;
    hide Objective;
    hide IsStep;
    hide Frobenius;
    StepInequality(x, y, l1, fusion, beta, w, beta);
    DistanceToSelf(beta);
    hide SqDist;
    TimesUnits(Frobenius(x));
  }

  lemma DistanceToSelf(b: Vec)
    ensures SqDist(b, b) == 0.0
  {
    hide Dot;
    var z := Sub(b, b);
    DotWithZero(z, z);
  }

  ghost predicate IsMinimiser(x: Mat, y: Vec, l1: real, fusion: real, b: Vec)
    requires WellFormed(x, y) && |b| == |x[0]|
  {
    forall c: Vec :: |c| == |b| ==> Objective(x, y, l1, fusion, b) <= Objective(x, y, l1, fusion, c)
  }

  /** An iteration returns beta itself exactly when beta minimises the
      evaluator's objective over all coefficient vectors. */
  lemma FixedPointIsOptimal(x: Mat, y: Vec, l1: real, fusion: real, beta: Vec, w: Vec)
    requires WellFormed(x, y) && |beta| == |x[0]| == |w| && l1 >= 0.0 && fusion >= 0.0
    requires IsStep(x, y, l1, fusion, beta, w)
    ensures w == beta <==> IsMinimiser(x, y, l1, fusion, beta)
  {
    hide Times;
    hide Objective;
    hide IsStep;
    hide Frobenius;
    hide SqDist;
    if w == beta {
      forall c: Vec | |c| == |beta|
        ensures Objective(x, y, l1, fusion, beta) <= Objective(x, y, l1, fusion, c)
      {
        StepInequality(x, y, l1, fusion, beta, w, c);
      }
    }
    if IsMinimiser(x, y, l1, fusion, beta) {
      StepDescends(x, y, l1, fusion, beta, w);
      DistanceNonNegative(w, beta);
      if SqDist(w, beta) > 0.0 {
        TimesPositive(Frobenius(x), SqDist(w, beta));
      }
      SqDistZero(w, beta);
    }
  }

  // ----- the whole loop -----

  /** max(abs(a - b) for a, b in zip(updated, beta)) */
  function MaxChange(a: Vec, b: Vec): (m: real)
    requires |a| == |b| > 0
    ensures forall i :: 0 <= i < |a| ==> Abs(a[i] - b[i]) <= m
    ensures exists i :: 0 <= i < |a| && m == Abs(a[i] - b[i])
  {
    if |a| == 1 then Abs(a[0] - b[0])
    else
      var rest := MaxChange(a[1..], b[1..]);
      assert forall i :: 1 <= i < |a| ==> a[i] == a[1..][i - 1] && b[i] == b[1..][i - 1];
      Max(Abs(a[0] - b[0]), rest)
  }

  /** k steps from zero have gained on every competitor. */
  ghost predicate Gained(x: Mat, y: Vec, l1: real, fusion: real, beta: Vec, k: nat)
    requires WellFormed(x, y) && |beta| == |x[0]|
  {
    forall b: Vec :: |b| == |beta| ==>
      2.0 * Times(k as real, Objective(x, y, l1, fusion, beta) - Objective(x, y, l1, fusion, b)) +
      Times(Frobenius(x), SqDist(beta, b))
      <= Times(Frobenius(x), SqNorm(b))
  }

  lemma GainedAtZero(x: Mat, y: Vec, l1: real, fusion: real)
    requires WellFormed(x, y)
    ensures Gained(x, y, l1, fusion, Constant(0.0, |x[0]|), 0)
  {
    hide Times;
    hide Objective;
    hide Frobenius;
    hide Dot;
    var z := Constant(0.0, |x[0]|);
    forall b: Vec | |b| == |z|
      ensures SqDist(z, b) == SqNorm(b)
      ensures 2.0 * Times(0.0, Objective(x, y, l1, fusion, z) - Objective(x, y, l1, fusion, b)) == 0.0
    {
      TimesUnits(Objective(x, y, l1, fusion, z) - Objective(x, y, l1, fusion, b));
      SqDistSymmetric(z, b);
      assert Sub(b, z) == b;
    }
  }

  lemma GainOne(k: nat, f: real, f': real, g: real, far: real, far': real, n: real, bound: real)
    requires 2.0 * Times(k as real, f - g) + Times(n, far) <= bound
    requires 2.0 * (f' - g) <= Times(n, far) - Times(n, far') && f' <= f
    ensures 2.0 * Times((k + 1) as real, f' - g) + Times(n, far') <= bound
  {
    hide Times;
    TimesMonotone(f' - g, f - g, k as real);
    TimesAdd(f' - g, k as real, 1.0, (k + 1) as real);
    TimesUnits(f' - g);
  }

  lemma GainedStep(x: Mat, y: Vec, l1: real, fusion: real, beta: Vec, w: Vec, k: nat)
    requires WellFormed(x, y) && |beta| == |x[0]| == |w| && l1 >= 0.0 && fusion >= 0.0
    requires IsStep(x, y, l1, fusion, beta, w) && Gained(x, y, l1, fusion, beta, k)
    ensures Gained(x, y, l1, fusion, w, k + 1) && Objective(x, y, l1, fusion, w) <= Objective(x, y, l1, fusion, beta)
  {
    hide Times;
    hide Objective;
    hide Frobenius;
    hide SqDist;
    hide IsStep;
    StepDescends(x, y, l1, fusion, beta, w);
    DistanceNonNegative(w, beta);
    TimesNonNegative(Frobenius(x), SqDist(w, beta));
    forall b: Vec | |b| == |w|
      ensures
        2.0 * Times((k + 1) as real, Objective(x, y, l1, fusion, w) - Objective(x, y, l1, fusion, b)) +
        Times(Frobenius(x), SqDist(w, b))
        <= Times(Frobenius(x), SqNorm(b))
    {
      StepInequality(x, y, l1, fusion, beta, w, b);
      GainOne(k, Objective(x, y, l1, fusion, beta), Objective(x, y, l1, fusion, w), Objective(x, y, l1, fusion, b),
              SqDist(beta, b), SqDist(w, b), Frobenius(x), Times(Frobenius(x), SqNorm(b)));
    }
  }

  // ----- what the tolerance buys -----

  /** The square distances to b of two points within t of each other differ by
      little. */
  lemma NearbySquares(a: real, w: real, b: real, t: real)
    requires Abs(w - a) <= t
    ensures Times(a - b, a - b) - Times(w - b, w - b) <= Times(t, 2.0 * Abs(w - b) + t)
  {
    hide Times;
    var d, e := a - w, w - b;
    TimesAdd(a - b, d, e, a - b);
    TimesAdd(d, d, e, a - b);
    TimesAdd(e, d, e, a - b);
    TimesCommutes(d, e);
    TimesAdd(t, 2.0 * Abs(e), t, 2.0 * Abs(e) + t);
    TimesAdd(t, Abs(e), Abs(e), 2.0 * Abs(e));
    AbsProduct(d, e, t);
    AbsProduct(d, d, t);
    TimesMonotone(Abs(d), t, t);
  }

  lemma AbsProduct(d: real, e: real, t: real)
    requires Abs(d) <= t
    ensures Times(d, e) <= Times(t, Abs(e))
  {
    hide Times;
    if e >= 0.0 {
      TimesMonotone(d, t, e);
    } else {
      TimesMonotone(-d, t, -e);
      TimesNegate(-d, e);
      TimesNegate(d, e);
    }
  }

  lemma {:induction false} NearbyDistances(a: Vec, w: Vec, b: Vec, t: real)
    requires |a| == |w| == |b| && forall i :: 0 <= i < |a| ==> Abs(w[i] - a[i]) <= t
    ensures SqDist(a, b) - SqDist(w, b) <= Times(t, 2.0 * L1(Sub(w, b)) + Times(|a| as real, t))
  {
    hide Times;
    hide Abs;
    var c, d := Sub(a, b), Sub(w, b);
    if a == [] {
      TimesUnits(t);
    } else {
      var n := |a| - 1;
      assert c[1..] == Sub(a[1..], b[1..]) && d[1..] == Sub(w[1..], b[1..]);
      NearbyDistances(a[1..], w[1..], b[1..], t);
      NearbySquares(a[0], w[0], b[0], t);
      TimesAdd(t, n as real, 1.0, |a| as real);
      TimesUnits(t);
      TimesAdd(t, 2.0 * Abs(d[0]) + t, 2.0 * L1(d[1..]) + Times(n as real, t),
               2.0 * L1(d) + Times(|a| as real, t));
    }
  }

  /** A step that moves no coefficient by as much as the tolerance ends within
      L * tolerance * (||w - b||_1 + p * tolerance / 2) of any competitor b. */
  lemma SmallStepIsNearOptimal(x: Mat, y: Vec, l1: real, fusion: real, before: Vec, w: Vec, tolerance: real, b: Vec)
    requires WellFormed(x, y) && |before| == |x[0]| == |w| == |b| && l1 >= 0.0 && fusion >= 0.0
    requires IsStep(x, y, l1, fusion, before, w) && MaxChange(w, before) < tolerance
    ensures NearOptimal(x, y, l1, fusion, w, tolerance, b)
  {
    hide Times;
    hide Objective;
    hide IsStep;
    hide Frobenius;
    hide SqDist;
    hide Sub;
    hide L1;
    StepInequality(x, y, l1, fusion, before, w, b);
    NearbyDistances(before, w, b, tolerance);
    var bound := Times(tolerance, 2.0 * L1(Sub(w, b)) + Times(|w| as real, tolerance));
    TimesSub(Frobenius(x), SqDist(before, b), SqDist(w, b), SqDist(before, b) - SqDist(w, b));
    TimesMonotone(SqDist(before, b) - SqDist(w, b), bound, Frobenius(x));
  }

  ghost predicate NearOptimal(x: Mat, y: Vec, l1: real, fusion: real, w: Vec, tolerance: real, b: Vec)
    requires WellFormed(x, y) && |w| == |x[0]| == |b|
  {
    2.0 * (Objective(x, y, l1, fusion, w) - Objective(x, y, l1, fusion, b)) <=
    Times(Frobenius(x), Times(tolerance, 2.0 * L1(Sub(w, b)) + Times(|w| as real, tolerance)))
  }

  const MAX_ITERATIONS: nat := 2000

  /** The loop of solve(): within the iteration limit, or stopped early because
      the last step moved no coefficient by as much as the tolerance. After the
      reported number of steps the objective exceeds that of any competitor b by
      at most L ||b||^2 / (2 steps), and after an early stop also by at most
      L tolerance (||beta - b||_1 + p tolerance / 2). */
  method Solve(x: Mat, y: Vec, l1: real, fusion: real, tolerance: real) returns (beta: Vec, ghost steps: nat)
    requires WellFormed(x, y) && l1 >= 0.0 && fusion >= 0.0
    ensures |beta| == |x[0]|
    ensures Gained(x, y, l1, fusion, beta, steps)
    ensures Objective(x, y, l1, fusion, beta) <= Objective(x, y, l1, fusion, Constant(0.0, |x[0]|))
    ensures 0 < steps <= MAX_ITERATIONS
    ensures steps == MAX_ITERATIONS ||
            exists before: Vec ::
              |before| == |beta| && IsStep(x, y, l1, fusion, before, beta) && MaxChange(beta, before) < tolerance
    ensures steps == MAX_ITERATIONS ||
            forall b: Vec :: |b| == |beta| ==> NearOptimal(x, y, l1, fusion, beta, tolerance, b)
  {
    hide Objective;
    hide Gained;
    hide NearOptimal;
    hide IsProx;
    hide Frobenius;
    hide TransposeMul;
    hide MulVec;
    hide Sub;
    hide Constant;
    var p := |x[0]|;
    var lipschitz := Frobenius(x);
    QuotientNonNegative(l1, lipschitz);
    beta := Constant(0.0, p);
    GainedAtZero(x, y, l1, fusion);
    steps := 0;
    for iteration := 0 to MAX_ITERATIONS
      invariant |beta| == p && steps == iteration && Gained(x, y, l1, fusion, beta, steps)
      invariant Objective(x, y, l1, fusion, beta) <= Objective(x, y, l1, fusion, Constant(0.0, p))
    {
      var residual := Sub(MulVec(x, beta), y);
      var sums := TransposeMul(x, p, residual);
      var point := seq(p, j requires 0 <= j < p => beta[j] - sums[j] / lipschitz);
      assert point == Point(x, y, beta);
      var updated := ProxStep(point, l1 / lipschitz, fusion / lipschitz);
      ProxShape(point, l1 / lipschitz, fusion / lipschitz, updated);
      GainedStep(x, y, l1, fusion, beta, updated, steps);
      steps := steps + 1;
      var change := MaxChange(updated, beta);
      ghost var before := beta;
      beta := updated;
      if change < tolerance {
        assert IsStep(x, y, l1, fusion, before, beta);
        forall b: Vec | |b| == |beta|
          ensures NearOptimal(x, y, l1, fusion, beta, tolerance, b)
        {
          SmallStepIsNearOptimal(x, y, l1, fusion, before, beta, tolerance, b);
        }
        return;
      }
    }
  }

  lemma ProxShape(p: Vec, l1: real, fusion: real, w: Vec)
    requires IsProx(p, l1, fusion, w)
    ensures |w| == |p|
  {}
}
