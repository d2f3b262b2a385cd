/** The two in-house least-squares solvers of examples/least-squares/benchmark.py
    over the reals, with the descent and optimality they are benchmarked on. */
module LeastSquares {
  import opened Vectors
  import opened Matrices

  /** What both solvers need of their input: some rows, all of the same width. */
  predicate WellFormed(x: Mat, y: Vec) {
    |x| > 0 && |x| == |y| && Rectangular(x, |x[0]|)
  }

  ghost predicate IsMinimiser(x: Mat, y: Vec, b: Vec)
    requires WellFormed(x, y) && |b| == |x[0]|
  {
    forall c: Vec :: |c| == |b| ==> Loss(x, y, b) <= Loss(x, y, c)
  }

  // ----- gradient descent -----

  /** [sum(row[j] * r ...) / n for j in range(p)] */
  function Gradient(x: Mat, y: Vec, b: Vec): (g: Vec)
    requires WellFormed(x, y) && |b| == |x[0]|
    ensures |g| == |b|
  {
    var v := TransposeMul(x, |b|, Residual(x, y, b));
    seq(|b|, j requires 0 <= j < |b| => v[j] / (|x| as real))
  }

  function StepSize(x: Mat): real
    requires Frobenius(x) != 0.0
  {
    (|x| as real) / Frobenius(x)
  }

  function GradientStep(x: Mat, y: Vec, b: Vec): (c: Vec)
    requires WellFormed(x, y) && |b| == |x[0]| && Frobenius(x) != 0.0
    ensures |c| == |b|
  {
    var g := Gradient(x, y, b);
    seq(|b|, j requires 0 <= j < |b| => b[j] - Times(StepSize(x), g[j]))
  }

  /** The iterate after k gradient steps from zero. */
  function GradientRun(x: Mat, y: Vec, k: nat): (b: Vec)
    requires WellFormed(x, y)
    ensures |b| == |x[0]|
  {
    if k == 0 || Frobenius(x) == 0.0 then Constant(0.0, |x[0]|)
    else GradientStep(x, y, GradientRun(x, y, k - 1))
  }

  method GradientDescent(x: Mat, y: Vec, iterations: nat) returns (beta: Vec)
    requires WellFormed(x, y)
    ensures beta == GradientRun(x, y, iterations)
    ensures Loss(x, y, beta) <= SqNorm(y)
  {
    hide Loss;
    hide Frobenius;
    hide MulVec;
    hide TransposeMul;
    hide Times;
    hide Sub;
    hide Constant;
    var n, p := |x|, |x[0]|;
    beta := Constant(0.0, p);
    var squaredNorm := Frobenius(x);
    RunDescends(x, y, iterations);
    if squaredNorm == 0.0 {
      return;
    }
    var step := n as real / squaredNorm;
    for k := 0 to iterations
      invariant beta == GradientRun(x, y, k)
    {
      ghost var before := beta;
      var residual := Sub(MulVec(x, beta), y);
      var sums := TransposeMul(x, p, residual);
      var gradient := seq(p, j requires 0 <= j < p => sums[j] / (n as real));
      assert gradient == Gradient(x, y, before);
      beta := seq(p, j requires 0 <= j < p => beta[j] - Times(step, gradient[j]));
      assert beta == GradientStep(x, y, before);
    }
  }

  lemma GradientScaled(x: Mat, y: Vec, b: Vec)
    requires WellFormed(x, y) && |b| == |x[0]|
    ensures Scale(|x| as real, Gradient(x, y, b)) == TransposeMul(x, |b|, Residual(x, y, b))
  {
    hide Times;
    hide TransposeMul;
    hide Residual;
    ResidualShape(x, y, b);
    var v := TransposeMul(x, |b|, Residual(x, y, b));
    forall j | 0 <= j < |b|
      ensures Scale(|x| as real, Gradient(x, y, b))[j] == v[j]
    {
      QuotientTimes(v[j], |x| as real);
    }
  }

  lemma StepIsMove(x: Mat, y: Vec, b: Vec)
    requires WellFormed(x, y) && |b| == |x[0]| && Frobenius(x) != 0.0
    ensures GradientStep(x, y, b) == Add(b, Scale(-StepSize(x), Gradient(x, y, b)))
  {
    hide Times;
    hide Gradient;
    hide Frobenius;
    hide StepSize;
    var g := Gradient(x, y, b);
    forall j | 0 <= j < |b|
      ensures GradientStep(x, y, b)[j] == Add(b, Scale(-StepSize(x), g))[j]
    {
      TimesNegate(StepSize(x), g[j]);
    }
  }

  lemma StepTimesNorm(x: Mat)
    requires Frobenius(x) != 0.0
    ensures Times(StepSize(x), Frobenius(x)) == |x| as real
    ensures |x| > 0 ==> StepSize(x) > 0.0
  {
    FrobeniusNonNegative(x);
    QuotientTimes(|x| as real, Frobenius(x));
    hide Frobenius;
    hide Times;
    TimesCommutes(Frobenius(x), StepSize(x));
    if |x| > 0 && StepSize(x) <= 0.0 {
      TimesMonotone(StepSize(x), 0.0, Frobenius(x));
      TimesUnits(Frobenius(x));
    }
  }

  /** loss' = loss - 2 s n G + s^2 W with W <= S G and s S == n. */
  lemma DescentScalar(loss: real, loss': real, s: real, n: real, S: real, G: real, W: real)
    requires Times(s, S) == n && s >= 0.0 && G >= 0.0 && W <= Times(S, G)
    requires loss' == loss + 2.0 * Times(-s, Times(n, G)) + Times(-s, Times(-s, W))
    ensures loss' + Times(Times(s, n), G) <= loss
  {
    hide Times;
    TimesNegate(s, W);
    TimesNegate(-s, Times(s, W));
    TimesNegate(s, Times(s, W));
    TimesNegate(s, Times(n, G));
    TimesMonotone(W, Times(S, G), s);
    TimesMonotone(Times(s, W), Times(s, Times(S, G)), s);
    TimesAssociates(s, S, G);
    TimesAssociates(s, n, G);
  }

  /** One gradient step lowers ||X b - y||^2 by at least step * n * ||gradient||^2. */
  lemma StepDescends(x: Mat, y: Vec, b: Vec)
    requires WellFormed(x, y) && |b| == |x[0]| && Frobenius(x) != 0.0
    ensures
      Loss(x, y, GradientStep(x, y, b)) + Times(Times(StepSize(x), |x| as real), SqNorm(Gradient(x, y, b)))
      <= Loss(x, y, b)
  {
    hide Times;
    hide Loss;
    hide Gradient;
    hide GradientStep;
    hide Frobenius;
    hide StepSize;
    hide Dot;
    hide MulVec;
    hide TransposeMul;
    hide Residual;
    ResidualShape(x, y, b);
    var g, s, n := Gradient(x, y, b), StepSize(x), |x| as real;
    StepIsMove(x, y, b);
    LossAlong(x, y, b, -s, g);
    GradientScaled(x, y, b);
    DotCommutes(g, Scale(n, g));
    DotScale(n, g, g);
    FrobeniusBound(x, g);
    SqNormNonNegative(g);
    StepTimesNorm(x);
    DescentScalar(Loss(x, y, b), Loss(x, y, GradientStep(x, y, b)), s, n, Frobenius(x), SqNorm(g),
                  SqNorm(MulVec(x, g)));
  }

  /** The descent guaranteed by the first k steps. */
  ghost function GuaranteedDescent(x: Mat, y: Vec, k: nat): real
    requires WellFormed(x, y) && Frobenius(x) != 0.0
  {
    if k == 0 then 0.0
    else GuaranteedDescent(x, y, k - 1) +
         Times(Times(StepSize(x), |x| as real), SqNorm(Gradient(x, y, GradientRun(x, y, k - 1))))
  }

  lemma LossAtZero(x: Mat, y: Vec)
    requires WellFormed(x, y)
    ensures Loss(x, y, Constant(0.0, |x[0]|)) == SqNorm(y)
  {
    hide Dot;
    hide Times;
    hide Sub;
    var z := Constant(0.0, |x[0]|);
    forall i | 0 <= i < |x|
      ensures MulVec(x, z)[i] == 0.0
    {
      DotWithZero(x[i], z);
    }
    forall i | 0 <= i < |y|
      ensures Residual(x, y, z)[i] == Scale(-1.0, y)[i]
    {
      TimesUnits(y[i]);
    }
    assert Residual(x, y, z) == Scale(-1.0, y);
    SqNormScale(-1.0, y);
    TimesUnits(SqNorm(y));
    TimesUnits(-SqNorm(y));
  }

  /** Over a whole run the guaranteed descents add up within ||y||^2. */
  lemma {:induction false} RunBound(x: Mat, y: Vec, k: nat)
    requires WellFormed(x, y) && Frobenius(x) != 0.0
    ensures Loss(x, y, GradientRun(x, y, k)) + GuaranteedDescent(x, y, k) <= SqNorm(y)
  {
    hide Times;
    hide Loss;
    hide Gradient;
    hide GradientStep;
    hide Frobenius;
    hide StepSize;
    hide Dot;
    if k == 0 {
      LossAtZero(x, y);
    } else {
      RunBound(x, y, k - 1);
      StepDescends(x, y, GradientRun(x, y, k - 1));
    }
  }

  lemma {:induction false} RunDescends(x: Mat, y: Vec, k: nat)
    requires WellFormed(x, y)
    ensures Loss(x, y, GradientRun(x, y, k)) <= SqNorm(y)
  {
    hide Times;
    hide Loss;
    hide Gradient;
    hide GradientStep;
    hide Frobenius;
    hide Dot;
    if k == 0 || Frobenius(x) == 0.0 {
      LossAtZero(x, y);
    } else {
      RunDescends(x, y, k - 1);
      var b := GradientRun(x, y, k - 1);
      StepDescends(x, y, b);
      StepTimesNorm(x);
      SqNormNonNegative(Gradient(x, y, b));
      TimesNonNegative(StepSize(x), |x| as real);
      TimesNonNegative(Times(StepSize(x), |x| as real), SqNorm(Gradient(x, y, b)));
    }
  }

  /** Some iterate of a run of k steps has a gradient of square norm at most
      ||y||^2 / (k * step * n). */
  lemma BestGradient(x: Mat, y: Vec, k: nat) returns (t: nat)
    requires WellFormed(x, y) && Frobenius(x) != 0.0 && k > 0
    ensures t < k
    ensures
      Times(k as real, Times(Times(StepSize(x), |x| as real), SqNorm(Gradient(x, y, GradientRun(x, y, t))))) <=
      SqNorm(y)
  {
    hide Times;
    hide Loss;
    hide Gradient;
    hide GradientRun;
    hide Frobenius;
    hide StepSize;
    hide Dot;
    t := SmallestTerm(x, y, k);
    RunBound(x, y, k);
    SqNormNonNegative(Residual(x, y, GradientRun(x, y, k)));
    LossIsSqNorm(x, y, GradientRun(x, y, k));
  }

  lemma LossIsSqNorm(x: Mat, y: Vec, b: Vec)
    requires WellFormed(x, y) && |b| == |x[0]|
    ensures Loss(x, y, b) == SqNorm(Residual(x, y, b))
  {}

  lemma {:induction false} SmallestTerm(x: Mat, y: Vec, k: nat) returns (t: nat)
    requires WellFormed(x, y) && Frobenius(x) != 0.0 && k > 0
    ensures t < k
    ensures
      Times(k as real, Times(Times(StepSize(x), |x| as real), SqNorm(Gradient(x, y, GradientRun(x, y, t))))) <=
      GuaranteedDescent(x, y, k)
  {
    hide Times;
    hide Gradient;
    hide GradientRun;
    hide Frobenius;
    hide StepSize;
    hide Dot;
    var c := Times(StepSize(x), |x| as real);
    var last := Times(c, SqNorm(Gradient(x, y, GradientRun(x, y, k - 1))));
    TimesUnits(last);
    TimesAdd(last, (k - 1) as real, 1.0, k as real);
    if k == 1 {
      t := 0;
      assert GuaranteedDescent(x, y, 0) == 0.0;
    } else {
      t := SmallestTerm(x, y, k - 1);
      var best := Times(c, SqNorm(Gradient(x, y, GradientRun(x, y, t))));
      TimesUnits(best);
      TimesAdd(best, (k - 1) as real, 1.0, k as real);
      if last < best {
        t := k - 1;
        TimesMonotone(last, best, (k - 1) as real);
      }
    }
  }

  // ----- optimality -----

  ghost predicate GradientVanishes(x: Mat, y: Vec, b: Vec)
    requires WellFormed(x, y) && |b| == |x[0]|
  {
    forall j :: 0 <= j < |b| ==> ColumnDot(x, j, Residual(x, y, b)) == 0.0
  }

  /** A vanishing gradient certifies a global minimiser. */
  lemma VanishingGradientIsOptimal(x: Mat, y: Vec, b: Vec)
    requires WellFormed(x, y) && |b| == |x[0]| && GradientVanishes(x, y, b)
    ensures IsMinimiser(x, y, b)
  {
    hide Times;
    hide Loss;
    hide Dot;
    hide MulVec;
    hide ColumnDot;
    hide Sub;
    hide Add;
    ResidualShape(x, y, b);
    forall c: Vec | |c| == |b|
      ensures Loss(x, y, b) <= Loss(x, y, c)
    {
      var d := Sub(c, b);
      MoveTo(b, c);
      LossAlong(x, y, b, 1.0, d);
      DotWithZero(d, TransposeMul(x, |b|, Residual(x, y, b)));
      TimesUnits(0.0);
      var w := SqNorm(MulVec(x, d));
      TimesUnits(w);
      SqNormNonNegative(MulVec(x, d));
    }
  }

  lemma MoveTo(b: Vec, c: Vec)
    requires |b| == |c|
    ensures c == Add(b, Scale(1.0, Sub(c, b)))
  {
    hide Times;
    forall i | 0 <= i < |b|
      ensures c[i] == Add(b, Scale(1.0, Sub(c, b)))[i]
    {
      TimesUnits(Sub(c, b)[i]);
    }
  }

  /** Conversely, no minimiser has a nonzero gradient: a gradient step would
      improve it. */
  lemma MinimiserHasVanishingGradient(x: Mat, y: Vec, b: Vec)
    requires WellFormed(x, y) && |b| == |x[0]| && IsMinimiser(x, y, b)
    ensures GradientVanishes(x, y, b)
  {
    hide Times;
    hide Loss;
    hide Dot;
    hide StepSize;
    hide Frobenius;
    hide Gradient;
    hide GradientStep;
    hide Residual;
    hide ColumnDot;
    ResidualShape(x, y, b);
    if Frobenius(x) == 0.0 {
      ZeroMatrix(x, y, b);
    } else {
      var g := Gradient(x, y, b);
      StepDescends(x, y, b);
      StepTimesNorm(x);
      TimesPositive(StepSize(x), |x| as real);
      SqNormNonNegative(g);
      if SqNorm(g) > 0.0 {
        TimesPositive(Times(StepSize(x), |x| as real), SqNorm(g));
        assert false;
      }
      SqNormZero(g);
      GradientScaled(x, y, b);
      forall j | 0 <= j < |b|
        ensures ColumnDot(x, j, Residual(x, y, b)) == 0.0
      {
        TimesUnits(|x| as real);
        assert Scale(|x| as real, g)[j] == 0.0;
      }
    }
  }

  lemma {:induction false} ZeroFrobenius(x: Mat, i: nat)
    requires Frobenius(x) == 0.0 && i < |x|
    ensures forall j :: 0 <= j < |x[i]| ==> x[i][j] == 0.0
  {
    hide Dot;
    SqNormNonNegative(x[0]);
    FrobeniusNonNegative(x[1..]);
    if i == 0 {
      SqNormZero(x[0]);
    } else {
      ZeroFrobenius(x[1..], i - 1);
    }
  }

  lemma {:induction false} ZeroColumn(x: Mat, j: nat, r: Vec)
    requires |x| == |r| && forall i :: 0 <= i < |x| ==> j < |x[i]| && x[i][j] == 0.0
    ensures ColumnDot(x, j, r) == 0.0
  {
    hide Times;
    if x != [] {
      TimesUnits(r[0]);
      ZeroColumn(x[1..], j, r[1..]);
    }
  }

  lemma ZeroMatrix(x: Mat, y: Vec, b: Vec)
    requires WellFormed(x, y) && |b| == |x[0]| && Frobenius(x) == 0.0
    ensures GradientVanishes(x, y, b)
  {
    hide Residual;
    hide Frobenius;
    hide ColumnDot;
    ResidualShape(x, y, b);
    forall j | 0 <= j < |b|
      ensures ColumnDot(x, j, Residual(x, y, b)) == 0.0
    {
      forall i | 0 <= i < |x|
        ensures x[i][j] == 0.0
      {
        ZeroFrobenius(x, i);
      }
      ZeroColumn(x, j, Residual(x, y, b));
    }
  }

  // ----- the evaluator -----

  /** max(abs(...) for j in range(p)) */
  function MaxAbs(v: Vec): (m: real)
    requires v != []
    ensures forall i :: 0 <= i < |v| ==> Abs(v[i]) <= m
    ensures exists i :: 0 <= i < |v| && m == Abs(v[i])
  {
    if |v| == 1 then Abs(v[0])
    else
      var rest := MaxAbs(v[1..]);
      assert forall i :: 1 <= i < |v| ==> v[i] == v[1..][i - 1];
      if rest <= Abs(v[0]) then Abs(v[0]) else rest
  }

  /** The evaluator's gradient_inf is zero exactly at the global minimisers. */
  lemma EvaluatorCertifiesOptimality(x: Mat, y: Vec, b: Vec)
    requires WellFormed(x, y) && |b| == |x[0]| > 0
    ensures MaxAbs(Gradient(x, y, b)) == 0.0 <==> IsMinimiser(x, y, b)
  {
    hide Times;
    hide Loss;
    hide Residual;
    hide ColumnDot;
    hide IsMinimiser;
    ResidualShape(x, y, b);
    var g, v := Gradient(x, y, b), TransposeMul(x, |b|, Residual(x, y, b));
    forall j | 0 <= j < |b|
      ensures g[j] == 0.0 <==> v[j] == 0.0
    {
      QuotientZero(v[j], |x| as real);
    }
    if MaxAbs(g) == 0.0 {
      VanishingGradientIsOptimal(x, y, b);
    }
    if IsMinimiser(x, y, b) {
      MinimiserHasVanishingGradient(x, y, b);
    }
  }

  lemma QuotientZero(v: real, n: real)
    requires n != 0.0
    ensures v / n == 0.0 <==> v == 0.0
  {
    hide Times;
    QuotientTimes(v, n);
    TimesUnits(n);
  }

  // ----- coordinate descent -----

  function Column(x: Mat, j: nat): (c: Vec)
    requires forall i :: 0 <= i < |x| ==> j < |x[i]|
    ensures |c| == |x| && forall i :: 0 <= i < |x| ==> c[i] == x[i][j]
  {
    seq(|x|, i requires 0 <= i < |x| => x[i][j])
  }

  /** norms[j] = sum(row[j] ** 2 for row in x) */
  function ColumnNorm(x: Mat, j: nat): real
    requires forall i :: 0 <= i < |x| ==> j < |x[i]|
  {
    SqNorm(Column(x, j))
  }

  function Delta(x: Mat, j: nat, r: Vec): real
    requires |x| == |r| && (forall i :: 0 <= i < |x| ==> j < |x[i]|) && ColumnNorm(x, j) != 0.0
  {
    -ColumnDot(x, j, r) / ColumnNorm(x, j)
  }

  /** One coordinate update, with the residual recomputed from scratch. */
  function CoordinateUpdate(x: Mat, y: Vec, b: Vec, j: nat): (c: Vec)
    requires WellFormed(x, y) && |b| == |x[0]| && j < |b|
    ensures |c| == |b|
  {
    if ColumnNorm(x, j) == 0.0 then b
    else b[j := b[j] + Delta(x, j, Residual(x, y, b))]
  }

  function WithCoordinate(b: Vec, j: nat, v: real): (c: Vec)
    requires j < |b|
    ensures |c| == |b|
  {
    b[j := v]
  }

  /** The first k coordinates of a sweep. */
  function Sweep(x: Mat, y: Vec, b: Vec, k: nat): (c: Vec)
    requires WellFormed(x, y) && |b| == |x[0]| && k <= |b|
    ensures |c| == |b|
  {
    if k == 0 then b else CoordinateUpdate(x, y, Sweep(x, y, b, k - 1), k - 1)
  }

  function SweepRun(x: Mat, y: Vec, k: nat): (b: Vec)
    requires WellFormed(x, y)
    ensures |b| == |x[0]|
  {
    if k == 0 then Constant(0.0, |x[0]|)
    else
      var b := SweepRun(x, y, k - 1);
      Sweep(x, y, b, |b|)
  }

  /** The residual kept incrementally always equals X beta - y, so the solver
      computes the sweeps defined with fresh residuals. */
  method CoordinateDescent(x: Mat, y: Vec, iterations: nat) returns (result: Vec)
    requires WellFormed(x, y)
    ensures result == SweepRun(x, y, iterations)
    ensures Loss(x, y, result) <= SqNorm(y)
  {
    hide Loss;
    hide Residual;
    hide ColumnDot;
    hide Dot;
    hide Delta;
    hide CoordinateUpdate;
    hide ColumnNorm;
    hide Add;
    hide Scale;
    hide Sub;
    hide Constant;
    hide Times;
    var p := |x[0]|;
    var beta := new real[p](_ => 0.0);
    assert beta[..] == Constant(0.0, p);
    var residual := seq(|y|, i requires 0 <= i < |y| => -y[i]);
    ResidualAtZero(x, y, residual);
    var norms := seq(p, j requires 0 <= j < p => ColumnNorm(x, j));
    for k := 0 to iterations
      invariant beta[..] == SweepRun(x, y, k)
      invariant residual == Residual(x, y, beta[..])
    {
      ghost var start := beta[..];
      for j := 0 to p
        invariant beta[..] == Sweep(x, y, start, j)
        invariant residual == Residual(x, y, beta[..])
      {
        ghost var before := beta[..];
        ResidualShape(x, y, before);
        UpdateBranches(x, y, before, j);
        if norms[j] == 0.0 {
          continue;
        }
        var delta := -ColumnDot(x, j, residual) / norms[j];
        UpdateMovesResidual(x, y, before, j, delta);
        beta[j] := beta[j] + delta;
        residual := seq(|residual|, i requires 0 <= i < |residual| && i < |x| && j < |x[i]| =>
          residual[i] + Times(x[i][j], delta));
        assert beta[..] == before[j := before[j] + delta];
      }
    }
    SweepRunDescends(x, y, iterations);
    result := beta[..];
  }

  lemma UpdateBranches(x: Mat, y: Vec, b: Vec, j: nat)
    requires WellFormed(x, y) && |b| == |x[0]| && j < |b|
    ensures ColumnNorm(x, j) == 0.0 ==> CoordinateUpdate(x, y, b, j) == b
    ensures
      ColumnNorm(x, j) != 0.0 ==>
        CoordinateUpdate(x, y, b, j) == b[j := b[j] + -ColumnDot(x, j, Residual(x, y, b)) / ColumnNorm(x, j)]
  {
    hide Residual;
    hide ColumnDot;
    hide ColumnNorm;
    ResidualShape(x, y, b);
  }

  lemma ResidualAtZero(x: Mat, y: Vec, r: Vec)
    requires WellFormed(x, y) && |r| == |y| && forall i :: 0 <= i < |y| ==> r[i] == -y[i]
    ensures r == Residual(x, y, Constant(0.0, |x[0]|))
  {
    hide Times;
    hide Dot;
    hide Constant;
    hide MulVec;
    var z := Constant(0.0, |x[0]|);
    forall i | 0 <= i < |x|
      ensures Residual(x, y, z)[i] == r[i]
    {
      DotWithZero(x[i], z);
      assert MulVec(x, z)[i] == 0.0;
    }
  }

  function Unit(p: nat, j: nat): (e: Vec)
    requires j < p
    ensures |e| == p && forall i :: 0 <= i < p ==> e[i] == if i == j then 1.0 else 0.0
  {
    seq(p, i => if i == j then 1.0 else 0.0)
  }

  lemma {:induction false} DotUnit(a: Vec, j: nat)
    requires j < |a|
    ensures Dot(a, Unit(|a|, j)) == a[j] == Dot(Unit(|a|, j), a)
  {
    hide Times;
    var e := Unit(|a|, j);
    TimesUnits(a[0]);
    if j == 0 {
      DotWithZero(a[1..], e[1..]);
    } else {
      assert e[1..] == Unit(|a| - 1, j - 1);
      DotUnit(a[1..], j - 1);
    }
  }

  lemma UnitMove(b: Vec, j: nat, delta: real)
    requires j < |b|
    ensures b[j := b[j] + delta] == Add(b, Scale(delta, Unit(|b|, j)))
  {
    hide Times;
    TimesUnits(delta);
    forall i | 0 <= i < |b|
      ensures b[j := b[j] + delta][i] == Add(b, Scale(delta, Unit(|b|, j)))[i]
    {
      assert Scale(delta, Unit(|b|, j))[i] == Times(delta, Unit(|b|, j)[i]);
    }
  }

  lemma MulVecUnit(x: Mat, p: nat, j: nat)
    requires Rectangular(x, p) && j < p
    ensures MulVec(x, Unit(p, j)) == Column(x, j)
  {
    hide Dot;
    forall i | 0 <= i < |x|
      ensures MulVec(x, Unit(p, j))[i] == Column(x, j)[i]
    {
      DotUnit(x[i], j);
    }
  }

  lemma UpdateMovesResidual(x: Mat, y: Vec, b: Vec, j: nat, delta: real)
    requires WellFormed(x, y) && |b| == |x[0]| && j < |b|
    ensures
      var r, r' := Residual(x, y, b), Residual(x, y, b[j := b[j] + delta]);
      |r| == |r'| == |x| && forall i :: 0 <= i < |x| ==> r'[i] == r[i] + Times(x[i][j], delta)
  {
    hide Times;
    hide Dot;
    hide Residual;
    hide MulVec;
    UnitMove(b, j, delta);
    ResidualMoves(x, y, b, delta, Unit(|b|, j));
    MulVecUnit(x, |b|, j);
    ResidualShape(x, y, b);
    var r := Residual(x, y, b);
    forall i | 0 <= i < |x|
      ensures Residual(x, y, b[j := b[j] + delta])[i] == r[i] + Times(x[i][j], delta)
    {
      assert Add(r, Scale(delta, Column(x, j)))[i] == r[i] + Times(delta, x[i][j]);
      TimesCommutes(delta, x[i][j]);
    }
  }

  /** The loss along one coordinate axis. */
  lemma LossAlongCoordinate(x: Mat, y: Vec, b: Vec, j: nat, s: real)
    requires WellFormed(x, y) && |b| == |x[0]| && j < |b|
    ensures
      Loss(x, y, b[j := b[j] + s]) ==
      Loss(x, y, b) + 2.0 * Times(s, ColumnDot(x, j, Residual(x, y, b))) + Times(s, Times(s, ColumnNorm(x, j)))
  {
    hide Times;
    hide Dot;
    hide Loss;
    hide Residual;
    hide MulVec;
    ResidualShape(x, y, b);
    UnitMove(b, j, s);
    LossAlong(x, y, b, s, Unit(|b|, j));
    MulVecUnit(x, |b|, j);
    DotUnit(TransposeMul(x, |b|, Residual(x, y, b)), j);
  }

  lemma {:induction false} ColumnDotMoves(x: Mat, j: nat, r: Vec, r': Vec, delta: real)
    requires |x| == |r| == |r'| && forall i :: 0 <= i < |x| ==> j < |x[i]|
    requires forall i :: 0 <= i < |x| ==> r'[i] == r[i] + Times(x[i][j], delta)
    ensures ColumnDot(x, j, r') == ColumnDot(x, j, r) + Times(delta, ColumnNorm(x, j))
  {
    hide Times;
    TimesUnits(delta);
    if x == [] {
      assert Column(x, j) == [];
    } else {
      assert Column(x, j)[1..] == Column(x[1..], j);
      ColumnDotMoves(x[1..], j, r[1..], r'[1..], delta);
      var a := x[0][j];
      TimesAdd(a, r[0], Times(a, delta), r'[0]);
      TimesCommutes(delta, Times(a, a));
      TimesCommutes(delta, a);
      TimesAssociates(a, a, delta);
      TimesAdd(delta, Times(a, a), ColumnNorm(x[1..], j), ColumnNorm(x, j));
    }
  }

  lemma DeltaSolves(c: real, n: real)
    requires n != 0.0
    ensures Times(-c / n, n) == -c
  {
    QuotientTimes(-c, n);
    TimesCommutes(n, -c / n);
  }

  lemma CoordinateScalar(loss: real, loss': real, d: real, c: real, n: real)
    requires Times(d, n) == -c && loss' == loss + 2.0 * Times(d, c) + Times(d, Times(d, n))
    ensures loss' == loss - Times(n, Times(d, d))
  {
    hide Times;
    TimesSub(d, 0.0, c, -c);
    TimesUnits(d);
    TimesAssociates(d, d, n);
    TimesCommutes(n, Times(d, d));
  }

  /** A coordinate update lowers ||X b - y||^2 by exactly norms[j] * delta^2,
      zeroes the partial derivative and is the best value for its coordinate. */
  lemma CoordinateUpdateIsExact(x: Mat, y: Vec, b: Vec, j: nat)
    requires WellFormed(x, y) && |b| == |x[0]| && j < |b| && ColumnNorm(x, j) != 0.0
    ensures
      var d := Delta(x, j, Residual(x, y, b));
      Loss(x, y, CoordinateUpdate(x, y, b, j)) == Loss(x, y, b) - Times(ColumnNorm(x, j), Times(d, d))
    ensures ColumnDot(x, j, Residual(x, y, CoordinateUpdate(x, y, b, j))) == 0.0
    ensures forall v: real :: Loss(x, y, CoordinateUpdate(x, y, b, j)) <= Loss(x, y, WithCoordinate(b, j, v))
  {
    hide Times;
    hide Dot;
    hide Loss;
    hide Residual;
    hide ColumnDot;
    hide ColumnNorm;
    ResidualShape(x, y, b);
    var c, n, d := ColumnDot(x, j, Residual(x, y, b)), ColumnNorm(x, j), Delta(x, j, Residual(x, y, b));
    DeltaSolves(c, n);
    var b' := CoordinateUpdate(x, y, b, j);
    assert b' == b[j := b[j] + d];
    LossAlongCoordinate(x, y, b, j, d);
    CoordinateScalar(Loss(x, y, b), Loss(x, y, b'), d, c, n);
    UpdateMovesResidual(x, y, b, j, d);
    ColumnDotMoves(x, j, Residual(x, y, b), Residual(x, y, b'), d);
    forall v: real
      ensures Loss(x, y, b') <= Loss(x, y, WithCoordinate(b, j, v))
    {
      var s := v - b'[j];
      LossAlongCoordinate(x, y, b', j, s);
      assert b'[j := b'[j] + s] == b[j := v];
      TimesUnits(s);
      TimesAssociates(s, s, n);
      SquareNonNegative(s);
      ColumnNormNonNegative(x, j);
      TimesNonNegative(Times(s, s), n);
    }
  }

  lemma ColumnNormNonNegative(x: Mat, j: nat)
    requires forall i :: 0 <= i < |x| ==> j < |x[i]|
    ensures ColumnNorm(x, j) >= 0.0
  {
    SqNormNonNegative(Column(x, j));
  }

  /** The exact decrease of one update. */
  ghost function UpdateGain(x: Mat, y: Vec, b: Vec, j: nat): real
    requires WellFormed(x, y) && |b| == |x[0]| && j < |b|
  {
    if ColumnNorm(x, j) == 0.0 then 0.0
    else
      var d := Delta(x, j, Residual(x, y, b));
      Times(ColumnNorm(x, j), Times(d, d))
  }

  /** norms[j] * delta^2, summed over the first k coordinates of a sweep. */
  ghost function SweepGain(x: Mat, y: Vec, b: Vec, k: nat): real
    requires WellFormed(x, y) && |b| == |x[0]| && k <= |b|
  {
    if k == 0 then 0.0 else SweepGain(x, y, b, k - 1) + UpdateGain(x, y, Sweep(x, y, b, k - 1), k - 1)
  }

  /** The same, summed over the first k sweeps of a run. */
  ghost function RunGain(x: Mat, y: Vec, k: nat): real
    requires WellFormed(x, y)
  {
    if k == 0 then 0.0 else RunGain(x, y, k - 1) + SweepGain(x, y, SweepRun(x, y, k - 1), |x[0]|)
  }

  lemma UpdateGains(x: Mat, y: Vec, b: Vec, j: nat)
    requires WellFormed(x, y) && |b| == |x[0]| && j < |b|
    ensures UpdateGain(x, y, b, j) >= 0.0
    ensures Loss(x, y, CoordinateUpdate(x, y, b, j)) + UpdateGain(x, y, b, j) == Loss(x, y, b)
  {
    hide Times;
    hide Loss;
    hide Residual;
    hide Delta;
    hide ColumnNorm;
    ResidualShape(x, y, b);
    if ColumnNorm(x, j) != 0.0 {
      CoordinateUpdateIsExact(x, y, b, j);
      var d := Delta(x, j, Residual(x, y, b));
      SquareNonNegative(d);
      ColumnNormNonNegative(x, j);
      TimesNonNegative(ColumnNorm(x, j), Times(d, d));
    }
  }

  /** A sweep lowers ||X b - y||^2 by exactly the sum of its updates. */
  lemma {:induction false} SweepIsExact(x: Mat, y: Vec, b: Vec, k: nat)
    requires WellFormed(x, y) && |b| == |x[0]| && k <= |b|
    ensures SweepGain(x, y, b, k) >= 0.0
    ensures Loss(x, y, Sweep(x, y, b, k)) + SweepGain(x, y, b, k) == Loss(x, y, b)
  {
    hide Loss;
    hide UpdateGain;
    hide CoordinateUpdate;
    if k > 0 {
      SweepIsExact(x, y, b, k - 1);
      UpdateGains(x, y, Sweep(x, y, b, k - 1), k - 1);
    }
  }

  /** Over any number of sweeps the updates add up to exactly what the squared
      residual has lost since zero coefficients. */
  lemma {:induction false} SweepRunIsExact(x: Mat, y: Vec, k: nat)
    requires WellFormed(x, y)
    ensures RunGain(x, y, k) >= 0.0
    ensures Loss(x, y, SweepRun(x, y, k)) + RunGain(x, y, k) == SqNorm(y)
  {
    hide Loss;
    hide Dot;
    hide Sweep;
    hide SweepGain;
    if k == 0 {
      LossAtZero(x, y);
    } else {
      SweepRunIsExact(x, y, k - 1);
      var b := SweepRun(x, y, k - 1);
      SweepIsExact(x, y, b, |b|);
    }
  }

  lemma SweepRunDescends(x: Mat, y: Vec, k: nat)
    requires WellFormed(x, y)
    ensures Loss(x, y, SweepRun(x, y, k)) <= SqNorm(y)
  {
    SweepRunIsExact(x, y, k);
  }

  /** Some sweep of a run of k lowers the squared residual by at most
      ||y||^2 / k. */
  lemma BestSweep(x: Mat, y: Vec, k: nat) returns (t: nat)
    requires WellFormed(x, y) && k > 0
    ensures t < k && Times(k as real, SweepGain(x, y, SweepRun(x, y, t), |x[0]|)) <= SqNorm(y)
  {
    hide Times;
    hide Dot;
    hide SweepGain;
    hide SweepRun;
    hide RunGain;
    hide Loss;
    t := SmallestGain(x, y, k);
    SweepRunIsExact(x, y, k);
    LossIsSqNorm(x, y, SweepRun(x, y, k));
    SqNormNonNegative(Residual(x, y, SweepRun(x, y, k)));
  }

  lemma {:induction false} SmallestGain(x: Mat, y: Vec, k: nat) returns (t: nat)
    requires WellFormed(x, y) && k > 0
    ensures t < k && Times(k as real, SweepGain(x, y, SweepRun(x, y, t), |x[0]|)) <= RunGain(x, y, k)
  {
    hide Times;
    hide SweepGain;
    hide SweepRun;
    var last := SweepGain(x, y, SweepRun(x, y, k - 1), |x[0]|);
    TimesUnits(last);
    TimesAdd(last, (k - 1) as real, 1.0, k as real);
    if k == 1 {
      t := 0;
      assert RunGain(x, y, 0) == 0.0;
    } else {
      t := SmallestGain(x, y, k - 1);
      var best := SweepGain(x, y, SweepRun(x, y, t), |x[0]|);
      TimesUnits(best);
      TimesAdd(best, (k - 1) as real, 1.0, k as real);
      if last < best {
        t := k - 1;
        TimesMonotone(last, best, (k - 1) as real);
      }
    }
  }

  /** Coordinates at or above k are untouched by the first k updates. */
  lemma {:induction false} SweepTouchesPrefix(x: Mat, y: Vec, b: Vec, k: nat, i: nat)
    requires WellFormed(x, y) && |b| == |x[0]| && k <= i < |b|
    ensures Sweep(x, y, b, k)[i] == b[i]
  {
    hide Residual;
    hide Delta;
    hide ColumnNorm;
    if k > 0 {
      SweepTouchesPrefix(x, y, b, k - 1, i);
    }
  }

  lemma {:induction false} SweepKeeps(x: Mat, y: Vec, b: Vec, k: nat, m: nat, i: nat)
    requires WellFormed(x, y) && |b| == |x[0]| && i < k <= m <= |b|
    ensures Sweep(x, y, b, m)[i] == Sweep(x, y, b, k)[i]
    decreases m
  {
    hide Residual;
    hide Delta;
    hide ColumnNorm;
    if k < m {
      SweepKeeps(x, y, b, k, m - 1, i);
    }
  }

  /** If a whole sweep changes nothing, no update along the way changed anything. */
  lemma {:induction false} FixedSweepPrefix(x: Mat, y: Vec, b: Vec, k: nat)
    requires WellFormed(x, y) && |b| == |x[0]| && k <= |b| && Sweep(x, y, b, |b|) == b
    ensures Sweep(x, y, b, k) == b
  {
    hide Sweep;
    forall i | 0 <= i < |b|
      ensures Sweep(x, y, b, k)[i] == b[i]
    {
      if i < k {
        SweepKeeps(x, y, b, k, |b|, i);
      } else {
        SweepTouchesPrefix(x, y, b, k, i);
      }
    }
  }

  /** A sweep leaves beta where it is exactly when beta is a global minimiser. */
  lemma FixedSweepIsOptimal(x: Mat, y: Vec, b: Vec)
    requires WellFormed(x, y) && |b| == |x[0]|
    ensures Sweep(x, y, b, |b|) == b <==> IsMinimiser(x, y, b)
  {
    hide Residual;
    hide ColumnNorm;
    hide ColumnDot;
    hide IsMinimiser;
    hide Delta;
    ResidualShape(x, y, b);
    if Sweep(x, y, b, |b|) == b {
      forall j | 0 <= j < |b|
        ensures ColumnDot(x, j, Residual(x, y, b)) == 0.0
      {
        FixedSweepPrefix(x, y, b, j);
        FixedSweepPrefix(x, y, b, j + 1);
        FixedCoordinate(x, y, b, j);
      }
      VanishingGradientIsOptimal(x, y, b);
    }
    if IsMinimiser(x, y, b) {
      MinimiserHasVanishingGradient(x, y, b);
      StationarySweep(x, y, b, |b|);
    }
  }

  lemma FixedCoordinate(x: Mat, y: Vec, b: Vec, j: nat)
    requires WellFormed(x, y) && |b| == |x[0]| && j < |b| && CoordinateUpdate(x, y, b, j) == b
    ensures |Residual(x, y, b)| == |x| && ColumnDot(x, j, Residual(x, y, b)) == 0.0
  {
    hide Residual;
    hide ColumnDot;
    hide Delta;
    hide Dot;
    ResidualShape(x, y, b);
    if ColumnNorm(x, j) == 0.0 {
      SqNormZero(Column(x, j));
      forall i | 0 <= i < |x|
        ensures x[i][j] == 0.0
      {
        assert Column(x, j)[i] == 0.0;
      }
      ZeroColumn(x, j, Residual(x, y, b));
    } else {
      CoordinateUpdateIsExact(x, y, b, j);
    }
  }

  lemma {:induction false} StationarySweep(x: Mat, y: Vec, b: Vec, k: nat)
    requires WellFormed(x, y) && |b| == |x[0]| && k <= |b| && GradientVanishes(x, y, b)
    ensures Sweep(x, y, b, k) == b
  {
    hide Residual;
    hide ColumnNorm;
    hide ColumnDot;
    ResidualShape(x, y, b);
    if k > 0 {
      StationarySweep(x, y, b, k - 1);
      if ColumnNorm(x, k - 1) != 0.0 {
        QuotientZero(-ColumnDot(x, k - 1, Residual(x, y, b)), ColumnNorm(x, k - 1));
      }
    }
  }
}
