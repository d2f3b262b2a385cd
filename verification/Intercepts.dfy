/** The intercepts family of examples/workflow-smoke/solver.py against the
    objective of examples/workflow-smoke/evaluator.py, over the reals. */
module Intercepts {
  import opened Vectors
  import opened Matrices
  import opened Isotonic
  import opened ClusteredLasso
  import opened LeastSquares

  ghost predicate IsDesign(x: Mat, y: Vec, p: nat) {
    |x| == |y| > 0 && Rectangular(x, p)
  }

  function Mean(v: Vec): real
    requires v != []
  {
    Sum(v) / |v| as real
  }

  /** [sum(col) / len(x) for col in zip(*x)] */
  function Means(x: Mat, p: nat): (means: Vec)
    requires x != [] && Rectangular(x, p)
    ensures |means| == p && forall j :: 0 <= j < p ==> means[j] == Mean(Column(x, j))
  {
    seq(p, j requires 0 <= j < p => Mean(Column(x, j)))
  }

  /** The columns with their means taken off, row by row. */
  function Centered(x: Mat, p: nat): (c: Mat)
    requires x != [] && Rectangular(x, p)
    ensures |c| == |x| && Rectangular(c, p)
    ensures forall i :: 0 <= i < |x| ==> c[i] == Sub(x[i], Means(x, p))
  {
    seq(|x|, i requires 0 <= i < |x| => Sub(x[i], Means(x, p)))
  }

  function CenteredTargets(y: Vec): (c: Vec)
    requires y != []
    ensures |c| == |y|
  {
    Sub(y, Constant(Mean(y), |y|))
  }

  /** sum(a * b for a, b in zip(row, beta)) + intercept - y, for every row. */
  function ResidualWith(x: Mat, y: Vec, b: Vec, intercept: real): (r: Vec)
    requires |x| == |y| && Rectangular(x, |b|)
    ensures |r| == |x| && forall i :: 0 <= i < |x| ==> r[i] == Dot(x[i], b) + intercept - y[i]
  {
    seq(|x|, i requires 0 <= i < |x| => Dot(x[i], b) + intercept - y[i])
  }

  /** The evaluator's objective for this family. */
  function Objective(x: Mat, y: Vec, l1: real, b: Vec, intercept: real): real
    requires |x| == |y| && Rectangular(x, |b|)
  {
    SqNorm(ResidualWith(x, y, b, intercept)) / 2.0 + Times(l1, L1(b))
  }

  ghost predicate IsMinimiser(x: Mat, y: Vec, l1: real, beta: Vec, intercept: real) {
    && |x| == |y| && Rectangular(x, |beta|)
    && forall b: Vec, b0: real :: |b| == |beta| ==> Objective(x, y, l1, beta, intercept) <= Objective(x, y, l1, b, b0)
  }

  /** Different columns are orthogonal. */
  ghost predicate OrthogonalColumns(x: Mat, p: nat)
    requires Rectangular(x, p)
  {
    forall j, k :: 0 <= j < p && 0 <= k < p && j != k ==> Dot(Column(x, j), Column(x, k)) == 0.0
  }

  // ----- centred data separate the intercept from the rest -----

  lemma {:induction false} ColumnDotIsDot(x: Mat, p: nat, j: nat, r: Vec)
    requires Rectangular(x, p) && j < p && |x| == |r|
    ensures ColumnDot(x, j, r) == Dot(Column(x, j), r)
  {
    hide Times;
    if x != [] {
      assert Column(x, j)[1..] == Column(x[1..], j);
      ColumnDotIsDot(x[1..], p, j, r[1..]);
    }
  }

  lemma MeanTimes(v: Vec)
    requires v != []
    ensures Times(Mean(v), |v| as real) == Sum(v)
  {
    QuotientTimes(Sum(v), |v| as real);
    TimesCommutes(Mean(v), |v| as real);
  }

  lemma CenteredColumnSums(x: Mat, p: nat, j: nat)
    requires x != [] && Rectangular(x, p) && j < p
    ensures Sum(Column(Centered(x, p), j)) == 0.0
  {
    hide Times;
    hide Sum;
    hide Mean;
    var m := Means(x, p)[j];
    var centered, shifted := Column(Centered(x, p), j), Sub(Column(x, j), Constant(m, |x|));
    forall i | 0 <= i < |x| ensures centered[i] == shifted[i] {
      assert centered[i] == Sub(x[i], Means(x, p))[j];
    }
    assert centered == shifted;
    SumSubConstant(Column(x, j), m);
    MeanTimes(Column(x, j));
  }

  lemma CenteredTargetSums(y: Vec)
    requires y != []
    ensures Sum(CenteredTargets(y)) == 0.0
  {
    hide Times;
    hide Sum;
    hide Mean;
    SumSubConstant(y, Mean(y));
    MeanTimes(y);
  }

  lemma SumIsDot(v: Vec)
    ensures Dot(v, Constant(1.0, |v|)) == Sum(v)
  {
    hide Times;
    DotConstant(v, 1.0);
    TimesUnits(Sum(v));
  }

  lemma FitsSumToZero(x: Mat, p: nat, b: Vec)
    requires x != [] && Rectangular(x, p) && |b| == p
    ensures Sum(MulVec(Centered(x, p), b)) == 0.0
  {
    hide Times;
    hide Dot;
    hide Sum;
    hide Column;
    hide Centered;
    hide MulVec;
    hide TransposeMul;
    var c, ones := Centered(x, p), Constant(1.0, |x|);
    SumIsDot(MulVec(c, b));
    Adjoint(c, b, ones);
    var sums := TransposeMul(c, p, ones);
    forall j | 0 <= j < p ensures sums[j] == 0.0 {
      ColumnDotIsDot(c, p, j, ones);
      SumIsDot(Column(c, j));
      CenteredColumnSums(x, p, j);
    }
    DotWithZero(b, sums);
  }

  /** What an intercept misses of the best one for these coefficients. */
  function Offset(x: Mat, y: Vec, b: Vec, intercept: real): real
    requires IsDesign(x, y, |b|)
  {
    Dot(Means(x, |b|), b) + intercept - Mean(y)
  }

  lemma ResidualSplits(x: Mat, y: Vec, b: Vec, intercept: real)
    requires IsDesign(x, y, |b|)
    ensures
      var r := Residual(Centered(x, |b|), CenteredTargets(y), b);
      |r| == |x| && ResidualWith(x, y, b, intercept) == Add(r, Constant(Offset(x, y, b, intercept), |x|))
  {
    hide Dot;
    hide Mean;
    hide Means;
    hide Sub;
    var c, t := Centered(x, |b|), CenteredTargets(y);
    ResidualShape(c, t, b);
    var r := Residual(c, t, b);
    var whole, split := ResidualWith(x, y, b, intercept), Add(r, Constant(Offset(x, y, b, intercept), |x|));
    forall i | 0 <= i < |x| ensures whole[i] == split[i] {
      DotSub(x[i], Means(x, |b|), b);
      assert r[i] == MulVec(c, b)[i] - t[i];
      assert t[i] == y[i] - Constant(Mean(y), |y|)[i];
    }
  }

  lemma CenteredResidualSums(x: Mat, y: Vec, b: Vec)
    requires IsDesign(x, y, |b|)
    ensures Sum(Residual(Centered(x, |b|), CenteredTargets(y), b)) == 0.0
  {
    hide Dot;
    hide Sum;
    hide Centered;
    hide CenteredTargets;
    hide MulVec;
    var c, t := Centered(x, |b|), CenteredTargets(y);
    FitsSumToZero(x, |b|, b);
    CenteredTargetSums(y);
    var ones := Constant(1.0, |x|);
    DotSub(MulVec(c, b), t, ones);
    SumIsDot(MulVec(c, b));
    SumIsDot(t);
    SumIsDot(Sub(MulVec(c, b), t));
  }

  /** The loss is the loss on centred data plus what the intercept misses. */
  lemma LossSeparates(x: Mat, y: Vec, b: Vec, intercept: real)
    requires IsDesign(x, y, |b|)
    ensures SqNorm(ResidualWith(x, y, b, intercept)) ==
            Loss(Centered(x, |b|), CenteredTargets(y), b) + SqNorm(Constant(Offset(x, y, b, intercept), |x|))
  {
    hide Dot;
    hide Times;
    hide Sum;
    hide Residual;
    hide Centered;
    hide CenteredTargets;
    hide Offset;
    hide ResidualWith;
    hide Add;
    var r := Residual(Centered(x, |b|), CenteredTargets(y), b);
    var t := Offset(x, y, b, intercept);
    ResidualSplits(x, y, b, intercept);
    SqNormOfSum(r, Constant(t, |x|));
    DotConstant(r, t);
    CenteredResidualSums(x, y, b);
    TimesUnits(t);
  }

  // ----- orthogonal columns separate the coefficients -----

  /** Column j sees only coefficient j. */
  lemma OrthogonalFit(x: Mat, b: Vec, j: nat)
    requires Rectangular(x, |b|) && j < |b| && OrthogonalColumns(x, |b|)
    ensures Dot(Column(x, j), MulVec(x, b)) == Times(ColumnNorm(x, j), b[j])
  {
    hide Times;
    hide Dot;
    hide Column;
    hide MulVec;
    hide TransposeMul;
    hide Scale;
    hide Unit;
    var p, norm, col := |b|, ColumnNorm(x, j), Column(x, j);
    Adjoint(x, b, col);
    DotCommutes(col, MulVec(x, b));
    var gram, scaled := TransposeMul(x, p, col), Scale(norm, Unit(p, j));
    forall k | 0 <= k < p ensures gram[k] == scaled[k] {
      ColumnDotIsDot(x, p, k, col);
      TimesUnits(norm);
    }
    assert gram == scaled;
    DotCommutes(b, scaled);
    DotScale(norm, Unit(p, j), b);
    DotUnit(b, j);
  }

  /** soft(...) / sum(v * v for v in col), for every centred column. */
  ghost predicate IsCoefficients(x: Mat, y: Vec, l1: real, beta: Vec)
    requires IsDesign(x, y, |beta|)
  {
    var c := Centered(x, |beta|);
    forall j :: 0 <= j < |beta| ==>
      ColumnNorm(c, j) > 0.0 && Times(ColumnNorm(c, j), beta[j]) == Soft(ColumnDot(c, j, CenteredTargets(y)), l1)
  }

  /** The gradient of the centred loss at the solution: soft thresholding of the
      correlations, less the correlations. */
  lemma GradientAtSolution(c: Mat, t: Vec, l1: real, beta: Vec, correlations: Vec)
    requires |c| == |t| && Rectangular(c, |beta|) && OrthogonalColumns(c, |beta|)
    requires correlations == TransposeMul(c, |beta|, t)
    requires forall j :: 0 <= j < |beta| ==> Times(ColumnNorm(c, j), beta[j]) == Soft(correlations[j], l1)
    ensures TransposeMul(c, |beta|, Residual(c, t, beta)) == Sub(SoftAll(correlations, l1), correlations)
  {
    hide Times;
    hide Dot;
    hide Column;
    hide ColumnNorm;
    hide MulVec;
    hide TransposeMul;
    hide Soft;
    hide SoftAll;
    hide Sub;
    var gradient, thresholded := TransposeMul(c, |beta|, Residual(c, t, beta)),
                                 Sub(SoftAll(correlations, l1), correlations);
    forall j | 0 <= j < |beta| ensures gradient[j] == thresholded[j] {
      ColumnDotIsDot(c, |beta|, j, Residual(c, t, beta));
      ColumnDotIsDot(c, |beta|, j, t);
      OrthogonalFit(c, beta, j);
      DotCommutes(Column(c, j), Sub(MulVec(c, beta), t));
      DotSub(MulVec(c, beta), t, Column(c, j));
      DotCommutes(Column(c, j), MulVec(c, beta));
      DotCommutes(Column(c, j), t);
    }
  }

  lemma AlignedCoefficient(c: real, norm: real, b: real, l1: real)
    requires l1 >= 0.0 && norm > 0.0 && Times(norm, b) == Soft(c, l1)
    ensures Times(c - Soft(c, l1), b) == Times(l1, Abs(b))
  {
    hide Times;
    TimesUnits(norm);
    TimesUnits(c - Soft(c, l1));
    TimesUnits(l1);
    if b > 0.0 {
      TimesPositive(norm, b);
    } else if b < 0.0 {
      TimesPositive(norm, -b);
      TimesNegate(norm, b);
      TimesNegate(l1, b);
    }
  }

  lemma {:induction false} AlignedCoefficients(c: Vec, norms: Vec, b: Vec, l1: real)
    requires l1 >= 0.0 && |c| == |norms| == |b|
    requires forall j :: 0 <= j < |c| ==> norms[j] > 0.0 && Times(norms[j], b[j]) == Soft(c[j], l1)
    ensures Dot(Sub(c, SoftAll(c, l1)), b) == Times(l1, L1(b))
  {
    hide Times;
    hide Soft;
    TimesUnits(l1);
    if c != [] {
      var r := Sub(c, SoftAll(c, l1));
      assert r[1..] == Sub(c[1..], SoftAll(c[1..], l1));
      AlignedCoefficients(c[1..], norms[1..], b[1..], l1);
      AlignedCoefficient(c[0], norms[0], b[0], l1);
      TimesAdd(l1, Abs(b[0]), L1(b[1..]), L1(b));
    }
  }

  /** On centred data with orthogonal columns no coefficients have a smaller
      penalised loss. */
  lemma CoefficientsAreOptimal(c: Mat, t: Vec, l1: real, beta: Vec, norms: Vec, b: Vec)
    requires
      |c| == |t| && |b| == |beta| == |norms| && Rectangular(c, |beta|) && OrthogonalColumns(c, |beta|) && l1 >= 0.0
    requires forall j :: 0 <= j < |beta| ==>
               && norms[j] == ColumnNorm(c, j) && norms[j] > 0.0
               && Times(norms[j], beta[j]) == Soft(ColumnDot(c, j, t), l1)
    ensures Loss(c, t, beta) / 2.0 + Times(l1, L1(beta)) <= Loss(c, t, b) / 2.0 + Times(l1, L1(b))
  {
    hide Times;
    hide Dot;
    hide ColumnNorm;
    hide ColumnDot;
    hide Loss;
    hide L1;
    hide Soft;
    hide TransposeMul;
    hide SqNorm;
    hide MulVec;
    hide Residual;
    hide Sub;
    hide OrthogonalColumns;
    hide SoftAll;
    hide Add;
    hide Scale;
    var correlations := TransposeMul(c, |beta|, t);
    var s := SoftAll(correlations, l1);
    GradientAtSolution(c, t, l1, beta, correlations);
    LossAboveTangent(c, t, beta, b);
    AlignedCoefficients(correlations, norms, beta, l1);
    RemaindersBound(correlations, l1, b);
    GradientAlong(b, beta, correlations, s);
  }

  lemma LossAboveTangent(c: Mat, t: Vec, beta: Vec, b: Vec)
    requires |c| == |t| && |b| == |beta| && Rectangular(c, |beta|)
    ensures Loss(c, t, b) >= Loss(c, t, beta) + 2.0 * Dot(Sub(b, beta), TransposeMul(c, |beta|, Residual(c, t, beta)))
  {
    hide Times;
    hide Dot;
    hide Loss;
    hide TransposeMul;
    hide SqNorm;
    hide MulVec;
    hide Residual;
    hide Sub;
    hide Add;
    hide Scale;
    var d := Sub(b, beta);
    ResidualShape(c, t, beta);
    MoveTo(beta, b);
    LossAlong(c, t, beta, 1.0, d);
    TimesUnits(Dot(d, TransposeMul(c, |beta|, Residual(c, t, beta))));
    TimesUnits(SqNorm(MulVec(c, d)));
    SqNormNonNegative(MulVec(c, d));
  }

  lemma RemaindersBound(u: Vec, l1: real, b: Vec)
    requires |u| == |b| && l1 >= 0.0
    ensures Dot(Sub(u, SoftAll(u, l1)), b) <= Times(l1, L1(b))
  {
    hide Times;
    hide Dot;
    hide L1;
    hide Soft;
    var r := Sub(u, SoftAll(u, l1));
    forall j | 0 <= j < |r| ensures -l1 <= r[j] <= l1 {
      SoftParts(u[j], l1);
    }
    RemainderBounded(r, l1, b);
  }

  lemma GradientAlong(b: Vec, beta: Vec, c: Vec, s: Vec)
    requires |b| == |beta| == |c| == |s|
    ensures Dot(Sub(b, beta), Sub(s, c)) == Dot(Sub(c, s), beta) - Dot(Sub(c, s), b)
  {
    hide Dot;
    hide Sub;
    DotSub(b, beta, Sub(s, c));
    DotCommutes(b, Sub(s, c));
    DotCommutes(beta, Sub(s, c));
    DotSub(s, c, b);
    DotSub(s, c, beta);
    DotSub(c, s, b);
    DotSub(c, s, beta);
  }

  /** With centred columns orthogonal, coefficients by soft thresholding and the
      intercept through the means minimise the evaluator's objective over all
      coefficients and intercepts. */
  lemma SolutionIsOptimal(x: Mat, y: Vec, l1: real, beta: Vec, intercept: real)
    requires IsDesign(x, y, |beta|) && l1 >= 0.0 && IsCoefficients(x, y, l1, beta)
    requires OrthogonalColumns(Centered(x, |beta|), |beta|)
    requires intercept == Mean(y) - Dot(Means(x, |beta|), beta)
    ensures IsMinimiser(x, y, l1, beta, intercept)
  {
    hide Times;
    hide Dot;
    hide ColumnNorm;
    hide ColumnDot;
    hide Loss;
    hide L1;
    hide Soft;
    hide SqNorm;
    hide Centered;
    hide CenteredTargets;
    hide ResidualWith;
    hide OrthogonalColumns;
    hide Mean;
    hide Means;
    hide Column;
    var c, t := Centered(x, |beta|), CenteredTargets(y);
    var norms := seq(|beta|, j requires 0 <= j < |beta| => ColumnNorm(c, j));
    forall b: Vec, b0: real | |b| == |beta|
      ensures Objective(x, y, l1, beta, intercept) <= Objective(x, y, l1, b, b0)
    {
      LossSeparates(x, y, beta, intercept);
      LossSeparates(x, y, b, b0);
      NoOffset(|x|);
      assert Offset(x, y, beta, intercept) == 0.0;
      SqNormNonNegative(Constant(Offset(x, y, b, b0), |x|));
      CoefficientsAreOptimal(c, t, l1, beta, norms, b);
    }
  }

  lemma NoOffset(n: nat)
    ensures SqNorm(Constant(0.0, n)) == 0.0
  {
    hide Times;
    DotWithZero(Constant(0.0, n), Constant(0.0, n));
  }

  /** The solver divides by the norm of every centred column, so none may be
      constant; the coefficients are optimal when the columns are orthogonal. */
  method Solve(x: Mat, y: Vec, p: nat, l1: real) returns (beta: Vec, intercept: real)
    requires IsDesign(x, y, p) && l1 >= 0.0
    requires forall j :: 0 <= j < p ==> ColumnNorm(Centered(x, p), j) != 0.0
    ensures |beta| == p && IsCoefficients(x, y, l1, beta) && intercept == Mean(y) - Dot(Means(x, p), beta)
    ensures OrthogonalColumns(Centered(x, p), p) ==> IsMinimiser(x, y, l1, beta, intercept)
  {
    hide Times;
    hide Dot;
    hide ColumnNorm;
    hide ColumnDot;
    hide Soft;
    hide IsMinimiser;
    hide OrthogonalColumns;
    var means, columns, targets := Means(x, p), Centered(x, p), CenteredTargets(y);
    beta := [];
    for j := 0 to p
      invariant |beta| == j
      invariant forall k :: 0 <= k < j ==>
        ColumnNorm(columns, k) > 0.0
        && Times(ColumnNorm(columns, k), beta[k]) == Soft(ColumnDot(columns, k, targets), l1)
    {
      var norm := ColumnNorm(columns, j);
      ColumnNormNonNegative(columns, j);
      var thresholded := Soft(ColumnDot(columns, j, targets), l1);
      QuotientTimes(thresholded, norm);
      beta := beta + [thresholded / norm];
    }
    intercept := Mean(y) - Dot(means, beta);
    if OrthogonalColumns(columns, p) {
      SolutionIsOptimal(x, y, l1, beta, intercept);
    }
  }
}
