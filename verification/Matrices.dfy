/** Row-major real matrices as the Python examples use them: residuals, column
    sums and the Frobenius bound on the spectrum of X'X. */
module Matrices {
  import opened Vectors

  type Mat = seq<Vec>

  predicate Rectangular(x: Mat, p: nat) {
    forall i :: 0 <= i < |x| ==> |x[i]| == p
  }

  /** [sum(a * b for a, b in zip(row, beta)) for row in x] */
  function MulVec(x: Mat, b: Vec): (v: Vec)
    requires Rectangular(x, |b|)
    ensures |v| == |x| && forall i :: 0 <= i < |x| ==> v[i] == Dot(x[i], b)
  {
    seq(|x|, i requires 0 <= i < |x| => Dot(x[i], b))
  }

  /** sum(row[j] * r for row, r in zip(x, residual)) */
  function ColumnDot(x: Mat, j: nat, r: Vec): real
    requires |x| == |r| && forall i :: 0 <= i < |x| ==> j < |x[i]|
  {
    if x == [] then 0.0 else Times(x[0][j], r[0]) + ColumnDot(x[1..], j, r[1..])
  }

  /** All p column sums: X' r. */
  function TransposeMul(x: Mat, p: nat, r: Vec): (v: Vec)
    requires Rectangular(x, p) && |x| == |r|
    ensures |v| == p && forall j :: 0 <= j < p ==> v[j] == ColumnDot(x, j, r)
  {
    seq(p, j requires 0 <= j < p => ColumnDot(x, j, r))
  }

  /** sum(value * value for row in x for value in row) */
  function Frobenius(x: Mat): real {
    if x == [] then 0.0 else SqNorm(x[0]) + Frobenius(x[1..])
  }

  function Residual(x: Mat, y: Vec, b: Vec): Vec
    requires Rectangular(x, |b|) && |x| == |y|
  {
    Sub(MulVec(x, b), y)
  }

  /** ||X b - y||^2 */
  function Loss(x: Mat, y: Vec, b: Vec): real
    requires Rectangular(x, |b|) && |x| == |y|
  {
    SqNorm(Residual(x, y, b))
  }

  lemma TransposeMulTail(x: Mat, p: nat, r: Vec)
    requires Rectangular(x, p) && |x| == |r| > 0
    ensures TransposeMul(x, p, r) == Add(Scale(r[0], x[0]), TransposeMul(x[1..], p, r[1..]))
  {
    hide Times;
    hide Add;
    hide Scale;
    hide TransposeMul;
    var l, q := TransposeMul(x, p, r), Add(Scale(r[0], x[0]), TransposeMul(x[1..], p, r[1..]));
    forall j | 0 <= j < p
      ensures l[j] == q[j]
    {
      TimesCommutes(x[0][j], r[0]);
      assert q[j] == Scale(r[0], x[0])[j] + TransposeMul(x[1..], p, r[1..])[j];
    }
  }

  /** <X b, r> == <b, X' r> */
  lemma {:induction false} Adjoint(x: Mat, b: Vec, r: Vec)
    requires Rectangular(x, |b|) && |x| == |r|
    ensures Dot(MulVec(x, b), r) == Dot(b, TransposeMul(x, |b|, r))
  {
    hide Times;
    hide TransposeMul;
    hide ColumnDot;
    hide Add;
    hide Scale;
    if x == [] {
      AdjointEmpty(x, b, r);
    } else {
      Adjoint(x[1..], b, r[1..]);
      AdjointStep(x, b, r);
    }
  }

  lemma {:induction false} DotWithZero(a: Vec, z: Vec)
    requires |a| == |z| && forall i :: 0 <= i < |z| ==> z[i] == 0.0
    ensures Dot(a, z) == 0.0 == Dot(z, a)
  {
    hide Times;
    if a != [] {
      TimesUnits(a[0]);
      DotWithZero(a[1..], z[1..]);
    }
  }

  lemma AdjointEmpty(x: Mat, b: Vec, r: Vec)
    requires x == [] && r == []
    ensures Dot(MulVec(x, b), r) == 0.0 == Dot(b, TransposeMul(x, |b|, r))
  {
    DotWithZero(b, TransposeMul(x, |b|, r));
  }

  lemma AdjointStep(x: Mat, b: Vec, r: Vec)
    requires Rectangular(x, |b|) && |x| == |r| > 0
    requires Dot(MulVec(x[1..], b), r[1..]) == Dot(b, TransposeMul(x[1..], |b|, r[1..]))
    ensures Dot(MulVec(x, b), r) == Dot(b, TransposeMul(x, |b|, r))
  {
    hide Times;
    hide TransposeMul;
    hide ColumnDot;
    hide Add;
    hide Scale;
    var v, t := MulVec(x, b), TransposeMul(x[1..], |b|, r[1..]);
    assert v[1..] == MulVec(x[1..], b);
    TransposeMulTail(x, |b|, r);
    assert Dot(v, r) == Times(Dot(x[0], b), r[0]) + Dot(v[1..], r[1..]);
    hide Dot;
    DotCommutes(b, Add(Scale(r[0], x[0]), t));
    DotAdd(Scale(r[0], x[0]), t, b);
    DotScale(r[0], x[0], b);
    DotCommutes(t, b);
    TimesCommutes(r[0], Dot(x[0], b));
  }

  /** X (a + b) == X a + X b, and X (s a) == s X a. */
  lemma MulVecLinear(x: Mat, a: Vec, s: real, b: Vec)
    requires |a| == |b| && Rectangular(x, |a|)
    ensures MulVec(x, Add(a, Scale(s, b))) == Add(MulVec(x, a), Scale(s, MulVec(x, b)))
  {
    hide Times;
    hide Dot;
    hide Add;
    hide Scale;
    var l, q := MulVec(x, Add(a, Scale(s, b))), Add(MulVec(x, a), Scale(s, MulVec(x, b)));
    forall i | 0 <= i < |x|
      ensures l[i] == q[i]
    {
      DotCommutes(x[i], Add(a, Scale(s, b)));
      DotAdd(a, Scale(s, b), x[i]);
      DotScale(s, b, x[i]);
      DotCommutes(x[i], a);
      DotCommutes(x[i], b);
      assert q[i] == MulVec(x, a)[i] + Scale(s, MulVec(x, b))[i];
    }
  }

  /** The residual moves linearly with beta. */
  lemma ResidualMoves(x: Mat, y: Vec, a: Vec, s: real, d: Vec)
    requires |a| == |d| && Rectangular(x, |a|) && |x| == |y|
    ensures Residual(x, y, Add(a, Scale(s, d))) == Add(Residual(x, y, a), Scale(s, MulVec(x, d)))
  {
    hide Times;
    hide Dot;
    hide Add;
    hide Scale;
    hide Sub;
    hide MulVec;
    MulVecLinear(x, a, s, d);
    var l, q := Residual(x, y, Add(a, Scale(s, d))), Add(Residual(x, y, a), Scale(s, MulVec(x, d)));
    forall i | 0 <= i < |x|
      ensures l[i] == q[i]
    {
      assert l[i] == Add(MulVec(x, a), Scale(s, MulVec(x, d)))[i] - y[i];
    }
  }

  /** ||X (b + s d) - y||^2 expanded around b. */
  lemma LossAlong(x: Mat, y: Vec, b: Vec, s: real, d: Vec)
    requires |b| == |d| && Rectangular(x, |b|) && |x| == |y|
    ensures
      Loss(x, y, Add(b, Scale(s, d))) ==
      Loss(x, y, b) + 2.0 * Times(s, Dot(d, TransposeMul(x, |b|, Residual(x, y, b)))) +
      Times(s, Times(s, SqNorm(MulVec(x, d))))
  {
    hide Times;
    hide Dot;
    hide Add;
    hide Scale;
    hide MulVec;
    hide TransposeMul;
    hide Residual;
    var r, v := Residual(x, y, b), MulVec(x, d);
    ResidualShape(x, y, b);
    ResidualMoves(x, y, b, s, d);
    SqNormOfSum(r, Scale(s, v));
    SqNormScale(s, v);
    DotCommutes(r, Scale(s, v));
    DotScale(s, v, r);
    Adjoint(x, d, r);
  }

  lemma ResidualShape(x: Mat, y: Vec, b: Vec)
    requires Rectangular(x, |b|) && |x| == |y|
    ensures |Residual(x, y, b)| == |x|
  {}

  // ----- Cauchy-Schwarz, one row at a time -----

  /** The real arithmetic of ||B a - D b||^2 >= 0, with A, B the square norms
      and D the inner product. */
  lemma CauchyScalar(A: real, B: real, D: real)
    requires B > 0.0
    requires Times(B, Times(B, A)) - 2.0 * Times(B, Times(D, D)) + Times(D, Times(D, B)) >= 0.0
    ensures Times(D, D) <= Times(A, B)
  {
    hide Times;
    var ab, dd := Times(A, B), Times(D, D);
    TimesCommutes(A, B);
    TimesAssociates(D, D, B);
    TimesCommutes(dd, B);
    if ab < dd {
      TimesStrict(ab, dd, B);
    }
  }

  lemma CauchySchwarz(a: Vec, b: Vec)
    requires |a| == |b|
    ensures Times(Dot(a, b), Dot(a, b)) <= Times(SqNorm(a), SqNorm(b))
  {
    hide Times;
    hide Dot;
    hide Sub;
    hide Add;
    hide Scale;
    var A, B, D := SqNorm(a), SqNorm(b), Dot(a, b);
    SqNormNonNegative(b);
    if B == 0.0 {
      SqNormZero(b);
      DotWithZero(a, b);
      TimesUnits(A);
      TimesUnits(D);
    } else {
      var p, q := Scale(B, a), Scale(-D, b);
      SqNormNonNegative(Add(p, q));
      SqNormOfSum(p, q);
      SqNormScale(B, a);
      SqNormScale(-D, b);
      DotScale(B, a, q);
      DotCommutes(a, q);
      DotScale(-D, b, a);
      DotCommutes(b, a);
      NegatedSquare(B, D);
      CauchyScalar(A, B, D);
    }
  }

  lemma NegatedSquare(B: real, D: real)
    ensures Times(B, Times(-D, D)) == -Times(B, Times(D, D))
    ensures Times(-D, Times(-D, B)) == Times(D, Times(D, B))
  {
    hide Times;
    TimesSub(D, 0.0, D, -D);
    TimesUnits(D);
    TimesUnits(B);
    var dd, db := Times(D, D), Times(D, B);
    TimesSub(B, 0.0, dd, Times(-D, D));
    TimesSub(B, 0.0, D, -D);
    TimesSub(D, 0.0, db, -db);
    TimesSub(-D, 0.0, db, -db);
    TimesUnits(-D);
    TimesSub(-db, 0.0, D, -D);
    TimesUnits(-db);
  }

  /** ||X v||^2 <= ||X||_F^2 ||v||^2 */
  lemma {:induction false} FrobeniusBound(x: Mat, v: Vec)
    requires Rectangular(x, |v|)
    ensures SqNorm(MulVec(x, v)) <= Times(Frobenius(x), SqNorm(v))
  {
    hide Times;
    if x == [] {
      TimesUnits(SqNorm(v));
    } else {
      var w := MulVec(x, v);
      assert w[1..] == MulVec(x[1..], v);
      FrobeniusBound(x[1..], v);
      CauchySchwarz(x[0], v);
      TimesAdd(SqNorm(v), SqNorm(x[0]), Frobenius(x[1..]), Frobenius(x));
    }
  }

  lemma {:induction false} FrobeniusNonNegative(x: Mat)
    ensures Frobenius(x) >= 0.0
  {
    if x != [] {
      SqNormNonNegative(x[0]);
      FrobeniusNonNegative(x[1..]);
    }
  }
}
