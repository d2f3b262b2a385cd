/** Finite real vectors: the sums, inner products and distances that the Python
    examples write as generator expressions.

    Products are written with Times, and the vector lemmas hide its body: they
    use only the bilinear laws proved next to it. */
module Vectors {

  type Vec = seq<real>

  function Times(x: real, y: real): real {
    x * y
  }

  function Sum(v: Vec): real {
    if v == [] then 0.0 else v[0] + Sum(v[1..])
  }

  function Dot(a: Vec, b: Vec): real
    requires |a| == |b|
  {
    if a == [] then 0.0 else Times(a[0], b[0]) + Dot(a[1..], b[1..])
  }

  function Add(a: Vec, b: Vec): (c: Vec)
    requires |a| == |b|
    ensures |c| == |a| && forall i :: 0 <= i < |a| ==> c[i] == a[i] + b[i]
  {
    seq(|a|, i requires 0 <= i < |a| => a[i] + b[i])
  }

  function Sub(a: Vec, b: Vec): (c: Vec)
    requires |a| == |b|
    ensures |c| == |a| && forall i :: 0 <= i < |a| ==> c[i] == a[i] - b[i]
  {
    seq(|a|, i requires 0 <= i < |a| => a[i] - b[i])
  }

  function Scale(s: real, a: Vec): (c: Vec)
    ensures |c| == |a| && forall i :: 0 <= i < |a| ==> c[i] == Times(s, a[i])
  {
    seq(|a|, i requires 0 <= i < |a| => Times(s, a[i]))
  }

  function Constant(c: real, n: nat): (v: Vec)
    ensures |v| == n && forall i :: 0 <= i < n ==> v[i] == c
  {
    seq(n, _ => c)
  }

  function SqNorm(a: Vec): real {
    Dot(a, a)
  }

  /** The squared Euclidean distance. */
  function SqDist(a: Vec, b: Vec): real
    requires |a| == |b|
  {
    SqNorm(Sub(a, b))
  }

  function Abs(v: real): real {
    if v < 0.0 then -v else v
  }

  // ----- laws of the product -----

  lemma TimesAdd(s: real, p: real, q: real, r: real)
    requires r == p + q
    ensures Times(s, r) == Times(s, p) + Times(s, q)
    ensures Times(r, s) == Times(p, s) + Times(q, s)
  {}

  lemma TimesSub(s: real, p: real, q: real, r: real)
    requires r == p - q
    ensures Times(s, r) == Times(s, p) - Times(s, q)
    ensures Times(r, s) == Times(p, s) - Times(q, s)
  {
    hide Times;
    TimesAdd(s, r, q, p);
  }

  lemma TimesAssociates(s: real, x: real, y: real)
    ensures Times(Times(s, x), y) == Times(s, Times(x, y))
  {}

  lemma TimesCommutes(x: real, y: real)
    ensures Times(x, y) == Times(y, x)
  {}

  lemma TimesUnits(x: real)
    ensures Times(0.0, x) == 0.0 == Times(x, 0.0)
    ensures Times(1.0, x) == x == Times(x, 1.0)
    ensures Times(-1.0, x) == -x == Times(x, -1.0)
  {}

  lemma TimesNegate(s: real, x: real)
    ensures Times(-s, x) == -Times(s, x) == Times(s, -x)
  {
    hide Times;
    TimesSub(x, 0.0, s, -s);
    TimesSub(s, 0.0, x, -x);
    TimesUnits(x);
    TimesUnits(s);
  }

  lemma QuotientTimes(v: real, n: real)
    requires n != 0.0
    ensures Times(n, v / n) == v
  {}

  lemma TimesPositive(x: real, y: real)
    requires x > 0.0 && y > 0.0
    ensures Times(x, y) > 0.0
  {}

  lemma TimesNonNegative(x: real, y: real)
    requires x >= 0.0 && y >= 0.0
    ensures Times(x, y) >= 0.0
  {}

  /** Multiplying by a nonnegative factor keeps an inequality. */
  lemma TimesMonotone(x: real, y: real, k: real)
    requires x <= y && 0.0 <= k
    ensures Times(x, k) <= Times(y, k) && Times(k, x) <= Times(k, y)
  {
    hide Times;
    TimesSub(k, y, x, y - x);
    TimesNonNegative(y - x, k);
    TimesNonNegative(k, y - x);
  }

  lemma TimesStrict(x: real, y: real, k: real)
    requires x < y && 0.0 < k
    ensures Times(x, k) < Times(y, k) && Times(k, x) < Times(k, y)
  {
    hide Times;
    TimesSub(k, y, x, y - x);
    TimesPositive(y - x, k);
    TimesPositive(k, y - x);
  }

  lemma SquareNonNegative(x: real)
    ensures Times(x, x) >= 0.0
    ensures x != 0.0 ==> Times(x, x) > 0.0
  {
    hide Times;
    if x > 0.0 {
      TimesPositive(x, x);
    } else if x < 0.0 {
      TimesPositive(-x, -x);
      TimesSub(-x, 0.0, x, -x);
      TimesSub(x, 0.0, x, -x);
      TimesUnits(x);
      TimesUnits(-x);
    } else {
      TimesUnits(x);
    }
  }

  // ----- sums -----

  lemma {:induction false} SumAppend(a: Vec, b: Vec)
    ensures Sum(a + b) == Sum(a) + Sum(b)
  {
    if a == [] {
      assert a + b == b;
    } else {
      assert (a + b)[1..] == a[1..] + b;
      SumAppend(a[1..], b);
    }
  }

  lemma SumSplit(v: Vec, k: nat)
    requires k <= |v|
    ensures Sum(v) == Sum(v[..k]) + Sum(v[k..])
  {
    assert v == v[..k] + v[k..];
    SumAppend(v[..k], v[k..]);
  }

  lemma SumSingle(x: real)
    ensures Sum([x]) == x
  {
    assert [x][1..] == [];
  }

  // ----- inner products -----

  lemma SubAppend(a: Vec, b: Vec, c: Vec, d: Vec)
    requires |a| == |b| && |c| == |d|
    ensures Sub(a + c, b + d) == Sub(a, b) + Sub(c, d)
  {
    hide Sub;
    var l, r := Sub(a + c, b + d), Sub(a, b) + Sub(c, d);
    forall i | 0 <= i < |l|
      ensures l[i] == r[i]
    {
      assert l[i] == (a + c)[i] - (b + d)[i];
      if i < |a| {
        assert r[i] == Sub(a, b)[i];
      } else {
        assert r[i] == Sub(c, d)[i - |a|];
      }
    }
  }

  lemma {:induction false} DotAppend(a: Vec, b: Vec, c: Vec, d: Vec)
    requires |a| == |b| && |c| == |d|
    ensures Dot(a + c, b + d) == Dot(a, b) + Dot(c, d)
  {
    hide Times;
    if a == [] {
      assert a + c == c && b + d == d;
    } else {
      assert (a + c)[1..] == a[1..] + c && (b + d)[1..] == b[1..] + d;
      DotAppend(a[1..], b[1..], c, d);
    }
  }

  lemma {:induction false} DotCommutes(a: Vec, b: Vec)
    requires |a| == |b|
    ensures Dot(a, b) == Dot(b, a)
  {
    hide Times;
    if a != [] {
      TimesCommutes(a[0], b[0]);
      DotCommutes(a[1..], b[1..]);
    }
  }

  lemma {:induction false} DotAdd(a: Vec, b: Vec, c: Vec)
    requires |a| == |b| == |c|
    ensures Dot(Add(a, b), c) == Dot(a, c) + Dot(b, c)
  {
    hide Times;
    if a != [] {
      var s := Add(a, b);
      assert s[1..] == Add(a[1..], b[1..]);
      DotAdd(a[1..], b[1..], c[1..]);
      TimesAdd(c[0], a[0], b[0], s[0]);
    }
  }

  lemma {:induction false} DotSub(a: Vec, b: Vec, c: Vec)
    requires |a| == |b| == |c|
    ensures Dot(Sub(a, b), c) == Dot(a, c) - Dot(b, c)
  {
    hide Times;
    if a != [] {
      var s := Sub(a, b);
      assert s[1..] == Sub(a[1..], b[1..]);
      DotSub(a[1..], b[1..], c[1..]);
      TimesSub(c[0], a[0], b[0], s[0]);
    }
  }

  lemma {:induction false} DotScale(s: real, a: Vec, b: Vec)
    requires |a| == |b|
    ensures Dot(Scale(s, a), b) == Times(s, Dot(a, b))
  {
    hide Times;
    TimesUnits(s);
    if a != [] {
      var c := Scale(s, a);
      assert c[1..] == Scale(s, a[1..]);
      DotScale(s, a[1..], b[1..]);
      TimesAssociates(s, a[0], b[0]);
      TimesAdd(s, Times(a[0], b[0]), Dot(a[1..], b[1..]), Dot(a, b));
    }
  }

  lemma {:induction false} SqNormNonNegative(a: Vec)
    ensures SqNorm(a) >= 0.0
  {
    hide Times;
    if a != [] {
      SquareNonNegative(a[0]);
      SqNormNonNegative(a[1..]);
    }
  }

  lemma {:induction false} SqNormZero(a: Vec)
    requires SqNorm(a) == 0.0
    ensures forall i :: 0 <= i < |a| ==> a[i] == 0.0
  {
    hide Times;
    if a != [] {
      SquareNonNegative(a[0]);
      SqNormNonNegative(a[1..]);
      SqNormZero(a[1..]);
      forall i | 0 <= i < |a|
        ensures a[i] == 0.0
      {
        if i > 0 {
          assert a[i] == a[1..][i - 1];
        }
      }
    }
  }

  /** Distance zero means equality. */
  lemma SqDistZero(a: Vec, b: Vec)
    requires |a| == |b| && SqDist(a, b) == 0.0
    ensures a == b
  {
    hide Dot;
    SqNormZero(Sub(a, b));
    forall i | 0 <= i < |a|
      ensures a[i] == b[i]
    {
      assert Sub(a, b)[i] == 0.0;
    }
  }

  /** ||a + b||^2 expanded. */
  lemma SqNormOfSum(a: Vec, b: Vec)
    requires |a| == |b|
    ensures SqNorm(Add(a, b)) == SqNorm(a) + 2.0 * Dot(a, b) + SqNorm(b)
  {
    hide Dot;
    var c := Add(a, b);
    DotAdd(a, b, c);
    DotCommutes(a, c);
    DotCommutes(b, c);
    DotAdd(a, b, a);
    DotAdd(a, b, b);
    DotCommutes(a, b);
  }

  /** ||s a||^2. */
  lemma SqNormScale(s: real, a: Vec)
    ensures SqNorm(Scale(s, a)) == Times(s, Times(s, SqNorm(a)))
  {
    hide Dot;
    hide Times;
    DotScale(s, a, Scale(s, a));
    DotCommutes(a, Scale(s, a));
    DotScale(s, a, a);
  }

  /** ||p - b||^2 around a third point w. */
  lemma SqDistAround(p: Vec, w: Vec, b: Vec)
    requires |p| == |w| == |b|
    ensures SqDist(p, b) == SqDist(p, w) + 2.0 * Dot(Sub(p, w), Sub(w, b)) + SqDist(w, b)
  {
    hide Dot;
    assert Sub(p, b) == Add(Sub(p, w), Sub(w, b));
    SqNormOfSum(Sub(p, w), Sub(w, b));
  }

  lemma SqDistSymmetric(a: Vec, b: Vec)
    requires |a| == |b|
    ensures SqDist(a, b) == SqDist(b, a)
  {
    hide Dot;
    var d := Sub(b, a);
    forall i | 0 <= i < |a|
      ensures Sub(a, b)[i] == Scale(-1.0, d)[i]
    {
      TimesUnits(d[i]);
    }
    assert Sub(a, b) == Scale(-1.0, d);
    SqNormScale(-1.0, d);
  }
}
