/** Pool-adjacent-violators from examples/workflow-smoke/solver.py, proved to
    return the least-squares isotonic fit. */
module Isotonic {
  import opened Vectors

  /** One pooled block: the Python list [total, count]. */
  datatype Block = Block(total: real, count: nat)

  ghost predicate Nondecreasing(v: Vec) {
    forall i, j :: 0 <= i <= j < |v| ==> v[i] <= v[j]
  }

  function Mean(b: Block): real
    requires b.count > 0
  {
    b.total / (b.count as real)
  }

  /** Every prefix of the segment averages at least m. */
  ghost predicate PrefixesAverageAtLeast(segment: Vec, m: real) {
    forall k :: 0 <= k <= |segment| ==> Times(m, k as real) <= Sum(segment[..k])
  }

  /** The block summarises the segment, and no prefix of it could be split off
      with a smaller mean. */
  ghost predicate IsBlock(b: Block, segment: Vec) {
    && b.count == |segment| > 0
    && b.total == Sum(segment)
    && PrefixesAverageAtLeast(segment, Mean(b))
  }

  ghost predicate Positive(blocks: seq<Block>) {
    forall i :: 0 <= i < |blocks| ==> blocks[i].count > 0
  }

  /** The blocks cut s into consecutive segments. */
  ghost predicate Partition(blocks: seq<Block>, s: Vec) {
    if blocks == [] then s == []
    else
      var last := blocks[|blocks| - 1];
      && last.count <= |s|
      && IsBlock(last, s[|s| - last.count..])
      && Partition(blocks[..|blocks| - 1], s[..|s| - last.count])
  }

  ghost predicate MeansAscend(blocks: seq<Block>)
    requires Positive(blocks)
  {
    forall i :: 0 < i < |blocks| ==> Mean(blocks[i - 1]) <= Mean(blocks[i])
  }

  /** The list comprehension that repeats each block mean count times. */
  function Expand(blocks: seq<Block>): Vec
    requires Positive(blocks)
  {
    if blocks == [] then []
    else Expand(blocks[..|blocks| - 1]) + Constant(Mean(blocks[|blocks| - 1]), blocks[|blocks| - 1].count)
  }

  /** u is the projection of s onto the cone of nondecreasing vectors: the
      residual is orthogonal to u and has no positive component along the cone. */
  ghost predicate IsIsotonicFit(s: Vec, u: Vec) {
    && |u| == |s|
    && Nondecreasing(u)
    && Dot(Sub(s, u), u) == 0.0
    && forall b: Vec :: |b| == |s| && Nondecreasing(b) ==> Dot(Sub(s, u), b) <= 0.0
  }

  method Pool(values: Vec) returns (fit: Vec, ghost merges: nat)
    ensures |fit| == |values| && Nondecreasing(fit) && Sum(fit) == Sum(values)
    ensures IsIsotonicFit(values, fit)
    ensures
      forall b: Vec :: |b| == |values| && Nondecreasing(b) ==> SqDist(values, fit) + SqDist(fit, b) <= SqDist(values, b)
    ensures merges <= |values|
  {
    hide Mean;
    hide IsBlock;
    hide Partition;
    hide IsIsotonicFit;
    hide Nondecreasing;
    hide Expand;
    var blocks: seq<Block> := [];
    PartitionEmpty();
    merges := 0;
    for i := 0 to |values|
      invariant Partition(blocks, values[..i]) && Positive(blocks) && MeansAscend(blocks)
      invariant merges + |blocks| == i
    {
      PartitionPush(blocks, values[..i], values[i]);
      assert values[..i + 1] == values[..i] + [values[i]];
      assert (blocks + [Block(values[i], 1)])[..|blocks|] == blocks;
      blocks := blocks + [Block(values[i], 1)];
      while |blocks| > 1 && Mean(blocks[|blocks| - 2]) > Mean(blocks[|blocks| - 1])
        invariant |blocks| > 0
        invariant Partition(blocks, values[..i + 1]) && Positive(blocks) && MeansAscend(blocks[..|blocks| - 1])
        invariant merges + |blocks| == i + 1
        decreases |blocks|
      {
        PartitionMerge(blocks, values[..i + 1]);
        ghost var before := blocks;
        var last := blocks[|blocks| - 1];
        blocks := blocks[..|blocks| - 1];
        var previous := blocks[|blocks| - 1];
        blocks := blocks[..|blocks| - 1] + [Block(previous.total + last.total, previous.count + last.count)];
        assert blocks[..|blocks| - 1] == before[..|before| - 2];
        merges := merges + 1;
      }
    }
    assert values[..|values|] == values;
    fit := Expand(blocks);
    ExpandIsFit(blocks, values);
    FitIsOptimal(values, fit);
  }

  // ----- one block -----

  lemma PartitionEmpty()
    ensures Partition([], [])
  {}

  lemma SingleIsBlock(value: real)
    ensures IsBlock(Block(value, 1), [value])
  {
    SumSingle(value);
    MeanTimesCount(Block(value, 1));
    TimesUnits(value);
    TimesUnits(Mean(Block(value, 1)));
    forall k | 0 <= k <= 1
      ensures Times(Mean(Block(value, 1)), k as real) <= Sum([value][..k])
    {
      assert [value][..0] == [] && [value][..1] == [value];
    }
  }

  lemma PartitionPush(blocks: seq<Block>, s: Vec, value: real)
    requires Partition(blocks, s)
    ensures Partition(blocks + [Block(value, 1)], s + [value])
  {
    hide IsBlock;
    SingleIsBlock(value);
    var all := blocks + [Block(value, 1)];
    assert all[..|all| - 1] == blocks;
    assert (s + [value])[..|s|] == s && (s + [value])[|s|..] == [value];
  }

  lemma MeanTimesCount(b: Block)
    requires b.count > 0
    ensures Times(Mean(b), b.count as real) == b.total
  {}

  /** The pooled mean lies between the two means. */
  lemma PooledMean(ma: real, mc: real, m: real, a: real, c: real, n: real)
    requires ma > mc && a > 0.0 && c > 0.0 && n == a + c
    requires Times(m, n) == Times(ma, a) + Times(mc, c)
    ensures mc <= m <= ma
  {
    hide Times;
    TimesAdd(mc, a, c, n);
    TimesAdd(ma, a, c, n);
    TimesMonotone(mc, ma, a);
    TimesMonotone(mc, ma, c);
    if m < mc {
      TimesStrict(m, mc, n);
    }
    if m > ma {
      TimesStrict(ma, m, n);
    }
  }

  lemma PooledPrefix(ma: real, mc: real, m: real, a: real, c: real, n: real, j: real, k: real)
    requires mc <= m && 0.0 <= j <= c && n == a + c && k == a + j
    requires Times(m, n) == Times(ma, a) + Times(mc, c)
    ensures Times(m, k) <= Times(ma, a) + Times(mc, j)
  {
    hide Times;
    TimesSub(m, n, c - j, k);
    TimesSub(mc, c, j, c - j);
    TimesMonotone(mc, m, c - j);
  }

  /** Pooling two adjacent violators yields a block again. */
  lemma MergeBlocks(p: Block, q: Block, s: Vec, t: Vec)
    requires IsBlock(p, s) && IsBlock(q, t) && Mean(p) > Mean(q)
    ensures IsBlock(Block(p.total + q.total, p.count + q.count), s + t)
  {
    hide Times;
    hide Mean;
    var m := Block(p.total + q.total, p.count + q.count);
    var a, c, n := p.count as real, q.count as real, m.count as real;
    SumAppend(s, t);
    MeanTimesCount(p);
    MeanTimesCount(q);
    MeanTimesCount(m);
    PooledMean(Mean(p), Mean(q), Mean(m), a, c, n);
    forall k | 0 <= k <= |s + t|
      ensures Times(Mean(m), k as real) <= Sum((s + t)[..k])
    {
      if k <= |s| {
        assert (s + t)[..k] == s[..k];
        TimesMonotone(Mean(m), Mean(p), k as real);
      } else {
        var j := k - |s|;
        assert (s + t)[..k] == s + t[..j];
        SumAppend(s, t[..j]);
        PooledPrefix(Mean(p), Mean(q), Mean(m), a, c, n, j as real, k as real);
      }
    }
  }

  lemma PartitionMerge(blocks: seq<Block>, s: Vec)
    requires |blocks| > 1 && Partition(blocks, s) && Positive(blocks)
    requires Mean(blocks[|blocks| - 2]) > Mean(blocks[|blocks| - 1])
    ensures
      var p, q := blocks[|blocks| - 2], blocks[|blocks| - 1];
      Partition(blocks[..|blocks| - 2] + [Block(p.total + q.total, p.count + q.count)], s)
  {
    hide IsBlock;
    hide Mean;
    var n := |blocks|;
    var p, q := blocks[n - 2], blocks[n - 1];
    var head := s[..|s| - q.count];
    var front := blocks[..n - 1];
    assert front[|front| - 1] == p && front[..|front| - 1] == blocks[..n - 2];
    var left, right := head[|head| - p.count..], s[|s| - q.count..];
    MergeBlocks(p, q, left, right);
    var merged := Block(p.total + q.total, p.count + q.count);
    var result := blocks[..n - 2] + [merged];
    assert result[..|result| - 1] == blocks[..n - 2];
    assert s[|s| - merged.count..] == left + right;
    assert s[..|s| - merged.count] == head[..|head| - p.count];
  }

  // ----- Abel summation: a block cannot be improved by a nondecreasing vector -----

  lemma SumMinusLevel(total: real, x: real, m: real, n: nat, excess: real)
    requires excess == total - Times(m, n as real)
    ensures total + x - Times(m, (n + 1) as real) == excess + (x - m)
  {
    hide Times;
    TimesAdd(m, n as real, 1.0, (n + 1) as real);
    TimesUnits(m);
  }

  /** Dot(segment - m, b) over the first k entries. */
  ghost function Deviation(segment: Vec, b: Vec, m: real, k: nat): real
    requires k <= |segment| == |b|
  {
    if k == 0 then 0.0 else Deviation(segment, b, m, k - 1) + Times(segment[k - 1] - m, b[k - 1])
  }

  lemma {:induction false} DeviationIsDot(segment: Vec, b: Vec, m: real, k: nat)
    requires k <= |segment| == |b|
    ensures Deviation(segment, b, m, k) == Dot(Sub(segment, Constant(m, |segment|))[..k], b[..k])
  {
    hide Times;
    hide Sub;
    if k > 0 {
      DeviationIsDot(segment, b, m, k - 1);
      var r := Sub(segment, Constant(m, |segment|));
      assert r[..k] == r[..k - 1] + [r[k - 1]] && b[..k] == b[..k - 1] + [b[k - 1]];
      DotAppend(r[..k - 1], b[..k - 1], [r[k - 1]], [b[k - 1]]);
      DotSingle(r[k - 1], b[k - 1]);
    }
  }

  lemma SumPrefixStep(v: Vec, k: nat)
    requires 0 < k <= |v|
    ensures Sum(v[..k]) == Sum(v[..k - 1]) + v[k - 1]
  {
    assert v[..k] == v[..k - 1] + [v[k - 1]];
    SumAppend(v[..k - 1], [v[k - 1]]);
    SumSingle(v[k - 1]);
  }

  lemma {:induction false} AbelPrefix(segment: Vec, b: Vec, m: real, k: nat)
    requires 0 < k <= |segment| == |b|
    requires PrefixesAverageAtLeast(segment, m) && Nondecreasing(b)
    ensures Deviation(segment, b, m, k) <= Times(Sum(segment[..k]) - Times(m, k as real), b[k - 1])
  {
    hide Times;
    hide Sum;
    var x, y := segment[k - 1], b[k - 1];
    SumPrefixStep(segment, k);
    var excess := Sum(segment[..k - 1]) - Times(m, (k - 1) as real);
    SumMinusLevel(Sum(segment[..k - 1]), x, m, k - 1, excess);
    TimesAdd(y, excess, x - m, Sum(segment[..k]) - Times(m, k as real));
    if k > 1 {
      AbelPrefix(segment, b, m, k - 1);
      TimesMonotone(b[k - 2], y, excess);
    } else {
      EmptySum(segment[..0]);
      TimesUnits(m);
      TimesUnits(y);
    }
  }

  lemma EmptySum(v: Vec)
    requires v == []
    ensures Sum(v) == 0.0
  {}

  lemma AbelBound(segment: Vec, b: Vec, m: real)
    requires |segment| == |b| > 0
    requires PrefixesAverageAtLeast(segment, m) && Nondecreasing(b)
    ensures
      Dot(Sub(segment, Constant(m, |segment|)), b) <= Times(Sum(segment) - Times(m, |segment| as real), b[|b| - 1])
  {
    hide Times;
    hide Dot;
    hide Sum;
    hide Sub;
    AbelPrefix(segment, b, m, |b|);
    DeviationIsDot(segment, b, m, |b|);
    var r := Sub(segment, Constant(m, |segment|));
    assert r[..|b|] == r && b[..|b|] == b && segment[..|b|] == segment;
  }

  lemma DotSingle(x: real, y: real)
    ensures Dot([x], [y]) == Times(x, y)
  {
    hide Times;
    assert [x][1..] == [] && [y][1..] == [];
  }

  lemma {:induction false} DotConstant(v: Vec, c: real)
    ensures Dot(v, Constant(c, |v|)) == Times(c, Sum(v))
  {
    hide Times;
    TimesUnits(c);
    if v != [] {
      assert Constant(c, |v|)[1..] == Constant(c, |v| - 1);
      DotConstant(v[1..], c);
      TimesCommutes(c, v[0]);
      TimesAdd(c, v[0], Sum(v[1..]), Sum(v));
    }
  }

  lemma {:induction false} SumSubConstant(v: Vec, c: real)
    ensures Sum(Sub(v, Constant(c, |v|))) == Sum(v) - Times(c, |v| as real)
  {
    hide Times;
    TimesUnits(c);
    if v != [] {
      assert Sub(v, Constant(c, |v|))[1..] == Sub(v[1..], Constant(c, |v| - 1));
      SumSubConstant(v[1..], c);
      TimesAdd(c, (|v| - 1) as real, 1.0, |v| as real);
    }
  }

  lemma {:induction false} SumConstant(c: real, n: nat)
    ensures Sum(Constant(c, n)) == Times(c, n as real)
  {
    hide Times;
    TimesUnits(c);
    if n > 0 {
      assert Constant(c, n)[1..] == Constant(c, n - 1);
      SumConstant(c, n - 1);
      TimesAdd(c, (n - 1) as real, 1.0, n as real);
    }
  }

  /** The residual of a block against its mean: orthogonal to constants, and
      never positive along a nondecreasing vector. */
  lemma BlockResidual(q: Block, segment: Vec, b: Vec)
    requires IsBlock(q, segment) && |b| == |segment| && Nondecreasing(b)
    ensures Dot(Sub(segment, Constant(Mean(q), q.count)), b) <= 0.0
    ensures Dot(Sub(segment, Constant(Mean(q), q.count)), Constant(Mean(q), q.count)) == 0.0
  {
    hide Times;
    hide Mean;
    hide Dot;
    hide Sum;
    MeanTimesCount(q);
    AbelBound(segment, b, Mean(q));
    TimesUnits(b[|b| - 1]);
    var r := Sub(segment, Constant(Mean(q), q.count));
    DotConstant(r, Mean(q));
    SumSubConstant(segment, Mean(q));
    TimesUnits(Mean(q));
  }

  // ----- the expanded blocks are the fit -----

  lemma {:induction false} ExpandShape(blocks: seq<Block>, s: Vec)
    requires Partition(blocks, s) && Positive(blocks)
    ensures |Expand(blocks)| == |s| && Sum(Expand(blocks)) == Sum(s)
  {
    hide Times;
    hide Mean;
    if blocks != [] {
      var last := blocks[|blocks| - 1];
      var cut := |s| - last.count;
      ExpandShape(blocks[..|blocks| - 1], s[..cut]);
      SumSplit(s, cut);
      SumConstant(Mean(last), last.count);
      MeanTimesCount(last);
      SumAppend(Expand(blocks[..|blocks| - 1]), Constant(Mean(last), last.count));
    }
  }

  lemma {:induction false} ExpandAscends(blocks: seq<Block>)
    requires Positive(blocks) && MeansAscend(blocks)
    ensures Nondecreasing(Expand(blocks))
    ensures blocks != [] ==> Expand(blocks) != [] && Expand(blocks)[|Expand(blocks)| - 1] == Mean(blocks[|blocks| - 1])
  {
    hide Mean;
    if blocks != [] {
      ExpandAscends(blocks[..|blocks| - 1]);
    }
  }

  lemma {:induction false} ExpandResidual(blocks: seq<Block>, s: Vec, b: Vec)
    requires Partition(blocks, s) && Positive(blocks) && |Expand(blocks)| == |s| == |b| && Nondecreasing(b)
    ensures Dot(Sub(s, Expand(blocks)), b) <= 0.0
    ensures Dot(Sub(s, Expand(blocks)), Expand(blocks)) == 0.0
  {
    hide IsBlock;
    hide Mean;
    hide Sub;
    hide Nondecreasing;
    if blocks == [] {
      assert |Sub(s, [])| == 0;
    } else {
      hide Dot;
      var n := |blocks| - 1;
      var last := blocks[n];
      var cut := |s| - last.count;
      ExpandShape(blocks[..n], s[..cut]);
      NondecreasingSplit(b, cut);
      ExpandResidual(blocks[..n], s[..cut], b[..cut]);
      ResidualStep(s, cut, Expand(blocks[..n]), last, b);
    }
  }

  lemma ResidualStep(s: Vec, cut: nat, front: Vec, q: Block, b: Vec)
    requires cut <= |s| == |b| && |front| == cut && IsBlock(q, s[cut..]) && Nondecreasing(b)
    requires Dot(Sub(s[..cut], front), b[..cut]) <= 0.0 == Dot(Sub(s[..cut], front), front)
    ensures
      var fit := front + Constant(Mean(q), q.count);
      |fit| == |s| && Dot(Sub(s, fit), b) <= 0.0 == Dot(Sub(s, fit), fit)
  {
    hide IsBlock;
    hide Mean;
    hide Sub;
    hide Dot;
    hide Nondecreasing;
    BlockIsNonempty(q, s[cut..]);
    NondecreasingSplit(b, cut);
    BlockResidual(q, s[cut..], b[cut..]);
    Glue(s[..cut], front, s[cut..], Constant(Mean(q), q.count), b[..cut], b[cut..]);
    assert s == s[..cut] + s[cut..] && b == b[..cut] + b[cut..];
  }

  lemma NondecreasingSplit(v: Vec, k: nat)
    requires Nondecreasing(v) && k <= |v|
    ensures Nondecreasing(v[..k]) && Nondecreasing(v[k..])
  {}

  lemma BlockIsNonempty(b: Block, segment: Vec)
    requires IsBlock(b, segment)
    ensures b.count == |segment| > 0
  {}

  lemma Glue(s: Vec, u: Vec, s': Vec, u': Vec, b: Vec, b': Vec)
    requires |s| == |u| == |b| && |s'| == |u'| == |b'|
    ensures Dot(Sub(s + s', u + u'), b + b') == Dot(Sub(s, u), b) + Dot(Sub(s', u'), b')
    ensures Dot(Sub(s + s', u + u'), u + u') == Dot(Sub(s, u), u) + Dot(Sub(s', u'), u')
  {
    hide Dot;
    hide Sub;
    SubAppend(s, u, s', u');
    DotAppend(Sub(s, u), b, Sub(s', u'), b');
    DotAppend(Sub(s, u), u, Sub(s', u'), u');
  }

  lemma ExpandIsFit(blocks: seq<Block>, s: Vec)
    requires Partition(blocks, s) && Positive(blocks) && MeansAscend(blocks)
    ensures IsIsotonicFit(s, Expand(blocks)) && Sum(Expand(blocks)) == Sum(s)
    ensures |Expand(blocks)| == |s| && Nondecreasing(Expand(blocks))
  {
    hide Mean;
    hide Dot;
    hide Partition;
    hide Expand;
    hide Nondecreasing;
    ExpandShape(blocks, s);
    ExpandAscends(blocks);
    ExpandResidual(blocks, s, Expand(blocks));
    forall b: Vec | |b| == |s| && Nondecreasing(b)
      ensures Dot(Sub(s, Expand(blocks)), b) <= 0.0
    {
      ExpandResidual(blocks, s, b);
    }
  }

  /** The projection beats every nondecreasing competitor, by at least the
      squared distance between the two. */
  lemma FitBeats(s: Vec, u: Vec, b: Vec)
    requires IsIsotonicFit(s, u) && |b| == |s| && Nondecreasing(b)
    ensures SqDist(s, u) + SqDist(u, b) <= SqDist(s, b)
  {
    hide Dot;
    SqDistAround(s, u, b);
    var r := Sub(s, u);
    DotCommutes(r, Sub(u, b));
    DotSub(u, b, r);
    DotCommutes(u, r);
    DotCommutes(b, r);
  }

  lemma FitIsOptimal(s: Vec, u: Vec)
    requires IsIsotonicFit(s, u)
    ensures forall b: Vec :: |b| == |s| && Nondecreasing(b) ==> SqDist(s, u) + SqDist(u, b) <= SqDist(s, b)
  {
    forall b: Vec | |b| == |s| && Nondecreasing(b)
      ensures SqDist(s, u) + SqDist(u, b) <= SqDist(s, b)
    {
      FitBeats(s, u, b);
    }
  }

  /** The isotonic fit is the only minimiser. */
  lemma FitIsUnique(s: Vec, u: Vec, b: Vec)
    requires IsIsotonicFit(s, u) && |b| == |s| && Nondecreasing(b)
    requires SqDist(s, b) <= SqDist(s, u)
    ensures b == u
  {
    FitBeats(s, u, b);
    SqNormNonNegative(Sub(u, b));
    SqDistZero(u, b);
  }
}
