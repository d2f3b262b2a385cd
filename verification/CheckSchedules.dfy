/** Checkpoint schedules from src/core/profile.rs: validation, the two queries on
    a schedule, and the decoding of geometric declarations, all in checked 64-bit
    arithmetic. */
module CheckSchedules {
  import opened Integers
  import opened Searching
  import opened Wrappers

  datatype CheckSchedule =
    | Periodic(every: U64, start: U64)
    | Explicit(indices: seq<U64>)

  predicate AllSafe(indices: seq<int>) {
    forall i :: 0 <= i < |indices| ==> indices[i] <= MAX_SAFE_INTEGER
  }

  predicate Validate(s: CheckSchedule) {
    match s
    case Periodic(every, start) => 0 < every <= MAX_SAFE_INTEGER && start <= MAX_SAFE_INTEGER
    case Explicit(indices) => indices != [] && AllSafe(indices) && Increasing(indices)
  }

  predicate Includes(s: CheckSchedule, index: U64) {
    match s
    case Periodic(every, start) => every > 0 && index >= start && (index - start) % every == 0
    case Explicit(indices) => BinarySearch(indices, index, 0, |indices|)
  }

  /** The next index of a periodic schedule, overflowing to nothing at each
      checked operation. */
  function NextPeriodic(every: U64, start: U64, index: U64): Option<U64>
    requires start <= index
  {
    if every == 0 then None
    else
      match CheckedAdd((index - start) / every, 1)
      case None => None
      case Some(periods) =>
        match CheckedMul(periods, every)
        case None => None
        case Some(offset) => CheckedAdd(offset, start)
  }

  function NextAfter(s: CheckSchedule, previous: Option<U64>): Option<U64> {
    match s
    case Periodic(every, start) => (
      var next :=
        match previous
        case None => Some(start)
        case Some(index) => if index < start then Some(start) else NextPeriodic(every, start, index);
      if next.Some? && next.value <= MAX_SAFE_INTEGER then next else None)
    case Explicit(indices) =>
      var at := match previous case None => 0 case Some(index) => PartitionPoint(indices, index, 0, |indices|);
      if at < |indices| then Some(indices[at]) else None
  }

  // ----- what the schedules mean -----

  /** Validation accepts exactly the positive safe intervals from a safe start, and
      the nonempty increasing lists of safe indices. */
  lemma ValidateMeans(s: CheckSchedule)
    ensures
      Validate(s) <==>
      if s.Periodic? then 1 <= s.every <= 9_007_199_254_740_991 && s.start <= 9_007_199_254_740_991
      else
        && |s.indices| > 0 && s.indices[|s.indices| - 1] <= 9_007_199_254_740_991
        && forall i, j :: 0 <= i < j < |s.indices| ==> s.indices[i] < s.indices[j]
  {
    if s.Explicit? && Increasing(s.indices) {
      forall i, j | 0 <= i < j < |s.indices|
        ensures s.indices[i] < s.indices[j]
      {
        IncreasingPair(s.indices, i, j);
      }
    }
  }

  /** A periodic schedule includes its start and every interval after it; a listed
      one includes what it lists. */
  lemma IncludesMeans(s: CheckSchedule, n: U64)
    requires Validate(s)
    ensures
      Includes(s, n) <==> if s.Periodic? then exists k: nat :: n == s.start + BlockAt(k, s.every) else n in s.indices
  {
    if s.Periodic? {
      if Includes(s, n) {
        var k := (n - s.start) / s.every;
        assert n == s.start + BlockAt(k, s.every);
      }
      if k: nat :| n == s.start + BlockAt(k, s.every) {
        MultipleHasNoRemainder(k, s.every);
      }
    } else {
      BinarySearchFinds(s.indices, n, 0, |s.indices|);
    }
  }

  function BlockAt(k: nat, every: nat): nat {
    ProductNonNegative(k, every);
    k * every
  }

  // ----- the two queries agree -----

  predicate Exceeds(n: U64, previous: Option<U64>) {
    previous.Some? ==> previous.value < n
  }

  /** The safe indices of the schedule that come after previous. */
  predicate IsCandidate(s: CheckSchedule, previous: Option<U64>, n: U64) {
    Includes(s, n) && n <= MAX_SAFE_INTEGER && Exceeds(n, previous)
  }

  /** Among the multiples of every, the one after the quotient of d is the least
      above d. */
  lemma NextMultiple(d: nat, every: nat, m: nat)
    requires every > 0
    ensures ((d / every) + 1) * every > d && (((d / every) + 1) * every) % every == 0
    ensures m > d && m % every == 0 ==> ((d / every) + 1) * every <= m
  {
    var q := d / every;
    assert d == q * every + d % every;
    MultipleHasNoRemainder(q + 1, every);
    if m > d && m % every == 0 {
      var t := m / every;
      assert m == t * every;
      if t <= q {
        ScaleUp(t, q, every);
      } else {
        ScaleUp(q + 1, t, every);
      }
    }
  }

  /** For a validated schedule, next_after returns the least safe included index
      above previous, and nothing exactly when there is none: no checked
      operation loses one. */
  lemma NextAfterIsLeast(s: CheckSchedule, previous: Option<U64>)
    requires Validate(s)
    ensures
      match NextAfter(s, previous)
      case Some(next) => IsCandidate(s, previous, next) && forall n: U64 :: IsCandidate(s, previous, n) ==> next <= n
      case None => forall n: U64 :: !IsCandidate(s, previous, n)
  {
    match s
    case Periodic(every, start) => PeriodicNextIsLeast(every, start, previous);
    case Explicit(indices) => ExplicitNextIsLeast(indices, previous);
  }

  lemma PeriodicNextIsLeast(every: U64, start: U64, previous: Option<U64>)
    requires Validate(Periodic(every, start))
    ensures
      var s := Periodic(every, start);
      match NextAfter(s, previous)
      case Some(next) => IsCandidate(s, previous, next) && forall n: U64 :: IsCandidate(s, previous, n) ==> next <= n
      case None => forall n: U64 :: !IsCandidate(s, previous, n)
  {
    if previous.Some? && start <= previous.value {
      var offset := PeriodicOffset(every, start, previous.value);
      assert (start + offset - start) % every == 0;
    }
  }

  /** The next multiple is what the checked operations compute, or too large for
      one of them. */
  lemma PeriodicOffset(every: U64, start: U64, index: U64) returns (offset: nat)
    requires every > 0 && start <= index
    ensures offset > index - start && offset % every == 0
    ensures forall n: U64 :: IsCandidate(Periodic(every, start), Some(index), n) ==> start + offset <= n
    ensures
      var next := NextPeriodic(every, start, index);
      if start + offset <= U64_MAX then next == Some(start + offset) else next == None
  {
    var d := index - start;
    offset := ((d / every) + 1) * every;
    NextMultiple(d, every, 0);
    forall n: U64 | IsCandidate(Periodic(every, start), Some(index), n)
      ensures start + offset <= n
    {
      NextMultiple(d, every, n - start);
    }
    ScaleUp(1, every, d / every + 1);
  }

  lemma ExplicitNextIsLeast(indices: seq<U64>, previous: Option<U64>)
    requires Validate(Explicit(indices))
    ensures
      var s := Explicit(indices);
      match NextAfter(s, previous)
      case Some(next) => IsCandidate(s, previous, next) && forall n: U64 :: IsCandidate(s, previous, n) ==> next <= n
      case None => forall n: U64 :: !IsCandidate(s, previous, n)
  {
    hide BinarySearch;
    hide PartitionPoint;
    hide Increasing;
    var at := match previous case None => 0 case Some(index) => PartitionPoint(indices, index, 0, |indices|);
    if previous.Some? {
      PartitionPointSplits(indices, previous.value, 0, |indices|);
    }
    if at < |indices| {
      BinarySearchFinds(indices, indices[at], 0, |indices|);
      assert IsCandidate(Explicit(indices), previous, indices[at]);
    }
    forall n: U64 | IsCandidate(Explicit(indices), previous, n)
      ensures at < |indices| && indices[at] <= n
    {
      BinarySearchFinds(indices, n, 0, |indices|);
      var k :| 0 <= k < |indices| && indices[k] == n;
      if at < k {
        IncreasingPair(indices, at, k);
      }
    }
  }

  /** Following next_after from the beginning lists the safe indices of the
      schedule, each once, in increasing order, and stops. */
  method Enumerate(s: CheckSchedule) returns (indices: seq<U64>)
    requires Validate(s)
    ensures Increasing(indices)
    ensures forall n: U64 :: n in indices <==> Includes(s, n) && n <= MAX_SAFE_INTEGER
  {
    hide Includes;
    hide NextAfter;
    hide Validate;
    indices := [];
    var previous: Option<U64> := None;
    while true
      invariant Increasing(indices)
      invariant previous == if indices == [] then None else Some(indices[|indices| - 1])
      invariant previous.Some? ==> previous.value <= MAX_SAFE_INTEGER
      invariant forall n: U64 :: n in indices <==> Includes(s, n) && n <= MAX_SAFE_INTEGER && !Exceeds(n, previous)
      decreases if previous.None? then MAX_SAFE_INTEGER + 1 else MAX_SAFE_INTEGER - previous.value
    {
      NextAfterIsLeast(s, previous);
      var next := NextAfter(s, previous);
      if next.None? {
        forall n: U64
          ensures n in indices <==> Includes(s, n) && n <= MAX_SAFE_INTEGER
        {
          assert !IsCandidate(s, previous, n);
        }
        return;
      }
      var longer := indices + [next.value];
      forall n: U64
        ensures n in longer <==> Includes(s, n) && n <= MAX_SAFE_INTEGER && !Exceeds(n, next)
      {
        assert IsCandidate(s, previous, n) ==> next.value <= n;
        assert IsCandidate(s, previous, next.value);
        assert n in longer <==> n in indices || n == next.value;
      }
      indices := longer;
      previous := next;
    }
  }

  // ----- geometric declarations -----

  datatype DecodeError = BadParameters | UnsafeIndex | ArithmeticOverflow | InvalidSchedule

  datatype Decoded = Accepted(schedule: CheckSchedule) | Rejected(error: DecodeError)

  function Power(base: nat, exponent: nat): nat {
    if exponent == 0 then 1
    else
      ProductNonNegative(base, Power(base, exponent - 1));
      base * Power(base, exponent - 1)
  }

  /** The exact i-th index, unbounded. */
  function Term(start: nat, ratio: nat, i: nat): nat {
    ProductNonNegative(start, Power(ratio, i));
    start * Power(ratio, i)
  }

  /** The first count exact indices. */
  function Terms(start: nat, ratio: nat, count: nat): (terms: seq<int>)
    ensures |terms| == count && forall i :: 0 <= i < count ==> terms[i] == Term(start, ratio, i)
  {
    seq(count, i requires 0 <= i < count => Term(start, ratio, i))
  }

  /** The prefix and the exact indices after it. */
  function Exact(prefix: seq<int>, start: nat, ratio: nat, count: nat): (exact: seq<int>)
    ensures |exact| == |prefix| + count
  {
    prefix + Terms(start, ratio, count)
  }

  /** What the declaration is documented to require. */
  predicate IsProper(start: U64, ratio: U64, count: U64) {
    0 < count <= MAX_SAFE_INTEGER && 0 < start && 2 <= ratio <= MAX_SAFE_INTEGER
  }

  lemma TermStep(start: nat, ratio: nat, i: nat)
    ensures Term(start, ratio, i + 1) == Term(start, ratio, i) * ratio
  {
    var p := Power(ratio, i);
    assert start * (ratio * p) == start * p * ratio;
  }

  lemma {:induction false} PowerGrows(ratio: nat, i: nat)
    requires ratio >= 2
    ensures Power(ratio, i) >= Power(2, i) >= 1
  {
    if i > 0 {
      PowerGrows(ratio, i - 1);
      ProductMonotone(2, ratio, Power(2, i - 1), Power(ratio, i - 1));
    }
  }

  lemma {:induction false} PowerOfTwoMonotone(i: nat, j: nat)
    requires i <= j
    ensures Power(2, i) <= Power(2, j)
    decreases j
  {
    if i < j {
      PowerOfTwoMonotone(i, j - 1);
    }
  }

  /** From the 54th term on, every index is unsafe. */
  lemma LateTermsAreUnsafe(start: nat, ratio: nat, i: nat)
    requires start > 0 && ratio >= 2 && i >= 53
    ensures Term(start, ratio, i) > MAX_SAFE_INTEGER
  {
    PowerGrows(ratio, i);
    PowerOfTwoMonotone(53, i);
    assert Power(2, 53) == MAX_SAFE_INTEGER + 1 by {
      assert Power(2, 13) == 0x2000;
      PowerAdd(13, 13);
      PowerAdd(26, 26);
      PowerAdd(52, 1);
    }
    ScaleUp(1, start, Power(ratio, i));
  }

  lemma {:induction false} PowerAdd(i: nat, j: nat)
    ensures Power(2, i + j) == Power(2, i) * Power(2, j)
  {
    if i > 0 {
      PowerAdd(i - 1, j);
    }
  }

  /** Term k is the first index that is not safe. */
  ghost predicate FirstUnsafe(start: nat, ratio: nat, count: nat, k: nat) {
    k < count && Term(start, ratio, k) > MAX_SAFE_INTEGER && SafeBefore(start, ratio, k)
  }

  ghost predicate SafeBefore(start: nat, ratio: nat, k: nat) {
    forall j: nat :: j < k ==> Term(start, ratio, j) <= MAX_SAFE_INTEGER
  }

  /** The decoding loop. It accepts exactly the declarations whose exact index
      list is increasing and safe, whatever overflows on the way, and goes round
      at most 54 times for any declared count. */
  method DecodeGeometric(prefix: seq<U64>, start: U64, ratio: U64, count: U64)
    returns (result: Decoded, ghost rounds: nat)
    ensures
      result.Accepted? <==>
      IsProper(start, ratio, count) && AllSafe(Exact(prefix, start, ratio, count))
      && Increasing(Exact(prefix, start, ratio, count))
    ensures
      result.Accepted? ==>
        result.schedule.Explicit? && result.schedule.indices == Exact(prefix, start, ratio, count) && count <= 53
    ensures result.Accepted? ==> Validate(result.schedule)
    ensures result == Rejected(BadParameters) <==> !IsProper(start, ratio, count)
    ensures
      result == Rejected(UnsafeIndex) <==>
        IsProper(start, ratio, count)
        && exists k :: FirstUnsafe(start, ratio, count, k) && Term(start, ratio, k) <= U64_MAX
    ensures
      result == Rejected(ArithmeticOverflow) <==>
        IsProper(start, ratio, count)
        && exists k :: FirstUnsafe(start, ratio, count, k) && Term(start, ratio, k) > U64_MAX
    ensures rounds <= 54
  {
    hide Increasing;
    hide Term;
    hide Power;
    rounds := 0;
    if count == 0 || count > MAX_SAFE_INTEGER || start == 0 || ratio < 2 || ratio > MAX_SAFE_INTEGER {
      return Rejected(BadParameters), rounds;
    }
    var indices: seq<U64> := prefix;
    var value: U64 := start;
    FirstTerm(start, ratio);
    ghost var exact: seq<int> := Exact(prefix, start, ratio, count);
    var index: U64 := 0;
    while index < count
      invariant index <= count && rounds == index <= 53
      invariant indices == Exact(prefix, start, ratio, index)
      invariant index < count ==> value == Term(start, ratio, index)
      invariant SafeBefore(start, ratio, index)
      decreases count - index
    {
      rounds := rounds + 1;
      assert exact[|prefix| + index] == value;
      if value > MAX_SAFE_INTEGER {
        return Rejected(UnsafeIndex), rounds;
      }
      if index >= 53 {
        LateTermsAreUnsafe(start, ratio, index);
      }
      indices := indices + [value];
      TermStep(start, ratio, index);
      if index + 1 < count {
        var product := CheckedMul(value, ratio);
        assert exact[|prefix| + (index + 1)] == Term(start, ratio, index + 1);
        if product.None? {
          return Rejected(ArithmeticOverflow), rounds;
        }
        value := product.value;
      }
      index := index + 1;
    }
    var schedule := Explicit(indices);
    if !Validate(schedule) {
      return Rejected(InvalidSchedule), rounds;
    }
    return Accepted(schedule), rounds;
  }

  lemma FirstTerm(start: nat, ratio: nat)
    ensures Term(start, ratio, 0) == start
  {}

  // ----- threshold lists -----

  datatype Direction = AtMost | AtLeast

  predicate Reaches(direction: Direction, value: real, threshold: real) {
    match direction
    case AtMost => value <= threshold
    case AtLeast => value >= threshold
  }

  /** The window check of ProfilePolicy::validate on the recording thresholds. */
  predicate ThresholdsValid(direction: Direction, thresholds: seq<real>, target: real) {
    && thresholds != [] && thresholds[|thresholds| - 1] == target
    && forall i :: 0 < i < |thresholds| ==>
         thresholds[i - 1] != thresholds[i] && Reaches(direction, thresholds[i], thresholds[i - 1])
  }

  /** A metric that is to be at most a threshold reaches it from below, one that is
      to be at least a threshold from above, and both at equality. */
  lemma ReachesMeans(direction: Direction, a: real, b: real)
    ensures Reaches(direction, a, a)
    ensures Reaches(direction, a, b) && Reaches(direction, b, a) ==> a == b
    ensures a < b ==> Reaches(AtMost, a, b) && !Reaches(AtMost, b, a)
    ensures a < b ==> Reaches(AtLeast, b, a) && !Reaches(AtLeast, a, b)
  {}

  /** The valid lists are those that end at the target and get strictly more
      demanding: descending where the metric is to be at most a threshold,
      ascending where it is to be at least one. */
  lemma ThresholdsMean(direction: Direction, thresholds: seq<real>, target: real)
    ensures
      ThresholdsValid(direction, thresholds, target) <==>
      && |thresholds| > 0 && target == thresholds[|thresholds| - 1]
      && forall i, j :: 0 <= i < j < |thresholds| ==>
           if direction.AtMost? then thresholds[i] > thresholds[j] else thresholds[i] < thresholds[j]
  {
    if ThresholdsValid(direction, thresholds, target) {
      forall i, j | 0 <= i < j < |thresholds|
        ensures if direction.AtMost? then thresholds[i] > thresholds[j] else thresholds[i] < thresholds[j]
      {
        ReachedThresholdsArePrefix(direction, thresholds, target, target, i, j);
      }
    }
  }

  /** Whatever a metric reaches, it has reached everything listed before: the
      reached thresholds are a prefix, and reaching the target reaches them all. */
  lemma {:induction false} ReachedThresholdsArePrefix(direction: Direction, thresholds: seq<real>, target: real,
                                                      value: real, i: nat, j: nat)
    requires ThresholdsValid(direction, thresholds, target) && i <= j < |thresholds|
    ensures Reaches(direction, value, thresholds[j]) ==> Reaches(direction, value, thresholds[i])
    ensures i < j ==> thresholds[i] != thresholds[j] && Reaches(direction, thresholds[j], thresholds[i])
    decreases j
  {
    if i < j {
      ReachedThresholdsArePrefix(direction, thresholds, target, value, i, j - 1);
      if i < j - 1 {
        ReachedThresholdsArePrefix(direction, thresholds, target, thresholds[j], i, j - 1);
      }
    }
  }
}
