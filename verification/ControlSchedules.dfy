/** Expansion of fresh-observation control schedules from src/core/profile.rs, with
    exact arithmetic in place of binary64. */
module ControlSchedules {
  import opened Canonical
  import opened Integers
  import opened Json
  import opened Wrappers

  datatype ControlSchedule =
    | Explicit(controls: seq<Value>)
    | Linear(field: string, start: real, step: real, count: U64, prefix: seq<Value>)
    | Geometric(field: string, start: real, ratio: real, count: U64, prefix: seq<Value>)

  datatype ScheduleError =
    | CountOutOfRange
    | ControlNotObject
    | EmptyField
    | NothingGenerated
    | NotCanonical(violation: Violation)

  function Prefix(s: ControlSchedule): seq<Value> {
    match s
    case Explicit(controls) => controls
    case Linear(_, _, _, _, prefix) => prefix
    case Geometric(_, _, _, _, prefix) => prefix
  }

  /** The declared number of controls; the sum with the prefix saturates. */
  function Len(s: ControlSchedule): nat {
    if s.Explicit? then |s.controls|
    else if s.count + |s.prefix| <= U64_MAX then s.count + |s.prefix|
    else U64_MAX
  }

  function RealPower(ratio: real, k: nat): real {
    if k == 0 then 1.0 else RealPower(ratio, k - 1) * ratio
  }

  /** The k-th generated value. */
  function Generated(s: ControlSchedule, k: nat): real
    requires !s.Explicit?
  {
    match s
    case Linear(_, start, step, _, _) => start + k as real * step
    case Geometric(_, start, ratio, _, _) => start * RealPower(ratio, k)
  }

  function Next(s: ControlSchedule, value: real): real
    requires !s.Explicit?
  {
    match s
    case Linear(_, _, step, _, _) => value + step
    case Geometric(_, _, ratio, _, _) => value * ratio
  }

  /** The running value of the loop is the closed form. */
  lemma NextGenerated(s: ControlSchedule, k: nat)
    requires !s.Explicit?
    ensures Next(s, Generated(s, k)) == Generated(s, k + 1)
  {
    match s
    case Linear(_, start, step, _, _) =>
      assert (k + 1) as real * step == k as real * step + step;
    case Geometric(_, start, ratio, _, _) =>
      Associate(start, RealPower(ratio, k), ratio);
  }

  lemma Associate(a: real, b: real, c: real)
    ensures a * b * c == a * (b * c)
  {}

  lemma FirstGenerated(s: ControlSchedule)
    requires !s.Explicit?
    ensures Generated(s, 0) == s.start
  {}

  /** The generated values start at the start and go on by the step or the ratio. */
  lemma GeneratedMeans(s: ControlSchedule, k: nat)
    requires !s.Explicit?
    ensures Generated(s, 0) == s.start
    ensures s.Linear? ==> Generated(s, k + 1) - Generated(s, k) == s.step
    ensures s.Geometric? ==> Generated(s, k + 1) == Generated(s, k) * s.ratio
  {
    NextGenerated(s, k);
    if s.Linear? {
      assert Next(s, Generated(s, k)) == Generated(s, k) + s.step;
    }
  }

  predicate IsSafeValue(x: real) {
    IsIntegral(x) ==> IsSafe(x.Floor)
  }

  // ----- what a schedule expands to -----

  /** Every listed control is an object of canonical numbers. */
  ghost predicate Listable(values: seq<Value>) {
    forall i :: 0 <= i < |values| ==> values[i].Object? && Numbers(values[i], InDomain)
  }

  /** The exact number of controls: those listed and those generated. */
  function Total(s: ControlSchedule): nat {
    |Prefix(s)| + if s.Explicit? then 0 else s.count
  }

  predicate CountFits(s: ControlSchedule, bound: U64) {
    0 < Total(s) <= bound && Total(s) <= MAX_SAFE_INTEGER
  }

  /** Saturation hides no count that fits. */
  lemma LenMeans(s: ControlSchedule, bound: U64)
    ensures CountFits(s, bound) <==> 0 < Len(s) <= bound && Len(s) <= MAX_SAFE_INTEGER
    ensures Total(s) <= MAX_SAFE_INTEGER ==> Len(s) == Total(s)
  {}

  ghost predicate Expandable(s: ControlSchedule, bound: U64) {
    && CountFits(s, bound) && Listable(Prefix(s))
    && (!s.Explicit? ==> s.field != "" && s.count > 0 && forall k: nat :: k < s.count ==> IsSafeValue(Generated(s, k)))
  }

  /** The first value listed that is not an object of canonical numbers. */
  ghost predicate ListFault(values: seq<Value>, i: nat, e: ScheduleError) {
    && i < |values| && Listable(values[..i])
    && if !values[i].Object? then e == ControlNotObject
       else e.NotCanonical? && FirstRefused(values[i], e.violation)
  }

  /** The first value generated that is an unsafe integer. */
  ghost predicate ValueFault(s: ControlSchedule, k: nat, e: ScheduleError)
    requires !s.Explicit?
  {
    && k < s.count && (forall j: nat :: j < k ==> IsSafeValue(Generated(s, j))) && !IsSafeValue(Generated(s, k))
    && e == NotCanonical(IntegerOutOfRange(Generated(s, k).Floor))
  }

  /** The control that sets the field to this value, in canonical form. */
  ghost predicate IsGenerated(control: Value, field: string, value: real) {
    && control.Object? && control.fields.Keys == {field} && control.fields[field].Number?
    && IsCanonicalNumber(control.fields[field].number) && Denotes(control.fields[field].number) == Some(value)
  }

  ghost predicate ExpandsTo(s: ControlSchedule, controls: seq<Value>)
    requires Listable(Prefix(s))
  {
    && |controls| == Total(s)
    && (forall i :: 0 <= i < |Prefix(s)| ==> controls[i] == Normal(Prefix(s)[i]))
    && (!s.Explicit? ==>
          forall i :: |Prefix(s)| <= i < |controls| ==>
            IsGenerated(controls[i], s.field, Generated(s, i - |Prefix(s)|)))
  }

  ghost predicate HoldsNumbers(values: seq<Value>) {
    forall i :: 0 <= i < |values| ==> Numbers(values[i], IsNumber)
  }

  method ListControls(values: seq<Value>) returns (result: Result<seq<Value>, ScheduleError>)
    requires HoldsNumbers(values)
    ensures result.Ok? <==> Listable(values)
    ensures
      result.Ok? ==>
        |result.value| == |values| && forall i :: 0 <= i < |values| ==> result.value[i] == Normal(values[i])
    ensures result.Err? ==> exists i :: ListFault(values, i, result.error)
  {
    var controls: seq<Value> := [];
    for i := 0 to |values|
      invariant |controls| == i
      invariant forall j :: 0 <= j < i ==> values[j].Object? && Numbers(values[j], InDomain)
      invariant forall j :: 0 <= j < i ==> controls[j] == Normal(values[j])
    {
      if !values[i].Object? {
        assert ListFault(values, i, ControlNotObject);
        return Err(ControlNotObject);
      }
      var control := NormalizeValue(values[i]);
      if control.Err? {
        assert ListFault(values, i, NotCanonical(control.error));
        return Err(NotCanonical(control.error));
      }
      controls := controls + [control.value];
    }
    result := Ok(controls);
  }

  /** json! of a finite value: an integer where binary64 holds it exactly. */
  function JsonNumber(x: real): Number {
    if IsIntegral(x) && IsSafe(x.Floor) then FromI64(x.Floor) else Floating(Finite(x))
  }

  lemma JsonNumberMeans(x: real)
    ensures NormalizeNumber(JsonNumber(x)).Ok? <==> IsSafeValue(x)
    ensures IsSafeValue(x) ==>
              IsCanonicalNumber(NormalizeNumber(JsonNumber(x)).value)
              && Denotes(NormalizeNumber(JsonNumber(x)).value) == Some(x)
    ensures !IsSafeValue(x) ==> NormalizeNumber(JsonNumber(x)) == Err(IntegerOutOfRange(x.Floor))
  {}

  method Expand(s: ControlSchedule, bound: U64) returns (result: Result<seq<Value>, ScheduleError>)
    requires HoldsNumbers(Prefix(s))
    ensures result.Ok? <==> Expandable(s, bound)
    ensures result.Ok? ==> ExpandsTo(s, result.value)
    ensures result == Err(CountOutOfRange) <==> !CountFits(s, bound)
    ensures result == Err(EmptyField) <==> CountFits(s, bound) && !s.Explicit? && s.field == ""
    ensures
      result == Err(NothingGenerated) <==>
      CountFits(s, bound) && !s.Explicit? && s.field != "" && Listable(Prefix(s)) && s.count == 0
    ensures
      result.Err? && (result.error.ControlNotObject? || result.error.NotCanonical?) ==>
        || (exists i :: ListFault(Prefix(s), i, result.error))
        || (Listable(Prefix(s)) && !s.Explicit? && exists k :: ValueFault(s, k, result.error))
  {
    hide Generated;
    hide NormalizeNumber;
    hide Numbers;
    hide Normal;
    var count := Len(s);
    LenMeans(s, bound);
    if count == 0 || count > bound || count > MAX_SAFE_INTEGER {
      return Err(CountOutOfRange);
    }
    if !s.Explicit? && s.field == "" {
      return Err(EmptyField);
    }
    result := ListControls(Prefix(s));
    if result.Err? || s.Explicit? {
      return;
    }
    var controls := result.value;
    var listed := |controls|;
    var generated := count - listed;
    if generated == 0 {
      return Err(NothingGenerated);
    }
    var value := s.start;
    FirstGenerated(s);
    for index := 0 to generated
      invariant |controls| == listed + index
      invariant index < generated ==> value == Generated(s, index)
      invariant forall i :: 0 <= i < listed ==> controls[i] == Normal(Prefix(s)[i])
      invariant forall i :: listed <= i < |controls| ==> IsGenerated(controls[i], s.field, Generated(s, i - listed))
      invariant forall k: nat :: k < index ==> IsSafeValue(Generated(s, k))
    {
      JsonNumberMeans(value);
      var number := NormalizeNumber(JsonNumber(value));
      match number
      case Err(violation) =>
        assert ValueFault(s, index, NotCanonical(violation));
        return Err(NotCanonical(violation));
      case Ok(n) =>
        controls := controls + [Object(map[s.field := Value.Number(n)])];
        if index + 1 < generated {
          NextGenerated(s, index);
          value := Next(s, value);
        }
    }
    result := Ok(controls);
  }
}
