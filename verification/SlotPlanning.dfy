/** Observation and attempt slots of one logical specification from
    src/core/planning.rs and src/core/profile.rs. A record stands for its own
    identity. */
module SlotPlanning {
  import opened ControlSchedules
  import opened Integers
  import opened Json
  import opened Wrappers

  datatype Binding = Fresh(schedule: ControlSchedule) | Streaming | Buffered

  datatype Profile = Profile(bound: U64, binding: Binding)

  datatype FreshControl = FreshControl(scheduleIndex: nat, control: Value)

  datatype ObservationSlot = ObservationSlot(freshControl: Option<FreshControl>, measurementIndex: nat)

  datatype Role = Warmup(index: nat) | Measured(slot: ObservationSlot)

  datatype AttemptSlot<D> = AttemptSlot(role: Role, priority: D)

  datatype Plan<D> = Plan(observations: seq<ObservationSlot>, attempts: seq<AttemptSlot<D>>)

  datatype PlanError = BadSchedule(error: ScheduleError) | TooManySlots

  function IsFresh(profile: Option<Profile>): bool {
    profile.Some? && profile.value.binding.Fresh?
  }

  /** The number of observations of one measured repetition. */
  function Bound(profile: Option<Profile>): nat {
    match profile
    case None => 1
    case Some(p) => if p.binding.Fresh? then Total(p.binding.schedule) else p.bound
  }

  /** The first index of the a-th block of this size. */
  function BlockStart(a: nat, size: nat): nat {
    ProductNonNegative(a, size);
    a * size
  }

  /** How many observation slots one measured attempt stands for. */
  function SlotsPerAttempt(controls: Option<seq<Value>>, bound: nat): nat {
    if controls.Some? then 1 else bound
  }

  /** The slot at index k. */
  function SlotAt(controls: Option<seq<Value>>, bound: nat, k: nat): ObservationSlot
    requires bound > 0 && (controls.Some? ==> |controls.value| == bound)
  {
    match controls
    case None => ObservationSlot(None, k)
    case Some(values) => ObservationSlot(Some(FreshControl(k % bound, values[k % bound])), k / bound)
  }

  ghost predicate WarmupsFirst<D>(attempts: seq<AttemptSlot<D>>, warmups: nat, priority: Role -> D) {
    warmups <= |attempts| && forall w :: 0 <= w < warmups ==> attempts[w] == AttemptSlot(Warmup(w), priority(Warmup(w)))
  }

  /** The attempts after the warm-ups measure every stride-th observation. */
  ghost predicate MeasuredAfter<D>(attempts: seq<AttemptSlot<D>>, warmups: nat, observations: seq<ObservationSlot>,
                                   stride: nat, priority: Role -> D) {
    forall i :: warmups <= i < |attempts| ==>
      IsMeasured(attempts[i], observations, BlockStart(i - warmups, stride), priority)
  }

  /** The attempt measures the observation at this index. */
  ghost predicate IsMeasured<D>(attempt: AttemptSlot<D>, observations: seq<ObservationSlot>, at: nat,
                                priority: Role -> D) {
    at < |observations| && attempt == AttemptSlot(Measured(observations[at]), priority(Measured(observations[at])))
  }

  ghost predicate IsPlan<D>(plan: Plan<D>, controls: Option<seq<Value>>, bound: nat, repetitions: U64, warmups: U64,
                            priority: Role -> D)
    requires bound > 0 && (controls.Some? ==> |controls.value| == bound)
  {
    && |plan.observations| == BlockStart(repetitions, bound)
    && (forall k :: 0 <= k < |plan.observations| ==> plan.observations[k] == SlotAt(controls, bound, k))
    && |plan.attempts| == warmups + (if controls.Some? then BlockStart(repetitions, bound) else repetitions)
    && WarmupsFirst(plan.attempts, warmups, priority)
    && MeasuredAfter(plan.attempts, warmups, plan.observations, SlotsPerAttempt(controls, bound), priority)
  }

  /** The plan of a specification: with the expanded controls of a fresh profile,
      or without controls. */
  ghost predicate Plans<D>(plan: Plan<D>, profile: Option<Profile>, repetitions: U64, warmups: U64, priority: Role -> D)
    requires IsFresh(profile) ==> Expandable(profile.value.binding.schedule, profile.value.bound)
  {
    && Bound(profile) > 0
    && if IsFresh(profile) then
         exists controls :: |controls| == Bound(profile) && ExpandsTo(profile.value.binding.schedule, controls) &&
                            IsPlan(plan, Some(controls), Bound(profile), repetitions, warmups, priority)
       else IsPlan(plan, None, Bound(profile), repetitions, warmups, priority)
  }

  /** A streaming or buffered profile has a positive bound, as the validation of
      its policy demands. */
  method PlanSpecification<D>(repetitions: U64, warmups: U64, profile: Option<Profile>, priority: Role -> D)
    returns (result: Result<Plan<D>, PlanError>)
    requires profile.Some? && !profile.value.binding.Fresh? ==> profile.value.bound > 0
    requires IsFresh(profile) ==> HoldsNumbers(Prefix(profile.value.binding.schedule))
    ensures
      if IsFresh(profile) && !Expandable(profile.value.binding.schedule, profile.value.bound) then
        result.Err? && result.error.BadSchedule?
      else if BlockStart(repetitions, Bound(profile)) > U64_MAX then result == Err(TooManySlots)
      else result.Ok? && Plans(result.value, profile, repetitions, warmups, priority)
  {
    hide Expandable;
    hide ExpandsTo;
    hide IsPlan;
    hide SlotAt;
    hide Total;
    var controls: Option<seq<Value>> := None;
    if profile.Some? && profile.value.binding.Fresh? {
      var expanded := Expand(profile.value.binding.schedule, profile.value.bound);
      match expanded
      case Err(error) =>
        return Err(BadSchedule(error));
      case Ok(list) =>
        ExpandedLength(profile.value.binding.schedule, profile.value.bound, list);
        controls := Some(list);
    }
    var bound := if controls.Some? then |controls.value| else if profile.Some? then profile.value.bound else 1;
    var slotCount := BlockStart(repetitions, bound);
    if slotCount > U64_MAX {
      return Err(TooManySlots);
    }
    var observations := PlanObservations(controls, bound, slotCount);
    var attempts := PlanWarmups(warmups, priority);
    UnitBlocks(slotCount);
    ghost var count := if controls.Some? then slotCount else repetitions;
    attempts := PlanMeasured(attempts, observations, SlotsPerAttempt(controls, bound), count, priority);
    AssemblePlan(observations, attempts, controls, bound, repetitions, warmups, priority);
    result := Ok(Plan(observations, attempts));
  }

  lemma UnitBlocks(n: nat)
    ensures BlockStart(n, 1) == n
  {}

  lemma ExpandedLength(s: ControlSchedule, bound: U64, controls: seq<Value>)
    requires Expandable(s, bound) && ExpandsTo(s, controls)
    ensures |controls| == Total(s) && 0 < Total(s) <= bound
  {}

  lemma AssemblePlan<D>(observations: seq<ObservationSlot>, attempts: seq<AttemptSlot<D>>,
                        controls: Option<seq<Value>>, bound: nat, repetitions: U64, warmups: U64, priority: Role -> D)
    requires
      bound > 0 && (controls.Some? ==> |controls.value| == bound) && |observations| == BlockStart(repetitions, bound)
    requires forall k :: 0 <= k < |observations| ==> observations[k] == SlotAt(controls, bound, k)
    requires |attempts| == warmups + if controls.Some? then BlockStart(repetitions, bound) else repetitions
    requires WarmupsFirst(attempts, warmups, priority)
    requires MeasuredAfter(attempts, warmups, observations, SlotsPerAttempt(controls, bound), priority)
    ensures IsPlan(Plan(observations, attempts), controls, bound, repetitions, warmups, priority)
  {}

  method PlanObservations(controls: Option<seq<Value>>, bound: nat, count: nat) returns (slots: seq<ObservationSlot>)
    requires bound > 0 && (controls.Some? ==> |controls.value| == bound)
    ensures |slots| == count && forall k :: 0 <= k < count ==> slots[k] == SlotAt(controls, bound, k)
  {
    slots := [];
    for k := 0 to count
      invariant |slots| == k
      invariant forall j :: 0 <= j < k ==> slots[j] == SlotAt(controls, bound, j)
    {
      var slot :=
        if controls.Some? then ObservationSlot(Some(FreshControl(k % bound, controls.value[k % bound])), k / bound)
        else ObservationSlot(None, k);
      slots := slots + [slot];
    }
  }

  method PlanWarmups<D>(warmups: U64, priority: Role -> D) returns (attempts: seq<AttemptSlot<D>>)
    ensures |attempts| == warmups && WarmupsFirst(attempts, warmups, priority)
  {
    attempts := [];
    for w := 0 to warmups
      invariant |attempts| == w && WarmupsFirst(attempts, w, priority)
    {
      attempts := attempts + [AttemptSlot(Warmup(w), priority(Warmup(w)))];
    }
  }

  /** One attempt for every stride-th observation. */
  method PlanMeasured<D>(warmups: seq<AttemptSlot<D>>, observations: seq<ObservationSlot>, stride: nat,
                         ghost count: nat, priority: Role -> D)
    returns (attempts: seq<AttemptSlot<D>>)
    requires stride > 0 && |observations| == BlockStart(count, stride) && WarmupsFirst(warmups, |warmups|, priority)
    ensures |attempts| == |warmups| + count && WarmupsFirst(attempts, |warmups|, priority)
    ensures MeasuredAfter(attempts, |warmups|, observations, stride, priority)
  {
    hide BlockStart;
    attempts := warmups;
    var at := 0;
    ghost var a := 0;
    NoBlocks(stride);
    while at < |observations|
      invariant a <= count && at == BlockStart(a, stride) && |attempts| == |warmups| + a
      invariant WarmupsFirst(attempts, |warmups|, priority)
      invariant MeasuredAfter(attempts, |warmups|, observations, stride, priority)
    {
      StrideBelow(a, count, stride);
      var role := Measured(observations[at]);
      MeasuredPush(attempts, |warmups|, observations, stride, priority, at);
      attempts := attempts + [AttemptSlot(role, priority(role))];
      at := at + stride;
      a := a + 1;
    }
    StrideBelow(a, count, stride);
  }

  lemma MeasuredPush<D>(attempts: seq<AttemptSlot<D>>, warmups: nat, observations: seq<ObservationSlot>, stride: nat,
                        priority: Role -> D, at: nat)
    requires MeasuredAfter(attempts, warmups, observations, stride, priority) && warmups <= |attempts|
    requires at == BlockStart(|attempts| - warmups, stride) && at < |observations|
    ensures
      var role := Measured(observations[at]);
      MeasuredAfter(attempts + [AttemptSlot(role, priority(role))], warmups, observations, stride, priority)
  {
    hide BlockStart;
    var role := Measured(observations[at]);
    var more := attempts + [AttemptSlot(role, priority(role))];
    forall i | warmups <= i < |more|
      ensures IsMeasured(more[i], observations, BlockStart(i - warmups, stride), priority)
    {
      if i == |attempts| {
        assert more[i] == AttemptSlot(role, priority(role));
      } else {
        assert more[i] == attempts[i];
      }
    }
  }

  lemma NoBlocks(stride: nat)
    ensures BlockStart(0, stride) == 0
  {}

  lemma StrideBelow(a: nat, count: nat, stride: nat)
    requires stride > 0 && a <= count
    ensures
      BlockStart(a + 1, stride) == BlockStart(a, stride) + stride
      && (a < count <==> BlockStart(a, stride) < BlockStart(count, stride))
  {
    if a < count {
      ScaleStrict(a, count, stride);
    }
  }

  // ----- what the slots are for -----

  /** SelectedStreamingProfile::measurement_index. */
  function MeasurementIndex(maxObservations: nat, slotIndex: nat): nat
    requires maxObservations > 0
  {
    slotIndex / maxObservations
  }

  /** Every pair of a repetition and a schedule index has exactly one fresh slot,
      which carries the control at that index. */
  lemma FreshSlotsAreAGrid<D>(plan: Plan<D>, controls: seq<Value>, repetitions: U64, warmups: U64, priority: Role -> D,
                              repetition: nat, index: nat)
    returns (k: nat)
    requires |controls| > 0 && IsPlan(plan, Some(controls), |controls|, repetitions, warmups, priority)
    requires repetition < repetitions && index < |controls|
    ensures k < |plan.observations|
    ensures plan.observations[k] == ObservationSlot(Some(FreshControl(index, controls[index])), repetition)
    ensures forall m: nat ::
              && m < |plan.observations|
              && plan.observations[m].measurementIndex == repetition
              && plan.observations[m].freshControl.value.scheduleIndex == index
              ==> m == k
  {
    var bound := |controls|;
    k := BlockStart(repetition, bound) + index;
    ScaleStrict(repetition, repetitions, bound);
    DivModUnique(k, bound, repetition, index, BlockStart(repetition, bound));
    forall m: nat |
      && m < |plan.observations|
      && plan.observations[m].measurementIndex == repetition
      && plan.observations[m].freshControl.value.scheduleIndex == index
      ensures m == k
    {
      assert m == m / bound * bound + m % bound;
    }
  }

  /** No two observation slots are equal, so each has an identity of its own. */
  lemma SlotsAreDistinct(controls: Option<seq<Value>>, bound: nat, k: nat, m: nat)
    requires bound > 0 && (controls.Some? ==> |controls.value| == bound)
    requires SlotAt(controls, bound, k) == SlotAt(controls, bound, m)
    ensures k == m
  {
    if controls.Some? {
      assert k == k / bound * bound + k % bound;
      assert m == m / bound * bound + m % bound;
    }
  }

  /** Without fresh controls, attempt a of the measured ones stands for a block of
      slots that starts at its own; measurement_index maps exactly the slots of
      that block back to a. */
  lemma MeasuredBlocks<D>(plan: Plan<D>, bound: nat, repetitions: U64, warmups: U64, priority: Role -> D, k: nat)
    requires bound > 0 && IsPlan(plan, None, bound, repetitions, warmups, priority)
    requires k < |plan.observations|
    ensures
      var slot := plan.observations[k].measurementIndex;
      var a := MeasurementIndex(bound, slot);
      && slot == k && a < repetitions && BlockStart(a, bound) < |plan.observations|
      && plan.attempts[warmups + a].role == Measured(plan.observations[BlockStart(a, bound)])
      && BlockStart(a, bound) <= slot < BlockStart(a, bound) + bound
      && forall b: nat :: BlockStart(b, bound) <= slot < BlockStart(b, bound) + bound ==> b == a
  {
    var a := MeasurementIndex(bound, k);
    assert k == BlockStart(a, bound) + k % bound;
    if a >= repetitions {
      ScaleUp(repetitions, a, bound);
    }
    var i := warmups + a;
    assert IsMeasured(plan.attempts[i], plan.observations, BlockStart(i - warmups, SlotsPerAttempt(None, bound)),
                      priority);
    forall b: nat | BlockStart(b, bound) <= k < BlockStart(b, bound) + bound
      ensures b == a
    {
      DivModUnique(k, bound, b, k - BlockStart(b, bound), BlockStart(b, bound));
    }
  }

  /** Each planned attempt has its own role, so no work is planned twice. */
  lemma RolesAreDistinct<D>(plan: Plan<D>, controls: Option<seq<Value>>, bound: nat, repetitions: U64, warmups: U64,
                            priority: Role -> D, i: nat, j: nat)
    requires bound > 0 && (controls.Some? ==> |controls.value| == bound)
    requires IsPlan(plan, controls, bound, repetitions, warmups, priority)
    requires i < j < |plan.attempts|
    ensures plan.attempts[i].role != plan.attempts[j].role
  {
    RoleAt(plan, controls, bound, repetitions, warmups, priority, i);
    RoleAt(plan, controls, bound, repetitions, warmups, priority, j);
    if i >= warmups {
      var stride := SlotsPerAttempt(controls, bound);
      var first, second := BlockStart(i - warmups, stride), BlockStart(j - warmups, stride);
      ScaleStrict(i - warmups, j - warmups, stride);
      if SlotAt(controls, bound, first) == SlotAt(controls, bound, second) {
        SlotsAreDistinct(controls, bound, first, second);
      }
    }
  }

  lemma RoleAt<D>(plan: Plan<D>, controls: Option<seq<Value>>, bound: nat, repetitions: U64, warmups: U64,
                  priority: Role -> D, i: nat)
    requires bound > 0 && (controls.Some? ==> |controls.value| == bound)
    requires IsPlan(plan, controls, bound, repetitions, warmups, priority)
    requires i < |plan.attempts|
    ensures
      var stride := SlotsPerAttempt(controls, bound);
      if i < warmups then plan.attempts[i].role == Warmup(i)
      else plan.attempts[i].role == Measured(SlotAt(controls, bound, BlockStart(i - warmups, stride)))
  {
    hide BlockStart;
    hide SlotAt;
    if i >= warmups {
      var at := BlockStart(i - warmups, SlotsPerAttempt(controls, bound));
      assert IsMeasured(plan.attempts[i], plan.observations, at, priority);
      assert plan.observations[at] == SlotAt(controls, bound, at);
    }
  }

  /** Without a profile each repetition has one observation and one measured attempt
      for it. */
  lemma PlanWithoutProfile<D>(plan: Plan<D>, repetitions: U64, warmups: U64, priority: Role -> D)
    requires Plans(plan, None, repetitions, warmups, priority)
    ensures OpensWithWarmups(plan, warmups, priority)
    ensures |plan.observations| == repetitions && |plan.attempts| == warmups + repetitions
    ensures forall k :: 0 <= k < repetitions ==>
              plan.observations[k] == ObservationSlot(None, k) && StandsFor(plan, warmups, k, k)
  {
    hide SlotAt;
    hide MeasuredAfter;
    hide BlockStart;
    hide StandsFor;
    PlanInOrder(plan, None, 1, repetitions, warmups, priority);
    BlockProduct(repetitions, 1);
    forall k | 0 <= k < repetitions
      ensures StandsFor(plan, warmups, k, k)
    {
      assert StandsFor(plan, warmups, k, k * 1);
    }
  }

  /** A streaming or buffered profile has bound many observations for each measured
      attempt, which stands for the first of them. */
  lemma PlanWithBound<D>(plan: Plan<D>, profile: Profile, repetitions: U64, warmups: U64, priority: Role -> D)
    requires !profile.binding.Fresh? && Plans(plan, Some(profile), repetitions, warmups, priority)
    ensures OpensWithWarmups(plan, warmups, priority)
    ensures |plan.observations| == repetitions * profile.bound && |plan.attempts| == warmups + repetitions
    ensures forall k :: 0 <= k < |plan.observations| ==> plan.observations[k] == ObservationSlot(None, k)
    ensures forall a :: 0 <= a < repetitions ==> StandsFor(plan, warmups, a, a * profile.bound)
  {
    hide SlotAt;
    hide MeasuredAfter;
    hide BlockStart;
    hide StandsFor;
    PlanInOrder(plan, None, profile.bound, repetitions, warmups, priority);
    BlockProduct(repetitions, profile.bound);
  }

  /** A fresh profile goes through all controls in each repetition, with an attempt
      for each observation. */
  lemma PlanFresh<D>(plan: Plan<D>, profile: Profile, repetitions: U64, warmups: U64, priority: Role -> D)
    returns (controls: seq<Value>)
    requires profile.binding.Fresh? && Expandable(profile.binding.schedule, profile.bound)
    requires Plans(plan, Some(profile), repetitions, warmups, priority)
    ensures OpensWithWarmups(plan, warmups, priority)
    ensures ExpandsTo(profile.binding.schedule, controls) && |controls| > 0
    ensures |plan.observations| == repetitions * |controls| && |plan.attempts| == warmups + |plan.observations|
    ensures forall k :: 0 <= k < |plan.observations| ==> StandsFor(plan, warmups, k, k)
    ensures forall k :: 0 <= k < |plan.observations| ==>
              plan.observations[k] ==
              ObservationSlot(Some(FreshControl(k % |controls|, controls[k % |controls|])), k / |controls|)
  {
    hide SlotAt;
    hide MeasuredAfter;
    hide BlockStart;
    hide StandsFor;
    hide ExpandsTo;
    controls :| |controls| == Bound(Some(profile)) && ExpandsTo(profile.binding.schedule, controls)
                && IsPlan(plan, Some(controls), Bound(Some(profile)), repetitions, warmups, priority);
    PlanInOrder(plan, Some(controls), |controls|, repetitions, warmups, priority);
    BlockProduct(repetitions, |controls|);
  }

  /** The warm-ups come first, and every attempt has the priority of its role. */
  ghost predicate OpensWithWarmups<D>(plan: Plan<D>, warmups: nat, priority: Role -> D) {
    && |plan.attempts| >= warmups && (forall w :: 0 <= w < warmups ==> plan.attempts[w].role == Warmup(w))
    && forall i :: 0 <= i < |plan.attempts| ==> plan.attempts[i].priority == priority(plan.attempts[i].role)
  }

  /** Measured attempt a measures the observation at this index. */
  ghost predicate StandsFor<D>(plan: Plan<D>, warmups: nat, a: nat, at: nat) {
    && warmups + a < |plan.attempts| && at < |plan.observations|
    && plan.attempts[warmups + a].role == Measured(plan.observations[at])
  }

  lemma BlockProduct(a: nat, size: nat)
    ensures BlockStart(a, size) == a * size
  {}

  lemma PlanInOrder<D>(plan: Plan<D>, controls: Option<seq<Value>>, bound: nat, repetitions: U64, warmups: U64,
                       priority: Role -> D)
    requires bound > 0 && (controls.Some? ==> |controls.value| == bound)
    requires IsPlan(plan, controls, bound, repetitions, warmups, priority)
    ensures OpensWithWarmups(plan, warmups, priority)
    ensures forall k :: 0 <= k < |plan.observations| ==>
              plan.observations[k] ==
              if controls.None? then ObservationSlot(None, k)
              else ObservationSlot(Some(FreshControl(k % bound, controls.value[k % bound])), k / bound)
    ensures controls.None? ==> forall a :: 0 <= a < repetitions ==> StandsFor(plan, warmups, a, a * bound)
    ensures controls.Some? ==> forall k :: 0 <= k < |plan.observations| ==> StandsFor(plan, warmups, k, k)
  {
    hide BlockStart;
    hide MeasuredAfter;
    forall i | 0 <= i < |plan.attempts|
      ensures plan.attempts[i].priority == priority(plan.attempts[i].role)
    {
      if i >= warmups {
        MeasuredInOrder(plan, controls, bound, repetitions, warmups, priority, i - warmups);
      }
    }
    if controls.None? {
      forall a | 0 <= a < repetitions
        ensures StandsFor(plan, warmups, a, a * bound)
      {
        MeasuredInOrder(plan, controls, bound, repetitions, warmups, priority, a);
        BlockProduct(a, bound);
      }
    } else {
      forall k | 0 <= k < |plan.observations|
        ensures StandsFor(plan, warmups, k, k)
      {
        MeasuredInOrder(plan, controls, bound, repetitions, warmups, priority, k);
        BlockProduct(k, 1);
      }
    }
  }

  lemma MeasuredInOrder<D>(plan: Plan<D>, controls: Option<seq<Value>>, bound: nat, repetitions: U64, warmups: U64,
                           priority: Role -> D, a: nat)
    requires bound > 0 && (controls.Some? ==> |controls.value| == bound)
    requires IsPlan(plan, controls, bound, repetitions, warmups, priority)
    requires warmups + a < |plan.attempts|
    ensures plan.attempts[warmups + a].priority == priority(plan.attempts[warmups + a].role)
    ensures StandsFor(plan, warmups, a, BlockStart(a, SlotsPerAttempt(controls, bound)))
  {
    hide BlockStart;
    hide SlotAt;
    assert IsMeasured(plan.attempts[warmups + a], plan.observations,
                      BlockStart(warmups + a - warmups, SlotsPerAttempt(controls, bound)), priority);
  }
}
