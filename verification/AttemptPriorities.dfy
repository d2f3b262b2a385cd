/** The scheduling priority of an attempt from src/core/planning.rs. SHA-256 is a
    parameter, as for blocks. */
module AttemptPriorities {
  import opened Lexicographic
  import opened Scheduling
  import opened Wrappers
  import Integers
  import Json
  import RecordIds
  import SlotPlanning

  const SPECIFICATION_KIND: string := "logical-specification"
  const OBSERVATION_KIND: string := "logical-observation-slot"

  /** The kinds whose spellings are hashed are declared ones, all different. */
  lemma HashedKindsAreDeclared()
    ensures RecordIds.IsDeclaredKind(DATASET_KIND) && RecordIds.IsDeclaredKind(PROBLEM_KIND)
    ensures RecordIds.IsDeclaredKind(SPECIFICATION_KIND) && RecordIds.IsDeclaredKind(OBSERVATION_KIND)
    ensures |{DATASET_KIND, PROBLEM_KIND, SPECIFICATION_KIND, OBSERVATION_KIND}| == 4
  {
    assert DATASET_KIND == RecordIds.LOGICAL_KINDS[0] && PROBLEM_KIND == RecordIds.CONFIGURATION_KINDS[3];
    assert SPECIFICATION_KIND == RecordIds.LOGICAL_KINDS[3] && OBSERVATION_KIND == RecordIds.LOGICAL_KINDS[4];
    assert |DATASET_KIND| == 16 && |PROBLEM_KIND| == 21 && |SPECIFICATION_KIND| == 21 && |OBSERVATION_KIND| == 24;
    assert PROBLEM_KIND[0] == 'p' && SPECIFICATION_KIND[0] == 'l';
  }

  /** A role names its observation slot by that slot's identity. */
  datatype AttemptRole = Warmup(index: nat) | Measured(slot: seq<nat>)

  predicate ValidRole(role: AttemptRole) {
    match role
    case Warmup(index) => index < U64_BOUND
    case Measured(slot) => IsDigest(slot)
  }

  function RoleMessage(specification: seq<nat>, role: AttemptRole): seq<nat>
    requires IsDigest(specification) && ValidRole(role)
  {
    match role
    case Warmup(index) =>
      Codes("warmup") + ([0] + (Spelling(SPECIFICATION_KIND, specification) + ([0] + BigEndian(index, 8))))
    case Measured(slot) => Codes("measured") + ([0] + Spelling(OBSERVATION_KIND, slot))
  }

  /** Everything the hash is fed for one attempt. */
  function AttemptMessage(seed: seq<nat>, specification: seq<nat>, role: AttemptRole): seq<nat>
    requires IsDigest(specification) && ValidRole(role)
  {
    (Codes(DOMAIN) + [0] + seed + [0]) + RoleMessage(specification, role)
  }

  /** The successive updates of derive_attempt_scheduling_priority. */
  method DeriveAttemptPriority(sha: seq<nat> -> seq<nat>, seed: seq<nat>, specification: seq<nat>, role: AttemptRole)
    returns (priority: seq<nat>)
    requires IsDigest(specification) && ValidRole(role)
    ensures priority == sha(AttemptMessage(seed, specification, role))
  {
    hide BigEndian;
    hide Spelling;
    hide Codes;
    hide IsDigest;
    var hasher := Codes(DOMAIN);
    hasher := hasher + [0];
    hasher := hasher + seed;
    hasher := hasher + [0];
    ghost var head := hasher;
    match role {
      case Warmup(index) =>
        hasher := hasher + Codes("warmup");
        hasher := hasher + [0];
        hasher := hasher + Spelling(SPECIFICATION_KIND, specification);
        hasher := hasher + [0];
        hasher := hasher + BigEndian(index, 8);
        FlattenFields(head, Codes("warmup"), Spelling(SPECIFICATION_KIND, specification), [0] + BigEndian(index, 8));
      case Measured(slot) =>
        hasher := hasher + Codes("measured");
        hasher := hasher + [0];
        hasher := hasher + Spelling(OBSERVATION_KIND, slot);
        FlattenFields(head, Codes("measured"), Spelling(OBSERVATION_KIND, slot), []);
    }
    assert hasher == AttemptMessage(seed, specification, role);
    priority := sha(hasher);
  }

  lemma FlattenFields(head: seq<nat>, p: seq<nat>, q: seq<nat>, r: seq<nat>)
    ensures head + p + [0] + q + r == head + (p + ([0] + (q + r)))
    ensures q + [] == q
  {}

  /** Where the fields stand in the bytes that are hashed for an attempt under a 32
      byte seed: first the domain and the seed, then the fields of the role. */
  lemma AttemptLayout(seed: seq<nat>, specification: seq<nat>, role: AttemptRole)
    requires IsDigest(specification) && ValidRole(role) && |seed| == 32
    ensures
      var m := AttemptMessage(seed, specification, role);
      && |m| >= 65 && m[31] == m[64] == 0
      && m[0..31] == Codes("metewand-scheduling-priority-v1") && m[32..64] == seed
      && m[65..] == RoleMessage(specification, role)
  {
    hide RoleMessage;
    hide Codes;
    hide IsDigest;
    var m, rest := AttemptMessage(seed, specification, role), RoleMessage(specification, role);
    assert m[0..] == Codes(DOMAIN) + ([0] + (seed + ([0] + rest)));
    Piece(m, 0, Codes(DOMAIN), [0] + (seed + ([0] + rest)));
    Piece(m, 31, [0], seed + ([0] + rest));
    Piece(m, 32, seed, [0] + rest);
    Piece(m, 64, [0], rest);
  }

  lemma WarmupLayout(specification: seq<nat>, index: nat)
    requires IsDigest(specification) && index < U64_BOUND
    ensures
      var m := RoleMessage(specification, Warmup(index));
      && |m| == 106 && m[6] == m[97] == 0 && m[0..6] == Codes("warmup")
      && m[7..97] == Codes("mw1-logical-specification-" + RecordIds.Hex(AsBytes(specification)))
      && m[98..106] == BigEndian(index, 8)
  {
    hide BigEndian;
    hide Spelling;
    hide Codes;
    hide IsDigest;
    hide RecordIds.Hex;
    var m := RoleMessage(specification, Warmup(index));
    var id, last := Spelling(SPECIFICATION_KIND, specification), BigEndian(index, 8);
    SpelledSpecification(specification);
    assert m[0..] == Codes("warmup") + ([0] + (id + ([0] + last)));
    Piece(m, 0, Codes("warmup"), [0] + (id + ([0] + last)));
    Piece(m, 6, [0], id + ([0] + last));
    Piece(m, 7, id, [0] + last);
    Piece(m, 97, [0], last);
  }

  lemma MeasuredLayout(specification: seq<nat>, slot: seq<nat>)
    requires IsDigest(specification) && IsDigest(slot)
    ensures
      var m := RoleMessage(specification, Measured(slot));
      && |m| == 102 && m[8] == 0 && m[0..8] == Codes("measured")
      && m[9..102] == Codes("mw1-logical-observation-slot-" + RecordIds.Hex(AsBytes(slot)))
  {
    hide Spelling;
    hide Codes;
    hide IsDigest;
    hide RecordIds.Hex;
    var m, id := RoleMessage(specification, Measured(slot)), Spelling(OBSERVATION_KIND, slot);
    SpelledObservation(slot);
    assert m[0..] == Codes("measured") + ([0] + id);
    Piece(m, 0, Codes("measured"), [0] + id);
    Piece(m, 8, [0], id);
  }

  lemma SpelledSpecification(d: seq<nat>)
    requires IsDigest(d)
    ensures Spelling(SPECIFICATION_KIND, d) == Codes("mw1-logical-specification-" + RecordIds.Hex(AsBytes(d)))
    ensures |Spelling(SPECIFICATION_KIND, d)| == 90
  {
    hide Codes;
    hide RecordIds.Hex;
    assert "mw1-" + SPECIFICATION_KIND + "-" == "mw1-logical-specification-";
  }

  lemma SpelledObservation(d: seq<nat>)
    requires IsDigest(d)
    ensures Spelling(OBSERVATION_KIND, d) == Codes("mw1-logical-observation-slot-" + RecordIds.Hex(AsBytes(d)))
    ensures |Spelling(OBSERVATION_KIND, d)| == 93
  {
    hide Codes;
    hide RecordIds.Hex;
    assert "mw1-" + OBSERVATION_KIND + "-" == "mw1-logical-observation-slot-";
  }

  // ----- what the messages tell apart -----

  /** Equal messages come from equal seeds and equal roles, and those of warm-ups
      from one specification. In particular no warm-up hashes the message of a
      measured attempt. */
  lemma AttemptMessageInjective(seed: seq<nat>, specification: seq<nat>, role: AttemptRole, seed': seq<nat>,
                                specification': seq<nat>, role': AttemptRole)
    requires IsDigest(specification) && ValidRole(role) && IsDigest(specification') && ValidRole(role')
    requires |seed| == |seed'|
    requires AttemptMessage(seed, specification, role) == AttemptMessage(seed', specification', role')
    ensures seed == seed' && role == role' && (role.Warmup? ==> specification == specification')
  {
    hide RoleMessage;
    hide IsDigest;
    hide Codes;
    SameHead(seed, [0], RoleMessage(specification, role), seed', [0], RoleMessage(specification', role'));
    RoleMessageInjective(specification, role, specification', role');
  }

  /** Messages start alike: with the domain and a seed. */
  lemma SameHead(seed: seq<nat>, mark: seq<nat>, rest: seq<nat>, seed': seq<nat>, mark': seq<nat>, rest': seq<nat>)
    requires |seed| == |seed'|
    requires Codes(DOMAIN) + [0] + seed + mark + rest == Codes(DOMAIN) + [0] + seed' + mark' + rest'
    ensures seed == seed' && mark + rest == mark' + rest'
    ensures |mark| == |mark'| ==> rest == rest'
  {
    hide Codes;
    var head, head' := Codes(DOMAIN) + [0] + seed, Codes(DOMAIN) + [0] + seed';
    assert head + mark + rest == head + (mark + rest) && head' + mark' + rest' == head' + (mark' + rest');
    Concatenation(head, head', mark + rest, mark' + rest');
    Concatenation(Codes(DOMAIN) + [0], Codes(DOMAIN) + [0], seed, seed');
    if |mark| == |mark'| {
      Concatenation(mark, mark', rest, rest');
    }
  }

  lemma RoleMessageInjective(specification: seq<nat>, role: AttemptRole, specification': seq<nat>, role': AttemptRole)
    requires IsDigest(specification) && ValidRole(role) && IsDigest(specification') && ValidRole(role')
    requires RoleMessage(specification, role) == RoleMessage(specification', role')
    ensures role == role' && (role.Warmup? ==> specification == specification')
  {
    hide Spelling;
    hide BigEndian;
    hide IsDigest;
    FirstCode(specification, role);
    FirstCode(specification', role');
    if role.Warmup? {
      var last, last' := [0] + BigEndian(role.index, 8), [0] + BigEndian(role'.index, 8);
      var id, id' := Spelling(SPECIFICATION_KIND, specification), Spelling(SPECIFICATION_KIND, specification');
      Concatenation(Codes("warmup"), Codes("warmup"), [0] + (id + last), [0] + (id' + last'));
      Concatenation([0], [0], id + last, id' + last');
      Concatenation(id, id', last, last');
      Concatenation([0], [0], BigEndian(role.index, 8), BigEndian(role'.index, 8));
      SpellingInjective(SPECIFICATION_KIND, specification, specification');
      EightBytes();
      BigEndianInjective(role.index, role'.index, 8, U64_BOUND);
    } else {
      var id, id' := Spelling(OBSERVATION_KIND, role.slot), Spelling(OBSERVATION_KIND, role'.slot);
      Concatenation(Codes("measured"), Codes("measured"), [0] + id, [0] + id');
      Concatenation([0], [0], id, id');
      SpellingInjective(OBSERVATION_KIND, role.slot, role'.slot);
    }
  }

  /** The tags of warm-ups and measured attempts, and that of blocks, differ at
      their first character. */
  lemma FirstCode(specification: seq<nat>, role: AttemptRole)
    requires IsDigest(specification) && ValidRole(role)
    ensures
      var message := RoleMessage(specification, role);
      message != [] && message[0] == if role.Warmup? then 'w' as nat else 'm' as nat
  {
    hide Spelling;
    hide BigEndian;
    hide IsDigest;
  }

  /** No attempt hashes the message of a comparison block, although both use one
      domain and one seed. */
  lemma AttemptsAreNotBlocks(seed: seq<nat>, specification: seq<nat>, role: AttemptRole, seed': seq<nat>,
                             b: ComparisonBlock)
    requires IsDigest(specification) && ValidRole(role) && ValidBlock(b) && |seed| == |seed'|
    ensures AttemptMessage(seed, specification, role) != Message(seed', b)
  {
    hide RoleMessage;
    hide BlockMessage;
    hide IsDigest;
    var tag := [0] + Codes("block") + [0];
    FirstCode(specification, role);
    assert ([0] + RoleMessage(specification, role))[1] != 'b' as nat;
    assert (tag + BlockMessage(b))[1] == 'b' as nat;
    if AttemptMessage(seed, specification, role) == Message(seed', b) {
      SameHead(seed, [0], RoleMessage(specification, role), seed', tag, BlockMessage(b));
    }
  }

  // ----- the priorities of a plan -----

  function HashedRole(identity: SlotPlanning.ObservationSlot -> seq<nat>, role: SlotPlanning.Role): AttemptRole {
    match role
    case Warmup(index) => Warmup(index)
    case Measured(slot) => Measured(identity(slot))
  }

  /** The slots of the plan have identities of their own. */
  ghost predicate Identifies(identity: SlotPlanning.ObservationSlot -> seq<nat>,
                             slots: seq<SlotPlanning.ObservationSlot>) {
    && (forall k :: 0 <= k < |slots| ==> IsDigest(identity(slots[k])))
    && forall k, m :: 0 <= k < |slots| && 0 <= m < |slots| && identity(slots[k]) == identity(slots[m]) ==>
         slots[k] == slots[m]
  }

  /** Every two attempts of a plan hash different messages. */
  lemma PlannedMessagesDiffer<D>(plan: SlotPlanning.Plan<D>, controls: Option<seq<Json.Value>>, bound: nat,
                                 repetitions: Integers.U64, warmups: Integers.U64,
                                 priority: SlotPlanning.Role -> D,
                                 identity: SlotPlanning.ObservationSlot -> seq<nat>, seed: seq<nat>,
                                 specification: seq<nat>, i: nat, j: nat)
    requires bound > 0 && (controls.Some? ==> |controls.value| == bound)
    requires SlotPlanning.IsPlan(plan, controls, bound, repetitions, warmups, priority)
    requires Identifies(identity, plan.observations) && IsDigest(specification)
    requires i < j < |plan.attempts|
    ensures
      var first, second := HashedRole(identity, plan.attempts[i].role), HashedRole(identity, plan.attempts[j].role);
      && ValidRole(first) && ValidRole(second)
      && AttemptMessage(seed, specification, first) != AttemptMessage(seed, specification, second)
  {
    hide SlotPlanning.IsPlan;
    hide AttemptMessage;
    hide IsDigest;
    var k := PlannedRole(plan, controls, bound, repetitions, warmups, priority, i);
    var m := PlannedRole(plan, controls, bound, repetitions, warmups, priority, j);
    SlotPlanning.RolesAreDistinct(plan, controls, bound, repetitions, warmups, priority, i, j);
    var first, second := HashedRole(identity, plan.attempts[i].role), HashedRole(identity, plan.attempts[j].role);
    if AttemptMessage(seed, specification, first) == AttemptMessage(seed, specification, second) {
      AttemptMessageInjective(seed, specification, first, seed, specification, second);
    }
  }

  /** An attempt warms up within the 64-bit count, or measures an observation. */
  lemma PlannedRole<D>(plan: SlotPlanning.Plan<D>, controls: Option<seq<Json.Value>>, bound: nat,
                       repetitions: Integers.U64, warmups: Integers.U64, priority: SlotPlanning.Role -> D, i: nat)
    returns (k: nat)
    requires bound > 0 && (controls.Some? ==> |controls.value| == bound)
    requires SlotPlanning.IsPlan(plan, controls, bound, repetitions, warmups, priority)
    requires i < |plan.attempts|
    ensures
      || (plan.attempts[i].role.Warmup? && plan.attempts[i].role.index < U64_BOUND)
      || (k < |plan.observations| && plan.attempts[i].role == SlotPlanning.Role.Measured(plan.observations[k]))
  {
    hide SlotPlanning.BlockStart;
    hide SlotPlanning.SlotAt;
    k := 0;
    if i >= warmups {
      k := SlotPlanning.BlockStart(i - warmups, SlotPlanning.SlotsPerAttempt(controls, bound));
      assert SlotPlanning.IsMeasured(plan.attempts[i], plan.observations, k, priority);
    }
  }
}
