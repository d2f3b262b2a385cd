/** Deterministic dispatch order from src/core/scheduling.rs. SHA-256 is a
    parameter: any function from messages to 32-byte digests. */
module Scheduling {
  import opened Lexicographic
  import opened Permutations
  import Integers
  import RecordIds

  const U64_BOUND: nat := 0x1_0000_0000_0000_0000

  predicate IsDigest(d: seq<nat>) {
    |d| == 32 && forall i :: 0 <= i < 32 ==> d[i] < 256
  }

  datatype ComparisonBlock = ComparisonBlock(
    datasetInstance: seq<nat>, problemConfiguration: seq<nat>, implementationRepetition: nat, measurementIndex: nat)

  datatype SchedulingSlot = SchedulingSlot(
    observationRound: nat, logicalSlot: seq<nat>, comparisonBlock: ComparisonBlock, schedulingPriority: seq<nat>)

  datatype RunOrder = Sequential | Randomized

  predicate ValidBlock(b: ComparisonBlock) {
    && IsDigest(b.datasetInstance) && IsDigest(b.problemConfiguration)
    && b.implementationRepetition < U64_BOUND && b.measurementIndex < U64_BOUND
  }

  predicate ValidSlot(s: SchedulingSlot) {
    ValidBlock(s.comparisonBlock) && IsDigest(s.logicalSlot) && IsDigest(s.schedulingPriority)
    && s.observationRound < U64_BOUND
  }

  predicate ValidSlots(slots: seq<SchedulingSlot>) {
    forall i :: 0 <= i < |slots| ==> ValidSlot(slots[i])
  }

  // ----- the block priority -----

  function AsBytes(d: seq<nat>): (bytes: seq<Integers.Byte>)
    requires IsDigest(d)
    ensures |bytes| == 32 && forall i :: 0 <= i < 32 ==> bytes[i] == d[i]
  {
    seq(32, i requires 0 <= i < 32 => d[i])
  }

  /** The complete UTF-8 spelling of a typed identity. */
  function Spelling(kind: string, d: seq<nat>): (bytes: seq<nat>)
    requires IsDigest(d)
    ensures |bytes| == 5 + |kind| + 64
  {
    Codes(RecordIds.Print(kind, AsBytes(d)))
  }

  /** to_be_bytes on the low width bytes. */
  function BigEndian(n: nat, width: nat): (bytes: seq<nat>)
    ensures |bytes| == width
  {
    if width == 0 then [] else BigEndian(n / 256, width - 1) + [n % 256]
  }

  const DOMAIN: string := "metewand-scheduling-priority-v1"
  const DATASET_KIND: string := "dataset-instance"
  const PROBLEM_KIND: string := "problem-configuration"

  /** Everything the hash is fed for one block. */
  function Message(seed: seq<nat>, b: ComparisonBlock): seq<nat>
    requires ValidBlock(b)
  {
    (Codes(DOMAIN) + [0] + seed + ([0] + Codes("block") + [0])) + BlockMessage(b)
  }

  function BlockMessage(b: ComparisonBlock): seq<nat>
    requires ValidBlock(b)
  {
    Spelling(DATASET_KIND, b.datasetInstance) + ([0] + (Spelling(PROBLEM_KIND, b.problemConfiguration) + ([0] +
    (BigEndian(b.implementationRepetition, 8) + ([0] + BigEndian(b.measurementIndex, 8))))))
  }

  function BlockPriority(sha: seq<nat> -> seq<nat>, seed: seq<nat>, b: ComparisonBlock): seq<nat>
    requires ValidBlock(b)
  {
    sha(Message(seed, b))
  }

  /** The successive updates of derive_block_scheduling_priority. */
  method DeriveBlockPriority(sha: seq<nat> -> seq<nat>, seed: seq<nat>, b: ComparisonBlock) returns (priority: seq<nat>)
    requires ValidBlock(b)
    ensures priority == BlockPriority(sha, seed, b)
  {
    hide BigEndian;
    hide Spelling;
    hide Codes;
    var hasher := Codes(DOMAIN);
    hasher := hasher + [0];
    hasher := hasher + seed;
    hasher := hasher + ([0] + Codes("block") + [0]);
    ghost var head := hasher;
    hasher := hasher + Spelling(DATASET_KIND, b.datasetInstance);
    hasher := hasher + [0];
    hasher := hasher + Spelling(PROBLEM_KIND, b.problemConfiguration);
    hasher := hasher + [0];
    hasher := hasher + BigEndian(b.implementationRepetition, 8);
    hasher := hasher + [0];
    hasher := hasher + BigEndian(b.measurementIndex, 8);
    Flatten(head, Spelling(DATASET_KIND, b.datasetInstance), Spelling(PROBLEM_KIND, b.problemConfiguration),
            BigEndian(b.implementationRepetition, 8), BigEndian(b.measurementIndex, 8));
    priority := sha(hasher);
  }

  lemma Flatten(head: seq<nat>, p: seq<nat>, q: seq<nat>, r: seq<nat>, s: seq<nat>)
    ensures head + p + [0] + q + [0] + r + [0] + s == head + (p + ([0] + (q + ([0] + (r + ([0] + s))))))
  {
    var t := r + ([0] + s);
    assert head + p + [0] + q + [0] + r + [0] + s == head + p + [0] + q + [0] + t;
    var u := q + ([0] + t);
    assert head + p + [0] + q + [0] + t == head + p + [0] + u;
    assert head + p + [0] + u == head + (p + ([0] + u));
  }

  lemma {:induction false} BigEndianInjective(n: nat, m: nat, width: nat, bound: nat)
    requires n < bound && m < bound && bound == PowerOf256(width) && BigEndian(n, width) == BigEndian(m, width)
    ensures n == m
  {
    if width > 0 {
      var a, b := BigEndian(n / 256, width - 1), BigEndian(m / 256, width - 1);
      assert a == (a + [n % 256])[..width - 1] && b == (b + [m % 256])[..width - 1];
      assert n % 256 == (a + [n % 256])[width - 1] && m % 256 == (b + [m % 256])[width - 1];
      BigEndianInjective(n / 256, m / 256, width - 1, PowerOf256(width - 1));
    }
  }

  /** The bytes of larger counters are lexicographically larger, most significant
      byte first. */
  lemma {:induction false} BigEndianOrder(n: nat, m: nat, width: nat, bound: nat)
    requires n < bound && m < bound && bound == PowerOf256(width)
    ensures Less(BigEndian(n, width), BigEndian(m, width)) <==> n < m
    ensures forall i :: 0 <= i < width ==> BigEndian(n, width)[i] < 256
    decreases width
  {
    if width > 0 {
      BigEndianOrder(n / 256, m / 256, width - 1, PowerOf256(width - 1));
      if BigEndian(n / 256, width - 1) == BigEndian(m / 256, width - 1) {
        BigEndianInjective(n / 256, m / 256, width - 1, PowerOf256(width - 1));
      }
      Concatenation(BigEndian(n / 256, width - 1), BigEndian(m / 256, width - 1), [n % 256], [m % 256]);
    }
  }

  function PowerOf256(width: nat): nat {
    if width == 0 then 1 else 256 * PowerOf256(width - 1)
  }

  lemma SpellingInjective(kind: string, d: seq<nat>, e: seq<nat>)
    requires IsDigest(d) && IsDigest(e) && Spelling(kind, d) == Spelling(kind, e)
    ensures d == e
  {
    var s, t := RecordIds.Print(kind, AsBytes(d)), RecordIds.Print(kind, AsBytes(e));
    CodesInjective(s, t);
    RecordIds.SpellingsAreDisjoint(kind, AsBytes(d), kind, AsBytes(e));
    forall i | 0 <= i < 32
      ensures d[i] == e[i]
    {
      assert AsBytes(d)[i] == AsBytes(e)[i];
    }
  }

  /** Different blocks hash different messages: the separators and fixed widths
      make the encoding injective, for one seed and across seeds. */
  lemma MessageInjective(seed: seq<nat>, a: ComparisonBlock, seed': seq<nat>, b: ComparisonBlock)
    requires ValidBlock(a) && ValidBlock(b) && |seed| == |seed'| && Message(seed, a) == Message(seed', b)
    ensures a == b && seed == seed'
  {
    hide Spelling;
    hide BigEndian;
    hide BlockMessage;
    hide IsDigest;
    hide Codes;
    var mark := [0] + Codes("block") + [0];
    Concatenation(Codes(DOMAIN) + [0] + seed + mark, Codes(DOMAIN) + [0] + seed' + mark, BlockMessage(a),
                  BlockMessage(b));
    Concatenation(Codes(DOMAIN) + [0] + seed, Codes(DOMAIN) + [0] + seed', mark, mark);
    Concatenation(Codes(DOMAIN) + [0], Codes(DOMAIN) + [0], seed, seed');
    BlockMessageInjective(a, b);
  }

  lemma BlockMessageInjective(a: ComparisonBlock, b: ComparisonBlock)
    requires ValidBlock(a) && ValidBlock(b) && BlockMessage(a) == BlockMessage(b)
    ensures a == b
  {
    hide Spelling;
    hide BigEndian;
    hide IsDigest;
    var a4, b4 := [0] + BigEndian(a.measurementIndex, 8), [0] + BigEndian(b.measurementIndex, 8);
    var a3, b3 := BigEndian(a.implementationRepetition, 8) + a4, BigEndian(b.implementationRepetition, 8) + b4;
    var a2, b2 := Spelling(PROBLEM_KIND, a.problemConfiguration) + ([0] + a3),
                  Spelling(PROBLEM_KIND, b.problemConfiguration) + ([0] + b3);
    Concatenation(Spelling(DATASET_KIND, a.datasetInstance), Spelling(DATASET_KIND, b.datasetInstance), [0] + a2,
                  [0] + b2);
    Concatenation([0], [0], a2, b2);
    Concatenation(Spelling(PROBLEM_KIND, a.problemConfiguration), Spelling(PROBLEM_KIND, b.problemConfiguration),
                  [0] + a3, [0] + b3);
    Concatenation([0], [0], a3, b3);
    Concatenation(BigEndian(a.implementationRepetition, 8), BigEndian(b.implementationRepetition, 8), a4, b4);
    Concatenation([0], [0], BigEndian(a.measurementIndex, 8), BigEndian(b.measurementIndex, 8));
    SpellingInjective(DATASET_KIND, a.datasetInstance, b.datasetInstance);
    SpellingInjective(PROBLEM_KIND, a.problemConfiguration, b.problemConfiguration);
    EightBytes();
    BigEndianInjective(a.implementationRepetition, b.implementationRepetition, 8, U64_BOUND);
    BigEndianInjective(a.measurementIndex, b.measurementIndex, 8, U64_BOUND);
  }

  lemma EightBytes()
    ensures PowerOf256(8) == U64_BOUND
  {
    assert PowerOf256(4) == 0x1_0000_0000;
  }

  // ----- the layout of the message -----

  lemma Piece(m: seq<nat>, at: nat, part: seq<nat>, rest: seq<nat>)
    requires at <= |m| && m[at..] == part + rest
    ensures at + |part| <= |m| && m[at..at + |part|] == part && m[at + |part|..] == rest
  {
    assert m[at..at + |part|] == (part + rest)[..|part|];
    assert m[at + |part|..] == (part + rest)[|part|..];
  }

  /** Where the fields stand in the 265 bytes that are hashed for a block under a
      32 byte seed. */
  lemma MessageLayout(seed: seq<nat>, b: ComparisonBlock)
    requires ValidBlock(b) && |seed| == 32
    ensures
      var m := Message(seed, b);
      && |m| == 265 && m[31] == m[64] == m[70] == m[156] == m[247] == m[256] == 0
      && m[0..31] == Codes("metewand-scheduling-priority-v1") && m[32..64] == seed && m[65..70] == Codes("block")
      && m[71..156] == Codes("mw1-dataset-instance-" + RecordIds.Hex(AsBytes(b.datasetInstance)))
      && m[157..247] == Codes("mw1-problem-configuration-" + RecordIds.Hex(AsBytes(b.problemConfiguration)))
      && m[248..256] == BigEndian(b.implementationRepetition, 8) && m[257..265] == BigEndian(b.measurementIndex, 8)
  {
    hide BigEndian;
    hide IsDigest;
    var m := Message(seed, b);
    HeadLayout(seed, b, m);
    BlockLayout(b, m);
  }

  lemma HeadLayout(seed: seq<nat>, b: ComparisonBlock, m: seq<nat>)
    requires ValidBlock(b) && |seed| == 32 && m == Message(seed, b)
    ensures |m| >= 71 && m[31] == m[64] == m[70] == 0 && m[71..] == BlockMessage(b)
    ensures m[0..31] == Codes("metewand-scheduling-priority-v1") && m[32..64] == seed && m[65..70] == Codes("block")
  {
    hide BlockMessage;
    hide Codes;
    hide IsDigest;
    var d, tag, body := Codes(DOMAIN), Codes("block"), BlockMessage(b);
    assert m[0..] == d + ([0] + (seed + ([0] + (tag + ([0] + body)))));
    Piece(m, 0, d, [0] + (seed + ([0] + (tag + ([0] + body)))));
    Piece(m, 31, [0], seed + ([0] + (tag + ([0] + body))));
    Piece(m, 32, seed, [0] + (tag + ([0] + body)));
    Piece(m, 64, [0], tag + ([0] + body));
    Piece(m, 65, tag, [0] + body);
    Piece(m, 70, [0], body);
  }

  lemma BlockLayout(b: ComparisonBlock, m: seq<nat>)
    requires ValidBlock(b) && |m| >= 71 && m[71..] == BlockMessage(b)
    ensures |m| == 265 && m[156] == m[247] == m[256] == 0
    ensures m[71..156] == Codes("mw1-dataset-instance-" + RecordIds.Hex(AsBytes(b.datasetInstance)))
    ensures m[157..247] == Codes("mw1-problem-configuration-" + RecordIds.Hex(AsBytes(b.problemConfiguration)))
    ensures m[248..256] == BigEndian(b.implementationRepetition, 8) && m[257..265] == BigEndian(b.measurementIndex, 8)
  {
    hide BigEndian;
    hide Spelling;
    hide IsDigest;
    hide Codes;
    hide RecordIds.Hex;
    var r, i := BigEndian(b.implementationRepetition, 8), BigEndian(b.measurementIndex, 8);
    var d, p := Spelling(DATASET_KIND, b.datasetInstance), Spelling(PROBLEM_KIND, b.problemConfiguration);
    Spelled(b.datasetInstance);
    Spelled(b.problemConfiguration);
    Piece(m, 71, d, [0] + (p + ([0] + (r + ([0] + i)))));
    Piece(m, 156, [0], p + ([0] + (r + ([0] + i))));
    Piece(m, 157, p, [0] + (r + ([0] + i)));
    CounterLayout(m, r, i);
  }

  lemma CounterLayout(m: seq<nat>, r: seq<nat>, i: seq<nat>)
    requires |m| >= 247 && m[247..] == [0] + (r + ([0] + i)) && |r| == |i| == 8
    ensures |m| == 265 && m[247] == m[256] == 0 && m[248..256] == r && m[257..265] == i
  {
    Piece(m, 247, [0], r + ([0] + i));
    Piece(m, 248, r, [0] + i);
    Piece(m, 256, [0], i);
  }

  lemma Spelled(d: seq<nat>)
    requires IsDigest(d)
    ensures Spelling(DATASET_KIND, d) == Codes("mw1-dataset-instance-" + RecordIds.Hex(AsBytes(d)))
    ensures Spelling(PROBLEM_KIND, d) == Codes("mw1-problem-configuration-" + RecordIds.Hex(AsBytes(d)))
    ensures |Spelling(DATASET_KIND, d)| == 85 && |Spelling(PROBLEM_KIND, d)| == 90
  {
    hide Codes;
    hide RecordIds.Hex;
    assert "mw1-" + DATASET_KIND + "-" == "mw1-dataset-instance-";
    assert "mw1-" + PROBLEM_KIND + "-" == "mw1-problem-configuration-";
  }

  // ----- the sort key -----

  ghost predicate IsDigestFunction(sha: seq<nat> -> seq<nat>) {
    forall m: seq<nat> :: |sha(m)| == 32
  }

  /** The block's part of the key: its priority and its typed fields. */
  function BlockKey(sha: seq<nat> -> seq<nat>, seed: seq<nat>, b: ComparisonBlock): seq<nat>
    requires ValidBlock(b)
  {
    BlockPriority(sha, seed, b) +
    (b.datasetInstance + (b.problemConfiguration + [b.implementationRepetition, b.measurementIndex]))
  }

  /** The sort key of a slot. Its fields have fixed widths, so the lexicographic
      order of the flat key is the order of the tuple. */
  function Key(sha: seq<nat> -> seq<nat>, seed: seq<nat>, s: SchedulingSlot): seq<nat>
    requires ValidSlot(s)
  {
    BlockKey(sha, seed, s.comparisonBlock) + ([s.observationRound] + (s.schedulingPriority + s.logicalSlot))
  }

  lemma BlockKeyLength(sha: seq<nat> -> seq<nat>, seed: seq<nat>, b: ComparisonBlock)
    requires IsDigestFunction(sha) && ValidBlock(b)
    ensures |BlockKey(sha, seed, b)| == 98
  {
    var p := BlockPriority(sha, seed, b);
    assert |sha(Message(seed, b))| == 32;
  }

  lemma BlockKeyInjective(sha: seq<nat> -> seq<nat>, seed: seq<nat>, a: ComparisonBlock, b: ComparisonBlock)
    requires IsDigestFunction(sha) && ValidBlock(a) && ValidBlock(b) && BlockKey(sha, seed, a) == BlockKey(sha, seed, b)
    ensures a == b
  {
    hide BlockPriority;
    PriorityLength(sha, seed, a);
    PriorityLength(sha, seed, b);
    var at, bt := [a.implementationRepetition, a.measurementIndex], [b.implementationRepetition, b.measurementIndex];
    Concatenation(BlockPriority(sha, seed, a), BlockPriority(sha, seed, b),
                  a.datasetInstance + (a.problemConfiguration + at), b.datasetInstance + (b.problemConfiguration + bt));
    Concatenation(a.datasetInstance, b.datasetInstance, a.problemConfiguration + at, b.problemConfiguration + bt);
    Concatenation(a.problemConfiguration, b.problemConfiguration, at, bt);
    assert at[0] == bt[0] && at[1] == bt[1];
  }

  lemma PriorityLength(sha: seq<nat> -> seq<nat>, seed: seq<nat>, b: ComparisonBlock)
    requires IsDigestFunction(sha) && ValidBlock(b)
    ensures |BlockPriority(sha, seed, b)| == 32
  {
    assert |sha(Message(seed, b))| == 32;
  }

  /** Equal keys belong to equal slots, even when priorities collide. */
  lemma KeyInjective(sha: seq<nat> -> seq<nat>, seed: seq<nat>, s: SchedulingSlot, t: SchedulingSlot)
    requires IsDigestFunction(sha) && ValidSlot(s) && ValidSlot(t) && Key(sha, seed, s) == Key(sha, seed, t)
    ensures s == t
  {
    hide BlockKey;
    hide ValidBlock;
    BlockKeyLength(sha, seed, s.comparisonBlock);
    BlockKeyLength(sha, seed, t.comparisonBlock);
    Concatenation(BlockKey(sha, seed, s.comparisonBlock), BlockKey(sha, seed, t.comparisonBlock),
                  [s.observationRound] + (s.schedulingPriority + s.logicalSlot),
                  [t.observationRound] + (t.schedulingPriority + t.logicalSlot));
    Concatenation([s.observationRound], [t.observationRound], s.schedulingPriority + s.logicalSlot,
                  t.schedulingPriority + t.logicalSlot);
    assert [s.observationRound][0] == [t.observationRound][0];
    Concatenation(s.schedulingPriority, t.schedulingPriority, s.logicalSlot, t.logicalSlot);
    BlockKeyInjective(sha, seed, s.comparisonBlock, t.comparisonBlock);
  }

  // ----- what the key orders by -----

  /** The typed fields in turn: dataset, problem, repetition, measurement index. */
  predicate BlockBefore(a: ComparisonBlock, b: ComparisonBlock) {
    || Less(a.datasetInstance, b.datasetInstance)
    || (a.datasetInstance == b.datasetInstance &&
        (|| Less(a.problemConfiguration, b.problemConfiguration)
         || (a.problemConfiguration == b.problemConfiguration &&
             (|| a.implementationRepetition < b.implementationRepetition
              || (a.implementationRepetition == b.implementationRepetition
                  && a.measurementIndex < b.measurementIndex)))))
  }

  /** Inside one block: round, then priority, then identity. */
  predicate SlotBefore(s: SchedulingSlot, t: SchedulingSlot) {
    || s.observationRound < t.observationRound
    || (s.observationRound == t.observationRound &&
        (|| Less(s.schedulingPriority, t.schedulingPriority)
         || (s.schedulingPriority == t.schedulingPriority && Less(s.logicalSlot, t.logicalSlot))))
  }

  /** Dispatch compares the hashes of the blocks, and only for equal hashes the
      blocks themselves, and only for equal blocks the slots. */
  predicate DispatchedBefore(sha: seq<nat> -> seq<nat>, seed: seq<nat>, s: SchedulingSlot, t: SchedulingSlot)
    requires ValidSlot(s) && ValidSlot(t)
  {
    var p, q := sha(Message(seed, s.comparisonBlock)), sha(Message(seed, t.comparisonBlock));
    || Less(p, q)
    || (p == q && BlockBefore(s.comparisonBlock, t.comparisonBlock))
    || (s.comparisonBlock == t.comparisonBlock && SlotBefore(s, t))
  }

  lemma Element(x: nat, y: nat, s: seq<nat>, t: seq<nat>)
    ensures Less([x] + s, [y] + t) <==> x < y || (x == y && Less(s, t))
  {
    assert ([x] + s)[1..] == s && ([y] + t)[1..] == t;
  }

  lemma FieldsMean(a: ComparisonBlock, b: ComparisonBlock)
    requires ValidBlock(a) && ValidBlock(b)
    ensures
      Less(a.datasetInstance + (a.problemConfiguration + [a.implementationRepetition, a.measurementIndex]),
           b.datasetInstance + (b.problemConfiguration + [b.implementationRepetition, b.measurementIndex])) <==>
      BlockBefore(a, b)
  {
    hide Less;
    var at, bt := [a.implementationRepetition, a.measurementIndex], [b.implementationRepetition, b.measurementIndex];
    Concatenation(a.datasetInstance, b.datasetInstance, a.problemConfiguration + at, b.problemConfiguration + bt);
    Concatenation(a.problemConfiguration, b.problemConfiguration, at, bt);
    assert at == [a.implementationRepetition] + [a.measurementIndex];
    assert bt == [b.implementationRepetition] + [b.measurementIndex];
    Element(a.implementationRepetition, b.implementationRepetition, [a.measurementIndex], [b.measurementIndex]);
    Element(a.measurementIndex, b.measurementIndex, [], []);
    assert [a.measurementIndex] + [] == [a.measurementIndex] && [b.measurementIndex] + [] == [b.measurementIndex];
    Irreflexive([]);
  }

  lemma SlotFieldsMean(s: SchedulingSlot, t: SchedulingSlot)
    requires ValidSlot(s) && ValidSlot(t)
    ensures
      Less([s.observationRound] + (s.schedulingPriority + s.logicalSlot),
           [t.observationRound] + (t.schedulingPriority + t.logicalSlot)) <==>
      SlotBefore(s, t)
  {
    hide Less;
    Element(s.observationRound, t.observationRound, s.schedulingPriority + s.logicalSlot,
            t.schedulingPriority + t.logicalSlot);
    Concatenation(s.schedulingPriority, t.schedulingPriority, s.logicalSlot, t.logicalSlot);
  }

  lemma BlockKeyMeans(sha: seq<nat> -> seq<nat>, seed: seq<nat>, a: ComparisonBlock, b: ComparisonBlock)
    requires IsDigestFunction(sha) && ValidBlock(a) && ValidBlock(b)
    ensures
      Less(BlockKey(sha, seed, a), BlockKey(sha, seed, b)) <==>
      || Less(sha(Message(seed, a)), sha(Message(seed, b)))
      || (sha(Message(seed, a)) == sha(Message(seed, b)) && BlockBefore(a, b))
  {
    hide Less;
    hide Message;
    hide BlockBefore;
    PriorityLength(sha, seed, a);
    PriorityLength(sha, seed, b);
    FieldsMean(a, b);
    Concatenation(BlockPriority(sha, seed, a), BlockPriority(sha, seed, b),
                  a.datasetInstance + (a.problemConfiguration + [a.implementationRepetition, a.measurementIndex]),
                  b.datasetInstance + (b.problemConfiguration + [b.implementationRepetition, b.measurementIndex]));
  }

  /** The flat key orders slots as dispatch compares them. */
  lemma KeyMeans(sha: seq<nat> -> seq<nat>, seed: seq<nat>, s: SchedulingSlot, t: SchedulingSlot)
    requires IsDigestFunction(sha) && ValidSlot(s) && ValidSlot(t)
    ensures Less(Key(sha, seed, s), Key(sha, seed, t)) <==> DispatchedBefore(sha, seed, s, t)
  {
    hide Less;
    hide BlockKey;
    hide ValidBlock;
    hide Message;
    hide BlockBefore;
    hide SlotBefore;
    BlockKeyLength(sha, seed, s.comparisonBlock);
    BlockKeyLength(sha, seed, t.comparisonBlock);
    BlockKeyMeans(sha, seed, s.comparisonBlock, t.comparisonBlock);
    SlotFieldsMean(s, t);
    Concatenation(BlockKey(sha, seed, s.comparisonBlock), BlockKey(sha, seed, t.comparisonBlock),
                  [s.observationRound] + (s.schedulingPriority + s.logicalSlot),
                  [t.observationRound] + (t.schedulingPriority + t.logicalSlot));
    if BlockKey(sha, seed, s.comparisonBlock) == BlockKey(sha, seed, t.comparisonBlock) {
      BlockKeyInjective(sha, seed, s.comparisonBlock, t.comparisonBlock);
    }
  }

  /** A randomised schedule in the terms of its slots: block hashes ascend, equal
      hashes are decided by the typed fields of the blocks in turn, and inside one
      block the round, the slot's own priority and its identity decide in turn. */
  lemma ScheduleOrder(sha: seq<nat> -> seq<nat>, seed: seq<nat>, slots: seq<SchedulingSlot>, r: seq<SchedulingSlot>,
                      i: nat, j: nat)
    requires IsDigestFunction(sha) && IsSchedule(sha, seed, slots, r) && i < j < |r|
    ensures r[i] == r[j] || DispatchedBefore(sha, seed, r[i], r[j])
    ensures
      var (a, b) := (r[i].comparisonBlock, r[j].comparisonBlock);
      var (p, q) := (sha(Message(seed, a)), sha(Message(seed, b)));
      && AtMost(p, q)
      && (p == q ==> AtMost(a.datasetInstance, b.datasetInstance))
      && (p == q && a.datasetInstance == b.datasetInstance ==> AtMost(a.problemConfiguration, b.problemConfiguration))
      && (p == q && a.datasetInstance == b.datasetInstance && a.problemConfiguration == b.problemConfiguration ==>
            && a.implementationRepetition <= b.implementationRepetition
            && (a.implementationRepetition == b.implementationRepetition ==> a.measurementIndex <= b.measurementIndex))
      && (a == b ==>
            && r[i].observationRound <= r[j].observationRound
            && (r[i].observationRound == r[j].observationRound ==>
                  && AtMost(r[i].schedulingPriority, r[j].schedulingPriority)
                  && (r[i].schedulingPriority == r[j].schedulingPriority ==>
                        AtMost(r[i].logicalSlot, r[j].logicalSlot))))
  {
    hide Less;
    hide Key;
    hide Message;
    KeyMeans(sha, seed, r[i], r[j]);
    assert AtMost(Key(sha, seed, r[i]), Key(sha, seed, r[j]));
    if Key(sha, seed, r[i]) == Key(sha, seed, r[j]) {
      KeyInjective(sha, seed, r[i], r[j]);
    }
    Irreflexive(sha(Message(seed, r[i].comparisonBlock)));
    Irreflexive(r[i].comparisonBlock.datasetInstance);
    Irreflexive(r[i].comparisonBlock.problemConfiguration);
    Irreflexive(r[i].schedulingPriority);
  }

  // ----- the schedule -----

  ghost predicate SortedByKey(sha: seq<nat> -> seq<nat>, seed: seq<nat>, r: seq<SchedulingSlot>)
    requires ValidSlots(r)
  {
    forall i, j :: 0 <= i < j < |r| ==> AtMost(Key(sha, seed, r[i]), Key(sha, seed, r[j]))
  }

  /** result is a rearrangement of slots in key order. */
  ghost predicate IsSchedule(sha: seq<nat> -> seq<nat>, seed: seq<nat>, slots: seq<SchedulingSlot>,
                             result: seq<SchedulingSlot>) {
    multiset(result) == multiset(slots) && ValidSlots(result) && SortedByKey(sha, seed, result)
  }

  lemma DistinctInsert(order: seq<nat>, i: nat, at: nat)
    requires DistinctBelow(order, i) && at <= |order|
    ensures DistinctBelow(order[..at] + [i] + order[at..], i + 1)
  {}

  /** schedule_slots: the input indices in dispatch order. The library sort is a
      stable insertion by cached key. */
  method ScheduleSlots(runOrder: RunOrder, sha: seq<nat> -> seq<nat>, seed: seq<nat>, slots: seq<SchedulingSlot>)
    returns (order: seq<nat>)
    requires ValidSlots(slots) && IsDigestFunction(sha)
    ensures IsPermutation(order, |slots|)
    ensures runOrder.Sequential? ==> Gather(slots, order) == slots
    ensures runOrder.Randomized? ==> IsSchedule(sha, seed, slots, Gather(slots, order))
    ensures
      runOrder.Randomized? ==> forall i, j :: 0 <= i < j < |order| ==>
        || DispatchedBefore(sha, seed, slots[order[i]], slots[order[j]])
        || (slots[order[i]] == slots[order[j]] && order[i] < order[j])
  {
    hide Message;
    hide SortedByKey;
    hide DispatchedBefore;
    if runOrder.Sequential? {
      order := seq(|slots|, i => i);
    } else {
      order := SortByCachedKey(sha, seed, slots);
      forall i, j | 0 <= i < j < |order|
        ensures
          || DispatchedBefore(sha, seed, slots[order[i]], slots[order[j]])
          || (slots[order[i]] == slots[order[j]] && order[i] < order[j])
      {
        ScheduleOrder(sha, seed, slots, Gather(slots, order), i, j);
      }
    }
  }

  method SortByCachedKey(sha: seq<nat> -> seq<nat>, seed: seq<nat>, slots: seq<SchedulingSlot>)
    returns (order: seq<nat>)
    requires ValidSlots(slots)
    ensures |order| == |slots| && DistinctBelow(order, |slots|) && Stable(slots, order)
    ensures IsSchedule(sha, seed, slots, Gather(slots, order))
  {
    hide Key;
    hide Less;
    hide IsSchedule;
    order := [];
    EmptySchedule(sha, seed, slots);
    for i := 0 to |slots|
      invariant |order| == i && DistinctBelow(order, i) && Stable(slots, order)
      invariant IsSchedule(sha, seed, slots[..i], Gather(slots, order))
    {
      var at := InsertionPoint(sha, seed, slots, order, slots[i]);
      ScheduleInsert(sha, seed, slots, order, i, at);
      StableInsert(sha, seed, slots, order, i, at);
      DistinctInsert(order, i, at);
      order := order[..at] + [i] + order[at..];
    }
    assert slots[..|slots|] == slots;
  }

  /** Equal slots keep their input order. */
  ghost predicate Stable(slots: seq<SchedulingSlot>, order: seq<nat>)
    requires DistinctBelow(order, |slots|)
  {
    forall a, b :: 0 <= a < b < |order| && slots[order[a]] == slots[order[b]] ==> order[a] < order[b]
  }

  lemma StableInsert(sha: seq<nat> -> seq<nat>, seed: seq<nat>, slots: seq<SchedulingSlot>, order: seq<nat>,
                     i: nat, at: nat)
    requires ValidSlots(slots) && at <= |order| && i < |slots| && DistinctBelow(order, i) && Stable(slots, order)
    requires forall k :: at <= k < |order| ==> Less(Key(sha, seed, slots[i]), Key(sha, seed, slots[order[k]]))
    ensures DistinctBelow(order[..at] + [i] + order[at..], |slots|) && Stable(slots, order[..at] + [i] + order[at..])
  {
    hide Key;
    hide Less;
    hide ValidSlot;
    Irreflexive(Key(sha, seed, slots[i]));
    assert forall k :: at <= k < |order| ==> slots[order[k]] != slots[i];
  }

  /** Behind the last scheduled slot whose key is not larger. */
  method InsertionPoint(sha: seq<nat> -> seq<nat>, seed: seq<nat>, slots: seq<SchedulingSlot>, order: seq<nat>,
                        slot: SchedulingSlot)
    returns (at: nat)
    requires ValidSlots(slots) && ValidSlot(slot) && DistinctBelow(order, |slots|)
    ensures at <= |order|
    ensures forall k :: at <= k < |order| ==> Less(Key(sha, seed, slot), Key(sha, seed, slots[order[k]]))
    ensures at > 0 ==> !Less(Key(sha, seed, slot), Key(sha, seed, slots[order[at - 1]]))
  {
    hide Key;
    hide Less;
    hide ValidSlot;
    var key := Key(sha, seed, slot);
    at := |order|;
    while at > 0 && Less(key, Key(sha, seed, slots[order[at - 1]]))
      invariant at <= |order|
      invariant forall k :: at <= k < |order| ==> Less(key, Key(sha, seed, slots[order[k]]))
    {
      at := at - 1;
    }
  }

  lemma ScheduleInsert(sha: seq<nat> -> seq<nat>, seed: seq<nat>, slots: seq<SchedulingSlot>, order: seq<nat>,
                       i: nat, at: nat)
    requires ValidSlots(slots) && at <= i == |order| && i < |slots| && DistinctBelow(order, i)
    requires IsSchedule(sha, seed, slots[..i], Gather(slots, order))
    requires forall k :: at <= k < i ==> Less(Key(sha, seed, slots[i]), Key(sha, seed, slots[order[k]]))
    requires at > 0 ==> !Less(Key(sha, seed, slots[i]), Key(sha, seed, slots[order[at - 1]]))
    ensures IsSchedule(sha, seed, slots[..i + 1], Gather(slots, order[..at] + [i] + order[at..]))
  {
    hide Key;
    hide Less;
    hide AtMost;
    hide ValidSlot;
    hide SortedByKey;
    var before := Gather(slots, order);
    InsertSorted(sha, seed, before, slots[i], at);
    InsertMultiset(before, slots[i], at);
    assert Gather(slots, order[..at] + [i] + order[at..]) == before[..at] + [slots[i]] + before[at..];
    assert slots[..i + 1] == slots[..i] + [slots[i]];
  }

  lemma EmptySchedule(sha: seq<nat> -> seq<nat>, seed: seq<nat>, slots: seq<SchedulingSlot>)
    ensures IsSchedule(sha, seed, slots[..0], Gather(slots, []))
  {}

  lemma InsertMultiset<T>(r: seq<T>, s: T, at: nat)
    requires at <= |r|
    ensures multiset(r[..at] + [s] + r[at..]) == multiset(r) + multiset{s}
  {
    assert r == r[..at] + r[at..];
  }

  lemma InsertSorted(sha: seq<nat> -> seq<nat>, seed: seq<nat>, r: seq<SchedulingSlot>, s: SchedulingSlot, at: nat)
    requires ValidSlots(r) && ValidSlot(s) && at <= |r| && SortedByKey(sha, seed, r)
    requires forall k :: at <= k < |r| ==> Less(Key(sha, seed, s), Key(sha, seed, r[k]))
    requires at > 0 ==> !Less(Key(sha, seed, s), Key(sha, seed, r[at - 1]))
    ensures ValidSlots(r[..at] + [s] + r[at..]) && SortedByKey(sha, seed, r[..at] + [s] + r[at..])
  {
    hide Key;
    hide Less;
    hide ValidSlot;
    forall k | 0 <= k < at
      ensures AtMost(Key(sha, seed, r[k]), Key(sha, seed, s))
    {
      Total(Key(sha, seed, s), Key(sha, seed, r[at - 1]));
      if k < at - 1 && Less(Key(sha, seed, r[k]), Key(sha, seed, r[at - 1]))
        && Less(Key(sha, seed, r[at - 1]), Key(sha, seed, s)) {
        Transitive(Key(sha, seed, r[k]), Key(sha, seed, r[at - 1]), Key(sha, seed, s));
      }
    }
  }

  lemma {:induction false} SortedHasOneForm(sha: seq<nat> -> seq<nat>, seed: seq<nat>, a: seq<SchedulingSlot>,
                                            b: seq<SchedulingSlot>)
    requires
      IsDigestFunction(sha) && ValidSlots(a) && ValidSlots(b) && SortedByKey(sha, seed, a) && SortedByKey(sha, seed, b)
    requires multiset(a) == multiset(b)
    ensures a == b
    decreases |a|
  {
    hide Key;
    hide AtMost;
    hide ValidSlot;
    hide IsDigestFunction;
    assert |a| == |multiset(a)| == |multiset(b)| == |b|;
    if a != [] {
      var i := Find(a, b, b[0]);
      var j := Find(b, a, a[0]);
      FirstKeysAgree(sha, seed, a, b, i, j);
      DropFirst(a);
      DropFirst(b);
      TailSorted(sha, seed, a);
      TailSorted(sha, seed, b);
      hide SortedByKey;
      SortedHasOneForm(sha, seed, a[1..], b[1..]);
    }
  }

  lemma TailSorted(sha: seq<nat> -> seq<nat>, seed: seq<nat>, r: seq<SchedulingSlot>)
    requires r != [] && ValidSlots(r) && SortedByKey(sha, seed, r)
    ensures ValidSlots(r[1..]) && SortedByKey(sha, seed, r[1..])
  {
    hide Key;
    hide AtMost;
    hide ValidSlot;
  }

  lemma DropFirst<T>(a: seq<T>)
    requires a != []
    ensures a == [a[0]] + a[1..] && multiset(a[1..]) == multiset(a) - multiset{a[0]}
  {
    assert a == [a[0]] + a[1..];
  }

  lemma Find<T>(a: seq<T>, b: seq<T>, x: T) returns (i: nat)
    requires multiset(a) == multiset(b) && x in b
    ensures i < |a| && a[i] == x
  {
    assert x in multiset(b);
    i :| 0 <= i < |a| && a[i] == x;
  }

  lemma FirstKeysAgree(sha: seq<nat> -> seq<nat>, seed: seq<nat>, a: seq<SchedulingSlot>, b: seq<SchedulingSlot>,
                       i: nat, j: nat)
    requires
      IsDigestFunction(sha) && ValidSlots(a) && ValidSlots(b) && SortedByKey(sha, seed, a) && SortedByKey(sha, seed, b)
    requires i < |a| && j < |b| && a[i] == b[0] && b[j] == a[0]
    ensures a[0] == b[0]
  {
    hide Key;
    hide ValidSlot;
    hide Less;
    var x, y := Key(sha, seed, a[0]), Key(sha, seed, b[0]);
    assert AtMost(x, y) && AtMost(y, x);
    Antisymmetric(x, y);
    KeyInjective(sha, seed, a[0], b[0]);
  }

  /** The schedule of a collection of slots does not depend on their input order. */
  lemma InputOrderIsIrrelevant(sha: seq<nat> -> seq<nat>, seed: seq<nat>,
                               slots: seq<SchedulingSlot>, shuffled: seq<SchedulingSlot>,
                               a: seq<SchedulingSlot>, b: seq<SchedulingSlot>)
    requires IsDigestFunction(sha) && multiset(slots) == multiset(shuffled)
    requires IsSchedule(sha, seed, slots, a) && IsSchedule(sha, seed, shuffled, b)
    ensures a == b
  {
    SortedHasOneForm(sha, seed, a, b);
  }

  function Filter(slots: seq<SchedulingSlot>, selected: SchedulingSlot -> bool): (r: seq<SchedulingSlot>)
    ensures forall s :: s in r ==> s in slots && selected(s)
  {
    if slots == [] then []
    else (if selected(slots[0]) then [slots[0]] else []) + Filter(slots[1..], selected)
  }

  lemma {:induction false} FilterCounts(slots: seq<SchedulingSlot>, selected: SchedulingSlot -> bool)
    ensures forall s :: multiset(Filter(slots, selected))[s] == if selected(s) then multiset(slots)[s] else 0
  {
    if slots != [] {
      FilterCounts(slots[1..], selected);
      assert slots == [slots[0]] + slots[1..];
    }
  }

  lemma {:induction false} FilterSorted(sha: seq<nat> -> seq<nat>, seed: seq<nat>, r: seq<SchedulingSlot>,
                                        selected: SchedulingSlot -> bool)
    requires ValidSlots(r) && SortedByKey(sha, seed, r)
    ensures ValidSlots(Filter(r, selected)) && SortedByKey(sha, seed, Filter(r, selected))
  {
    hide Key;
    hide AtMost;
    hide ValidSlot;
    if r != [] {
      FilterSorted(sha, seed, r[1..], selected);
      var rest := Filter(r[1..], selected);
      forall k | 0 <= k < |rest|
        ensures AtMost(Key(sha, seed, r[0]), Key(sha, seed, rest[k]))
      {
        assert rest[k] in r[1..];
      }
    }
  }

  /** Scheduling only a selection of the slots gives exactly the selected part of
      the full schedule, in the same order. */
  lemma SelectionIsSubsequence(sha: seq<nat> -> seq<nat>, seed: seq<nat>, slots: seq<SchedulingSlot>,
                               selected: SchedulingSlot -> bool, full: seq<SchedulingSlot>, part: seq<SchedulingSlot>)
    requires IsDigestFunction(sha)
    requires IsSchedule(sha, seed, slots, full) && IsSchedule(sha, seed, Filter(slots, selected), part)
    ensures part == Filter(full, selected)
  {
    hide SortedByKey;
    hide IsDigestFunction;
    FilterSorted(sha, seed, full, selected);
    FilterCounts(slots, selected);
    FilterCounts(full, selected);
    assert multiset(part) == multiset(Filter(full, selected));
    SortedHasOneForm(sha, seed, part, Filter(full, selected));
  }

  /** A comparison block occupies one contiguous run of the schedule, and its
      observation rounds never go back. */
  lemma BlocksAreContiguous(sha: seq<nat> -> seq<nat>, seed: seq<nat>, r: seq<SchedulingSlot>, i: nat, j: nat, k: nat)
    requires IsDigestFunction(sha) && ValidSlots(r) && SortedByKey(sha, seed, r) && i <= j <= k < |r|
    requires r[i].comparisonBlock == r[k].comparisonBlock
    ensures r[j].comparisonBlock == r[i].comparisonBlock
    ensures r[i].observationRound <= r[j].observationRound <= r[k].observationRound
  {
    hide BlockKey;
    hide ValidSlot;
    hide Less;
    if i < j < k {
      KeyOrder(sha, seed, r[i], r[j]);
      KeyOrder(sha, seed, r[j], r[k]);
      var x, y := BlockKey(sha, seed, r[i].comparisonBlock), BlockKey(sha, seed, r[j].comparisonBlock);
      Antisymmetric(x, y);
      BlockKeyInjective(sha, seed, r[i].comparisonBlock, r[j].comparisonBlock);
      Irreflexive(x);
    } else if i < k {
      KeyOrder(sha, seed, r[i], r[k]);
      Irreflexive(BlockKey(sha, seed, r[i].comparisonBlock));
    }
  }

  lemma KeyOrder(sha: seq<nat> -> seq<nat>, seed: seq<nat>, s: SchedulingSlot, t: SchedulingSlot)
    requires IsDigestFunction(sha) && ValidSlot(s) && ValidSlot(t) && AtMost(Key(sha, seed, s), Key(sha, seed, t))
    ensures ValidBlock(s.comparisonBlock) && ValidBlock(t.comparisonBlock)
    ensures AtMost(BlockKey(sha, seed, s.comparisonBlock), BlockKey(sha, seed, t.comparisonBlock))
    ensures
      BlockKey(sha, seed, s.comparisonBlock) == BlockKey(sha, seed, t.comparisonBlock) ==>
        s.observationRound <= t.observationRound
  {
    hide BlockKey;
    BlockKeyLength(sha, seed, s.comparisonBlock);
    BlockKeyLength(sha, seed, t.comparisonBlock);
    var x, y := s.schedulingPriority + s.logicalSlot, t.schedulingPriority + t.logicalSlot;
    Concatenation(BlockKey(sha, seed, s.comparisonBlock), BlockKey(sha, seed, t.comparisonBlock),
                  [s.observationRound] + x, [t.observationRound] + y);
    Concatenation([s.observationRound], [t.observationRound], x, y);
    Irreflexive(BlockKey(sha, seed, s.comparisonBlock));
    assert [s.observationRound][0] == s.observationRound && [t.observationRound][0] == t.observationRound;
    assert [s.observationRound][1..] == [] && [t.observationRound][1..] == [];
  }
}
