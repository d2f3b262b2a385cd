/** Typed content identities from src/core/identity.rs and the identity test of
    src/core/inspection.rs. */
module RecordIds {

  import opened Integers

  const DIGEST_BYTES: nat := 32

  /** The identity kinds declared in src/core/identity.rs,
      src/core/materialization.rs and src/core/inspection.rs. */
  const RESOURCE_KINDS: seq<string> := ["schema", "problem-contract", "source-bundle", "artifact", "diagnostic"]
  const DEFINITION_KINDS: seq<string> :=
    ["environment-definition", "worker-definition", "dataset-definition", "problem-definition",
     "implementation-definition"]
  const CONFIGURATION_KINDS: seq<string> :=
    ["execution-policy", "observation-policy", "dataset-configuration", "problem-configuration",
     "implementation-configuration"]
  const LOGICAL_KINDS: seq<string> :=
    ["dataset-instance", "problem-instance", "logical-candidate", "logical-specification", "logical-observation-slot"]
  const RESOLVED_KINDS: seq<string> :=
    ["logical-attempt-slot", "resolved-environment", "resolved-launch", "executor-definition", "resolved-worker"]
  const RUN_KINDS: seq<string> :=
    ["applicability", "resolved-specification", "resolved-observation-slot", "resolved-attempt-slot", "observation"]
  const DERIVED_KINDS: seq<string> := ["attempt", "dataset-derivation", "problem-preparation"]

  predicate IsDeclaredKind(kind: string) {
    || kind in RESOURCE_KINDS || kind in DEFINITION_KINDS || kind in CONFIGURATION_KINDS || kind in LOGICAL_KINDS
    || kind in RESOLVED_KINDS || kind in RUN_KINDS || kind in DERIVED_KINDS
  }

  predicate IsLowerHex(c: char) {
    '0' <= c <= '9' || 'a' <= c <= 'f'
  }

  function HexNibble(c: char): (n: nat)
    requires IsLowerHex(c)
    ensures n < 16 && Digit(n) == c
  {
    if c <= '9' then c as int - '0' as int else c as int - 'a' as int + 10
  }

  /** The n-th character of 0123456789abcdef. */
  function Digit(n: nat): (c: char)
    requires n < 16
    ensures IsLowerHex(c)
  {
    if n < 10 then '0' + n as char else 'a' + (n - 10) as char
  }

  /** The digits are those of 0123456789abcdef. */
  lemma DigitsAreHexadecimal(n: nat)
    requires n < 16
    ensures Digit(n) == "0123456789abcdef"[n]
  {
    assert Digit(n) as int == if n < 10 then 48 + n else 87 + n;
  }

  lemma DigitsAreNibbles(n: nat)
    requires n < 16
    ensures HexNibble(Digit(n)) == n
  {}

  function HexByte(b: Byte): (s: string)
    ensures |s| == 2 && IsLowerHex(s[0]) && IsLowerHex(s[1])
    ensures HexNibble(s[0]) * 16 + HexNibble(s[1]) == b
  {
    DigitsAreNibbles(b / 16);
    DigitsAreNibbles(b % 16);
    [Digit(b / 16), Digit(b % 16)]
  }

  function Hex(bytes: seq<Byte>): (s: string)
    ensures |s| == 2 * |bytes| && forall i :: 0 <= i < |s| ==> IsLowerHex(s[i])
  {
    if bytes == [] then "" else HexByte(bytes[0]) + Hex(bytes[1..])
  }

  lemma {:induction false} HexAppend(a: seq<Byte>, b: seq<Byte>)
    ensures Hex(a + b) == Hex(a) + Hex(b)
  {
    hide HexByte;
    if a == [] {
      assert a + b == b;
    } else {
      assert (a + b)[1..] == a[1..] + b;
      HexAppend(a[1..], b);
      assert HexByte(a[0]) + (Hex(a[1..]) + Hex(b)) == (HexByte(a[0]) + Hex(a[1..])) + Hex(b);
    }
  }

  lemma HexSingle(b: Byte)
    ensures Hex([b]) == HexByte(b)
  {
    hide HexByte;
    assert [b][1..] == [];
    assert HexByte(b) + "" == HexByte(b);
  }

  /** The loop of hex(). */
  method HexLoop(bytes: seq<Byte>) returns (output: string)
    ensures output == Hex(bytes)
  {
    output := "";
    for i := 0 to |bytes|
      invariant output == Hex(bytes[..i])
    {
      assert bytes[..i + 1] == bytes[..i] + [bytes[i]];
      HexAppend(bytes[..i], [bytes[i]]);
      HexSingle(bytes[i]);
      output := output + [Digit(bytes[i] / 16)] + [Digit(bytes[i] % 16)];
    }
    assert bytes[..|bytes|] == bytes;
  }

  // ----- the typed spelling -----

  function Prefix(kind: string): string {
    "mw1-" + kind + "-"
  }

  /** Display of a RecordId. */
  function Print(kind: string, digest: seq<Byte>): string {
    Prefix(kind) + Hex(digest)
  }

  datatype ParseError = WrongKind(expected: string) | InvalidDigest

  datatype Parsed = Digest(bytes: seq<Byte>) | Error(error: ParseError)

  predicate IsHexDigest(s: string) {
    |s| == 64 && forall i :: 0 <= i < |s| ==> IsLowerHex(s[i])
  }

  /** FromStr of a RecordId: it accepts exactly the spellings of its own kind and
      returns the digest that prints as the text. */
  method Parse(kind: string, text: string) returns (result: Parsed)
    ensures result.Digest? ==> |result.bytes| == DIGEST_BYTES && text == Print(kind, result.bytes)
    ensures
      if !(Prefix(kind) <= text) then result == Error(WrongKind(Prefix(kind)))
      else if !IsHexDigest(text[|Prefix(kind)|..]) then result == Error(InvalidDigest)
      else result.Digest?
  {
    var prefix := Prefix(kind);
    if !(prefix <= text) {
      return Error(WrongKind(prefix));
    }
    var digest := text[|prefix|..];
    if |digest| != 64 || exists i :: 0 <= i < |digest| && !IsLowerHex(digest[i]) {
      return Error(InvalidDigest);
    }
    var bytes := DecodePairs(digest);
    assert text == prefix + digest;
    return Digest(bytes);
  }

  /** The loop of from_str over the digit pairs. */
  method DecodePairs(digest: string) returns (bytes: seq<Byte>)
    requires IsHexDigest(digest)
    ensures |bytes| == DIGEST_BYTES && Hex(bytes) == digest
  {
    hide HexByte;
    hide HexNibble;
    hide Hex;
    bytes := [];
    EmptyHex();
    for i := 0 to DIGEST_BYTES
      invariant |bytes| == i && Hex(bytes) == digest[..2 * i]
    {
      var high, low := HexNibble(digest[2 * i]), HexNibble(digest[2 * i + 1]);
      var next: Byte := high * 16 + low;
      NibblesAreByte(digest[2 * i], digest[2 * i + 1]);
      HexAppend(bytes, [next]);
      HexSingle(next);
      assert digest[..2 * (i + 1)] == digest[..2 * i] + [digest[2 * i], digest[2 * i + 1]];
      bytes := bytes + [next];
    }
    assert digest[..64] == digest;
  }

  lemma EmptyHex()
    ensures Hex([]) == ""
  {}

  lemma NibblesAreByte(high: char, low: char)
    requires IsLowerHex(high) && IsLowerHex(low)
    ensures HexByte(HexNibble(high) * 16 + HexNibble(low)) == [high, low]
  {}

  lemma {:induction false} HexInjective(a: seq<Byte>, b: seq<Byte>)
    requires Hex(a) == Hex(b)
    ensures a == b
  {
    assert |a| == |b| by {
      assert 2 * |a| == |Hex(a)| == |Hex(b)| == 2 * |b|;
    }
    if a != [] {
      var x, y := HexByte(a[0]), HexByte(b[0]);
      assert x[0] == Hex(a)[0] == y[0] && x[1] == Hex(a)[1] == y[1];
      assert Hex(a)[2..] == Hex(a[1..]) && Hex(b)[2..] == Hex(b[1..]);
      HexInjective(a[1..], b[1..]);
    }
  }

  /** Distinct kinds, and distinct digests of one kind, never share a spelling. */
  lemma SpellingsAreDisjoint(kind: string, digest: seq<Byte>, kind': string, digest': seq<Byte>)
    requires |digest| == |digest'| == DIGEST_BYTES && Print(kind, digest) == Print(kind', digest')
    ensures kind == kind' && digest == digest'
  {
    var s := Print(kind, digest);
    assert |s| == 4 + |kind| + 1 + 64 && |s| == 4 + |kind'| + 1 + 64;
    assert s[4..4 + |kind|] == kind && s[4..4 + |kind'|] == kind';
    assert s[|s| - 64..] == Hex(digest) && s[|s| - 64..] == Hex(digest');
    HexInjective(digest, digest');
  }

  /** Printing and parsing: the same kind gets its digest back, any other kind
      gets an error. */
  method ReadBack(kind: string, digest: seq<Byte>, other: string) returns (result: Parsed)
    requires |digest| == DIGEST_BYTES
    ensures if other == kind then result == Digest(digest) else result.Error?
  {
    var hex := HexLoop(digest);
    result := Parse(other, Prefix(kind) + hex);
    if result.Digest? {
      SpellingsAreDisjoint(kind, digest, other, result.bytes);
    }
    assert Print(kind, digest) == Prefix(kind) + hex;
    assert Print(kind, digest)[|Prefix(kind)|..] == hex;
  }

  // ----- inspection -----

  /** The position of the last dash, or the length when there is none. */
  function LastDash(s: string): (i: nat)
    ensures i <= |s| && (i < |s| ==> s[i] == '-')
    ensures forall k :: 0 <= k < |s| && (i == |s| || i < k) ==> s[k] != '-'
  {
    if s == "" then 0
    else if s[|s| - 1] == '-' then |s| - 1
    else
      var i := LastDash(s[..|s| - 1]);
      if i == |s| - 1 then |s| else i
  }

  predicate IsLowerAlphanumericOrDash(c: char) {
    'a' <= c <= 'z' || '0' <= c <= '9' || c == '-'
  }

  predicate IsKindSpelling(kind: string) {
    && kind != "" && 'a' <= kind[0] <= 'z'
    && forall i :: 0 <= i < |kind| ==> IsLowerAlphanumericOrDash(kind[i])
  }

  const STORE_PREFIX: string := "run-store-v1:"
  const UNCONDITIONAL: string := "unconditional:"
  const STORE_KINDS: seq<string> := ["attempt", "observation", "result", "metrics", "dataset", "source", "environment",
                                     "other"]

  /** candidate.parse::<RecordId<LogicalCandidateRecord>>().is_ok() */
  predicate ParsesAs(kind: string, text: string) {
    Prefix(kind) <= text && IsHexDigest(text[|Prefix(kind)|..])
  }

  predicate IsInspectionId(id: string) {
    if STORE_PREFIX + UNCONDITIONAL <= id then
      ParsesAs("logical-candidate", id[|STORE_PREFIX + UNCONDITIONAL|..])
    else if STORE_PREFIX <= id then
      var stored := id[|STORE_PREFIX|..];
      var dash := LastDash(stored);
      dash < |stored| && stored[..dash] in STORE_KINDS && IsHexDigest(stored[dash + 1..])
    else
      var dash := LastDash(id);
      && dash < |id|
      && "mw1-" <= id[..dash]
      && dash > 4
      && 'a' <= id[4] <= 'z'
      && (forall i :: 4 <= i < dash ==> IsLowerAlphanumericOrDash(id[i]))
      && IsHexDigest(id[dash + 1..])
  }

  lemma DashBeforeDigest(kind: string, digest: seq<Byte>)
    ensures LastDash(Print(kind, digest)) == 4 + |kind|
  {
    var id := Print(kind, digest);
    assert id[4 + |kind|] == '-';
    forall k | 4 + |kind| < k < |id|
      ensures id[k] != '-'
    {
      assert id[k] == Hex(digest)[k - 5 - |kind|];
    }
  }

  /** Inspection accepts a printed identity exactly when its kind is a lowercase
      word of letters, digits and dashes. */
  lemma InspectionAcceptsPrinted(kind: string, digest: seq<Byte>)
    requires |digest| == DIGEST_BYTES
    ensures IsInspectionId(Print(kind, digest)) <==> IsKindSpelling(kind)
  {
    var id := Print(kind, digest);
    DashBeforeDigest(kind, digest);
    assert id[0] == 'm' && STORE_PREFIX[0] == 'r' && (STORE_PREFIX + UNCONDITIONAL)[0] == 'r';
    assert id[..4 + |kind|] == "mw1-" + kind;
    assert id[5 + |kind|..] == Hex(digest);
    assert forall i :: 0 <= i < |kind| ==> id[4 + i] == kind[i];
    assert forall i :: 4 <= i < 4 + |kind| ==> id[i] == kind[i - 4];
  }

  lemma ResourceKindsAreSpelled(kind: string)
    requires kind in RESOURCE_KINDS
    ensures IsKindSpelling(kind)
  {}

  lemma DefinitionKindsAreSpelled(kind: string)
    requires kind in DEFINITION_KINDS
    ensures IsKindSpelling(kind)
  {}

  lemma ConfigurationKindsAreSpelled(kind: string)
    requires kind in CONFIGURATION_KINDS
    ensures IsKindSpelling(kind)
  {}

  lemma LogicalKindsAreSpelled(kind: string)
    requires kind in LOGICAL_KINDS
    ensures IsKindSpelling(kind)
  {}

  lemma ResolvedKindsAreSpelled(kind: string)
    requires kind in RESOLVED_KINDS
    ensures IsKindSpelling(kind)
  {}

  lemma RunKindsAreSpelled(kind: string)
    requires kind in RUN_KINDS
    ensures IsKindSpelling(kind)
  {}

  lemma DerivedKindsAreSpelled(kind: string)
    requires kind in DERIVED_KINDS
    ensures IsKindSpelling(kind)
  {}

  lemma DeclaredKindsAreSpelled(kind: string)
    requires IsDeclaredKind(kind)
    ensures IsKindSpelling(kind)
  {
    hide IsKindSpelling;
    if kind in RESOURCE_KINDS {
      ResourceKindsAreSpelled(kind);
    } else if kind in DEFINITION_KINDS {
      DefinitionKindsAreSpelled(kind);
    } else if kind in CONFIGURATION_KINDS {
      ConfigurationKindsAreSpelled(kind);
    } else if kind in LOGICAL_KINDS {
      LogicalKindsAreSpelled(kind);
    } else if kind in RESOLVED_KINDS {
      ResolvedKindsAreSpelled(kind);
    } else if kind in RUN_KINDS {
      RunKindsAreSpelled(kind);
    } else {
      DerivedKindsAreSpelled(kind);
    }
  }

  /** Every identity the program prints is one that inspection accepts. */
  lemma PrintedIdsAreInspectable(kind: string, digest: seq<Byte>)
    requires IsDeclaredKind(kind) && |digest| == DIGEST_BYTES
    ensures IsInspectionId(Print(kind, digest))
  {
    hide IsDeclaredKind;
    hide IsInspectionId;
    hide IsKindSpelling;
    DeclaredKindsAreSpelled(kind);
    InspectionAcceptsPrinted(kind, digest);
  }

  // ----- what inspection accepts -----

  /** The characters of a kind by their ASCII codes: letters, digits and the dash. */
  predicate IsKindCode(code: int) {
    97 <= code <= 122 || 48 <= code <= 57 || code == 45
  }

  /** A kind that starts with a letter and has only lowercase letters, digits and
      dashes. */
  predicate IsKindWord(kind: string) {
    && |kind| > 0 && 97 <= kind[0] as int <= 122
    && forall i :: 0 <= i < |kind| ==> IsKindCode(kind[i] as int)
  }

  lemma KindWords(kind: string)
    ensures IsKindSpelling(kind) <==> IsKindWord(kind)
  {}

  /** The identity is the kind, a dash and a digest after the start. */
  predicate Spells(id: string, start: string, kind: string, digest: string) {
    id == start + (kind + ("-" + digest)) && IsHexDigest(digest)
  }

  lemma HexHasNoDash(digest: string)
    requires IsHexDigest(digest)
    ensures '-' !in digest
  {}

  lemma DashBeforeHex(kind: string, digest: string)
    requires IsHexDigest(digest)
    ensures LastDash(kind + ("-" + digest)) == |kind|
  {
    hide IsHexDigest;
    hide LastDash;
    HexHasNoDash(digest);
    LastDashAt(kind, digest, kind + ("-" + digest));
  }

  lemma LastDashAt(before: string, after: string, s: string)
    requires s == before + ("-" + after) && '-' !in after
    ensures LastDash(s) == |before|
  {
    assert s[|before|] == '-';
    forall k | |before| < k < |s|
      ensures s[k] != '-'
    {
      assert s[k] == after[k - |before| - 1];
    }
  }

  /** What follows the start is split at its last dash. */
  lemma SpellsAtDash(id: string, start: string, kind: string, digest: string)
    requires Spells(id, start, kind, digest)
    ensures
      var rest := id[|start|..];
      && start <= id && rest == kind + ("-" + digest) && LastDash(rest) == |kind| < |rest|
      && rest[..|kind|] == kind && rest[|kind| + 1..] == digest
  {
    DashBeforeHex(kind, digest);
    assert id[|start|..] == kind + ("-" + digest);
  }

  lemma SplitSpells(id: string, start: string)
    requires start <= id
    ensures
      var rest := id[|start|..];
      var dash := LastDash(rest);
      dash < |rest| && IsHexDigest(rest[dash + 1..]) ==> Spells(id, start, rest[..dash], rest[dash + 1..])
  {
    var rest := id[|start|..];
    var dash := LastDash(rest);
    if dash < |rest| {
      assert rest == rest[..dash] + ("-" + rest[dash + 1..]);
      assert id == start + rest;
    }
  }

  predicate IsStoreKind(kind: string) {
    kind in {"attempt", "observation", "result", "metrics", "dataset", "source", "environment", "other"}
  }

  lemma StoreKinds(kind: string)
    ensures kind in STORE_KINDS <==> IsStoreKind(kind)
    ensures IsStoreKind(kind) ==> |kind| > 0 && kind[0] != 'u'
  {
    assert STORE_KINDS[0] == "attempt" && STORE_KINDS[1] == "observation" && STORE_KINDS[2] == "result";
    assert STORE_KINDS[3] == "metrics" && STORE_KINDS[4] == "dataset" && STORE_KINDS[5] == "source";
    assert STORE_KINDS[6] == "environment" && STORE_KINDS[7] == "other";
  }

  /** The three forms of an identity start differently. */
  lemma StartsDiffer(id: string, kind: string, digest: string)
    ensures Spells(id, "mw1-", kind, digest) ==> !("run-store-v1:" <= id)
    ensures
      Spells(id, "run-store-v1:", kind, digest) && IsStoreKind(kind) ==>
        !("run-store-v1:unconditional:" <= id) && "run-store-v1:" <= id
    ensures Spells(id, "run-store-v1:unconditional:mw1-", kind, digest) ==> "run-store-v1:unconditional:" <= id
  {
    if Spells(id, "mw1-", kind, digest) {
      assert id[0] == 'm' && "run-store-v1:"[0] == 'r';
    }
    if Spells(id, "run-store-v1:", kind, digest) && IsStoreKind(kind) {
      StoreKinds(kind);
      assert id[13] == kind[0] && "run-store-v1:unconditional:"[13] == 'u';
    }
    if Spells(id, "run-store-v1:unconditional:mw1-", kind, digest) {
      var start := "run-store-v1:unconditional:";
      assert start + "mw1-" == "run-store-v1:unconditional:mw1-";
      assert id[..|start|] == start;
    }
  }

  /** The marks of a candidate's identity. */
  lemma CandidateMarks(digest: string)
    ensures
      "run-store-v1:unconditional:mw1-" + ("logical-candidate" + ("-" + digest)) ==
      (STORE_PREFIX + UNCONDITIONAL) + (Prefix("logical-candidate") + digest)
  {
    assert "run-store-v1:unconditional:mw1-" == (STORE_PREFIX + UNCONDITIONAL) + "mw1-";
    Regroup(STORE_PREFIX + UNCONDITIONAL, "mw1-", "logical-candidate", "-", digest);
  }

  lemma Regroup(a: string, b: string, c: string, d: string, e: string)
    ensures (a + b) + (c + (d + e)) == a + ((b + c + d) + e)
  {}

  lemma CandidateMeans(id: string)
    requires STORE_PREFIX + UNCONDITIONAL <= id
    ensures
      IsInspectionId(id) <==>
      exists digest :: Spells(id, "run-store-v1:unconditional:mw1-", "logical-candidate", digest)
  {
    hide IsHexDigest;
    hide LastDash;
    hide Prefix;
    var start, prefix := STORE_PREFIX + UNCONDITIONAL, Prefix("logical-candidate");
    var rest := id[|start|..];
    if IsInspectionId(id) {
      var digest := rest[|prefix|..];
      CandidateMarks(digest);
      assert rest == prefix + digest && id == start + rest;
      assert Spells(id, "run-store-v1:unconditional:mw1-", "logical-candidate", digest);
    }
    if digest :| Spells(id, "run-store-v1:unconditional:mw1-", "logical-candidate", digest) {
      CandidateMarks(digest);
      assert rest == prefix + digest;
    }
  }

  lemma StoredMeans(id: string)
    requires "run-store-v1:" <= id && !("run-store-v1:unconditional:" <= id)
    ensures
      IsInspectionId(id) <==> exists kind, digest :: Spells(id, "run-store-v1:", kind, digest) && IsStoreKind(kind)
  {
    hide LastDash;
    hide IsHexDigest;
    hide Spells;
    hide IsStoreKind;
    hide ParsesAs;
    var rest := id[13..];
    StoredForm(id);
    SplitSpells(id, "run-store-v1:");
    StoreKinds(rest[..LastDash(rest)]);
    if kind, digest :| Spells(id, "run-store-v1:", kind, digest) && IsStoreKind(kind) {
      SpellsAtDash(id, "run-store-v1:", kind, digest);
      SpelledDigest(id, "run-store-v1:", kind, digest);
    }
  }

  lemma SpelledDigest(id: string, start: string, kind: string, digest: string)
    requires Spells(id, start, kind, digest)
    ensures IsHexDigest(digest)
  {}

  lemma StoredForm(id: string)
    requires "run-store-v1:" <= id && !("run-store-v1:unconditional:" <= id)
    ensures
      var rest := id[13..];
      var dash := LastDash(rest);
      IsInspectionId(id) <==> dash < |rest| && rest[..dash] in STORE_KINDS && IsHexDigest(rest[dash + 1..])
  {
    hide LastDash;
    hide IsHexDigest;
    hide ParsesAs;
    assert STORE_PREFIX + UNCONDITIONAL == "run-store-v1:unconditional:";
  }

  lemma KindPart(id: string, dash: nat)
    requires 4 <= dash <= |id|
    ensures
      IsKindSpelling(id[4..dash]) <==>
      dash > 4 && 'a' <= id[4] <= 'z' && forall i :: 4 <= i < dash ==> IsLowerAlphanumericOrDash(id[i])
  {
    hide IsLowerAlphanumericOrDash;
    var kind := id[4..dash];
    assert forall i :: 0 <= i < |kind| ==> kind[i] == id[4 + i];
    assert forall i :: 4 <= i < dash ==> id[i] == kind[i - 4];
  }

  predicate IsPublicAt(id: string, dash: nat) {
    4 <= dash < |id| && "mw1-" <= id && IsKindSpelling(id[4..dash]) && IsHexDigest(id[dash + 1..])
  }

  lemma PublicForm(id: string)
    requires !("run-store-v1:" <= id)
    ensures IsInspectionId(id) <==> IsPublicAt(id, LastDash(id))
  {
    hide LastDash;
    hide IsHexDigest;
    hide ParsesAs;
    hide IsLowerAlphanumericOrDash;
    hide IsKindSpelling;
    NotUnconditional(id);
    var dash := LastDash(id);
    if 4 <= dash < |id| {
      KindPart(id, dash);
      assert "mw1-" <= id[..dash] <==> "mw1-" <= id;
    }
  }

  lemma PublicMeans(id: string)
    requires !("run-store-v1:" <= id)
    ensures IsInspectionId(id) <==> exists kind, digest :: Spells(id, "mw1-", kind, digest) && IsKindSpelling(kind)
  {
    hide IsInspectionId;
    hide IsHexDigest;
    hide IsKindSpelling;
    hide LastDash;
    hide Spells;
    PublicForm(id);
    var dash := LastDash(id);
    if IsInspectionId(id) {
      PublicSpells(id, dash);
    }
    if kind, digest :| Spells(id, "mw1-", kind, digest) && IsKindSpelling(kind) {
      SpelledPublic(id, kind, digest);
    }
  }

  lemma PublicSpells(id: string, dash: nat)
    requires IsPublicAt(id, dash) && id[dash] == '-'
    ensures Spells(id, "mw1-", id[4..dash], id[dash + 1..])
  {
    hide IsHexDigest;
    hide IsKindSpelling;
    var start := "mw1-";
    assert id == id[..4] + (id[4..dash] + ([id[dash]] + id[dash + 1..]));
    assert id[..4] == start;
  }

  lemma SpelledPublic(id: string, kind: string, digest: string)
    requires Spells(id, "mw1-", kind, digest) && IsKindSpelling(kind)
    ensures IsPublicAt(id, LastDash(id))
  {
    hide IsHexDigest;
    hide IsKindSpelling;
    hide LastDash;
    var start := "mw1-";
    var whole := start + kind;
    assert id == whole + ("-" + digest);
    DashBeforeHex(whole, digest);
    assert id[4..|whole|] == kind && id[|whole| + 1..] == digest;
  }

  lemma NotUnconditional(id: string)
    requires !("run-store-v1:" <= id)
    ensures !(STORE_PREFIX <= id) && !(STORE_PREFIX + UNCONDITIONAL <= id)
  {
    assert STORE_PREFIX <= STORE_PREFIX + UNCONDITIONAL;
  }

  /** Inspection accepts a run-store word, a printed identity of any lowercase
      kind, and the identity of a logical candidate behind the unconditional
      mark; nothing else. */
  lemma InspectionMeans(id: string)
    ensures
      IsInspectionId(id) <==>
      || (exists digest :: Spells(id, "run-store-v1:unconditional:mw1-", "logical-candidate", digest))
      || (exists kind, digest :: Spells(id, "run-store-v1:", kind, digest) && IsStoreKind(kind))
      || (exists kind, digest :: Spells(id, "mw1-", kind, digest) && IsKindWord(kind))
  {
    hide IsInspectionId;
    hide Spells;
    hide IsKindWord;
    hide IsKindSpelling;
    hide IsStoreKind;
    forall kind, digest
      ensures Spells(id, "mw1-", kind, digest) ==> !("run-store-v1:" <= id)
      ensures
        Spells(id, "run-store-v1:", kind, digest) && IsStoreKind(kind) ==>
          !("run-store-v1:unconditional:" <= id) && "run-store-v1:" <= id
      ensures Spells(id, "run-store-v1:unconditional:mw1-", kind, digest) ==> "run-store-v1:unconditional:" <= id
      ensures Spells(id, "mw1-", kind, digest) ==> (IsKindSpelling(kind) <==> IsKindWord(kind))
    {
      StartsDiffer(id, kind, digest);
      KindWords(kind);
    }
    LongerStart(id);
    if "run-store-v1:unconditional:" <= id {
      assert STORE_PREFIX + UNCONDITIONAL == "run-store-v1:unconditional:";
      CandidateMeans(id);
    } else if "run-store-v1:" <= id {
      StoredMeans(id);
    } else {
      PublicMeans(id);
    }
  }

  lemma LongerStart(id: string)
    ensures "run-store-v1:unconditional:" <= id ==> "run-store-v1:" <= id
  {
    assert "run-store-v1:unconditional:"[..13] == "run-store-v1:";
  }
}
