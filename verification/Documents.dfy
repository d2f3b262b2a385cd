/** The two readers that build JSON trees from a document: the canonical one of
    src/core/canonical.rs and the duplicate rejecting one of
    src/protocol/framing.rs. */
module Documents {
  import opened Canonical
  import opened Integers
  import opened Json
  import opened Wrappers

  /** What a deserialiser reports while it walks a document: an object is still
      the list of its entries. */
  datatype Document =
    | Unit
    | Truth(bool)
    | I64Literal(i64: I64)
    | U64Literal(u64: U64)
    | F64Literal(f64: Float)
    | Text(string)
    | Sequence(items: seq<Document>)
    | Mapping(entries: seq<Entry>)

  datatype Entry = Entry(key: string, value: Document)

  // ----- the tree a document denotes -----

  ghost function KeySet(entries: seq<Entry>): set<string> {
    set i | 0 <= i < |entries| :: entries[i].key
  }

  ghost function LastIndex(entries: seq<Entry>, key: string): (i: nat)
    requires key in KeySet(entries)
    ensures i < |entries| && entries[i].key == key && forall j :: i < j < |entries| ==> entries[j].key != key
  {
    var n := |entries| - 1;
    if entries[n].key == key then n else LastIndex(entries[..n], key)
  }

  /** The tree in which a repeated key keeps its last value. */
  ghost function Tree(d: Document): (v: Value)
    ensures d.Mapping? <==> v.Object?
  {
    match d
    case Unit => Null
    case Truth(b) => Bool(b)
    case I64Literal(n) => Value.Number(FromI64(n))
    case U64Literal(n) => Value.Number(PosInt(n))
    case F64Literal(x) => Value.Number(Floating(x))
    case Text(s) => String(s)
    case Sequence(items) => Array(seq(|items|, i requires 0 <= i < |items| => Tree(items[i])))
    case Mapping(entries) => Object(map k | k in KeySet(entries) :: Tree(entries[LastIndex(entries, k)].value))
  }

  ghost predicate DistinctKeys(entries: seq<Entry>) {
    forall i, j :: 0 <= i < j < |entries| ==> entries[i].key != entries[j].key
  }

  /** No object of the document repeats a key. */
  ghost predicate UniqueKeys(d: Document) {
    match d
    case Sequence(items) => forall i :: 0 <= i < |items| ==> UniqueKeys(items[i])
    case Mapping(entries) => DistinctKeys(entries) && forall i :: 0 <= i < |entries| ==> UniqueKeys(entries[i].value)
    case _ => true
  }

  /** No object repeats a key and every number of the tree satisfies p. */
  ghost predicate Accepted(d: Document, p: Number -> bool) {
    UniqueKeys(d) && Numbers(Tree(d), p)
  }

  lemma DistinctEntries(entries: seq<Entry>, i: nat)
    requires DistinctKeys(entries) && i < |entries|
    ensures entries[i].key in KeySet(entries) && LastIndex(entries, entries[i].key) == i
  {}

  lemma AcceptedMapping(d: Document, p: Number -> bool)
    requires d.Mapping?
    ensures
      Accepted(d, p) <==>
        DistinctKeys(d.entries) && forall i :: 0 <= i < |d.entries| ==> Accepted(d.entries[i].value, p)
  {
    hide Numbers;
    hide KeySet;
    var entries := d.entries;
    if DistinctKeys(entries) {
      var fields := Tree(d).fields;
      forall i | 0 <= i < |entries|
        ensures entries[i].key in fields && fields[entries[i].key] == Tree(entries[i].value)
      {
        DistinctEntries(entries, i);
      }
      NumbersOfFields(Tree(d), p);
      if Accepted(d, p) {
        forall i | 0 <= i < |entries| ensures Accepted(entries[i].value, p) {
          assert entries[i].key in fields;
        }
      } else if forall i :: 0 <= i < |entries| ==> Accepted(entries[i].value, p) {
        forall k | k in fields ensures Numbers(fields[k], p) {
          assert Accepted(entries[LastIndex(entries, k)].value, p);
        }
      }
    }
  }

  lemma NumbersOfFields(v: Value, p: Number -> bool)
    requires v.Object?
    ensures Numbers(v, p) <==> forall k :: k in v.fields ==> Numbers(v.fields[k], p)
  {}

  lemma AcceptedSequence(d: Document, p: Number -> bool)
    requires d.Sequence?
    ensures Accepted(d, p) <==> forall i :: 0 <= i < |d.items| ==> Accepted(d.items[i], p)
  {
    var vs := Tree(d).elements;
    assert forall i :: 0 <= i < |d.items| ==> vs[i] == Tree(d.items[i]);
  }

  // ----- the first violation -----

  datatype Reader = Restricted | Unique

  /** The numbers serde_json can build. */
  predicate Representable(n: Number) {
    n.Floating? ==> IsFinite(n.float)
  }

  function Admitted(reader: Reader): Number -> bool {
    match reader
    case Restricted => InDomain
    case Unique => Representable
  }

  ghost predicate NumberFault(reader: Reader, n: Number, e: Violation) {
    match reader
    case Restricted => NormalizeNumber(n) == Err(e)
    case Unique => !Representable(n) && e == NotFiniteBinary64(n.float)
  }

  predicate Repeats(entries: seq<Entry>, i: nat)
    requires i < |entries|
  {
    exists j :: 0 <= j < i && entries[j].key == entries[i].key
  }

  ghost predicate EntriesAccepted(reader: Reader, entries: seq<Entry>, n: nat)
    requires n <= |entries|
  {
    forall i :: 0 <= i < n ==> !Repeats(entries, i) && Accepted(entries[i].value, Admitted(reader))
  }

  /** The violation the reader reports: the first one in document order. The
      restricted reader looks at a value before its key, the unique one at a key
      before its value. */
  ghost predicate FirstRejected(reader: Reader, d: Document, e: Violation) {
    match d
    case Sequence(items) =>
      exists i ::
        && 0 <= i < |items| && FirstRejected(reader, items[i], e)
        && forall j :: 0 <= j < i ==> Accepted(items[j], Admitted(reader))
    case Mapping(entries) =>
      exists i ::
        && 0 <= i < |entries| && EntriesAccepted(reader, entries, i)
        && if reader.Restricted? then
             || FirstRejected(reader, entries[i].value, e)
             || (Accepted(entries[i].value, InDomain) && Repeats(entries, i) && e == DuplicateKey(entries[i].key))
           else if Repeats(entries, i) then e == DuplicateKey(entries[i].key)
           else FirstRejected(reader, entries[i].value, e)
    case _ => Tree(d).Number? && NumberFault(reader, Tree(d).number, e)
  }

  lemma {:induction false} RejectedIsNotAccepted(reader: Reader, d: Document, e: Violation)
    requires FirstRejected(reader, d, e)
    ensures !Accepted(d, Admitted(reader))
    decreases d, 1
  {
    hide NormalizeNumber;
    match d
    case Sequence(items) =>
      var i :| 0 <= i < |items| && FirstRejected(reader, items[i], e);
      RejectedIsNotAccepted(reader, items[i], e);
      AcceptedSequence(d, Admitted(reader));
    case Mapping(entries) =>
      RejectedMapping(reader, d, e);
    case _ =>
  }

  lemma RejectedMapping(reader: Reader, d: Document, e: Violation)
    requires FirstRejected(reader, d, e) && d.Mapping?
    ensures !Accepted(d, Admitted(reader))
    decreases d, 0
  {
    hide Tree;
    hide Accepted;
    hide UniqueKeys;
    hide NumberFault;
    hide InDomain;
    hide EntriesAccepted;
    var entries := d.entries;
    AcceptedMapping(d, Admitted(reader));
    var i :| 0 <= i < |entries| && (FirstRejected(reader, entries[i].value, e) || Repeats(entries, i));
    if Repeats(entries, i) {
      assert !DistinctKeys(entries);
    } else {
      RejectedIsNotAccepted(reader, entries[i].value, e);
    }
  }

  // ----- the restricted reader -----

  method Visit(d: Document) returns (result: Result<Value, Violation>)
    ensures result.Ok? <==> Accepted(d, InDomain)
    ensures result.Ok? ==> result.value == Normal(Tree(d))
    ensures result.Err? ==> FirstRejected(Restricted, d, result.error)
    decreases d, 1
  {
    match d
    case Unit => result := Ok(Null);
    case Truth(b) => result := Ok(Bool(b));
    case I64Literal(n) => result := if IsSafe(n) then Ok(Value.Number(FromI64(n))) else Err(IntegerOutOfRange(n));
    case U64Literal(n) =>
      result := if n <= MAX_SAFE_INTEGER then Ok(Value.Number(PosInt(n))) else Err(IntegerOutOfRange(n));
    case F64Literal(x) =>
      var number := NormalizeF64(x);
      result := if number.Ok? then Ok(Value.Number(number.value)) else Err(number.error);
    case Text(s) => result := Ok(String(s));
    case Sequence(items) => result := VisitSeq(d);
    case Mapping(entries) => result := VisitMap(d);
  }

  method VisitSeq(d: Document) returns (result: Result<Value, Violation>)
    requires d.Sequence?
    ensures result.Ok? <==> Accepted(d, InDomain)
    ensures result.Ok? ==> result.value == Normal(Tree(d))
    ensures result.Err? ==> FirstRejected(Restricted, d, result.error)
    decreases d, 0
  {
    hide Accepted;
    hide InDomain;
    var items := d.items;
    var values := [];
    for i := 0 to |items|
      invariant |values| == i
      invariant forall j :: 0 <= j < i ==> Accepted(items[j], InDomain) && IsNormal(values[j], Tree(items[j]))
    {
      var value := Visit(items[i]);
      if value.Err? {
        assert FirstRejected(Restricted, d, value.error);
        RejectedIsNotAccepted(Restricted, d, value.error);
        return Err(value.error);
      }
      AcceptedTree(items[i]);
      values := values + [value.value];
    }
    AcceptedSequence(d, InDomain);
    AcceptedTree(d);
    result := Ok(Array(values));
  }

  /** v is the normal form of a tree in the domain. */
  ghost predicate IsNormal(v: Value, tree: Value) {
    Numbers(tree, InDomain) && v == Normal(tree)
  }

  lemma AcceptedTree(d: Document)
    requires Accepted(d, InDomain)
    ensures Numbers(Tree(d), InDomain)
  {}

  lemma MappingTree(d: Document)
    requires d.Mapping? && DistinctKeys(d.entries)
    ensures Tree(d).fields.Keys == KeySet(d.entries)
    ensures forall i :: 0 <= i < |d.entries| ==>
              d.entries[i].key in Tree(d).fields && Tree(d).fields[d.entries[i].key] == Tree(d.entries[i].value)
  {
    var entries := d.entries;
    forall i | 0 <= i < |entries|
      ensures entries[i].key in Tree(d).fields && Tree(d).fields[entries[i].key] == Tree(entries[i].value)
    {
      DistinctEntries(entries, i);
    }
  }

  lemma DistinctPrefix(entries: seq<Entry>, reader: Reader)
    requires EntriesAccepted(reader, entries, |entries|)
    ensures DistinctKeys(entries)
  {
    forall i, j | 0 <= i < j < |entries| ensures entries[i].key != entries[j].key {
      assert !Repeats(entries, j);
    }
  }

  method VisitMap(d: Document) returns (result: Result<Value, Violation>)
    requires d.Mapping?
    ensures result.Ok? <==> Accepted(d, InDomain)
    ensures result.Ok? ==> result.value == Normal(Tree(d))
    ensures result.Err? ==> FirstRejected(Restricted, d, result.error)
    decreases d, 0
  {
    hide Accepted;
    hide InDomain;
    hide IsNormal;
    hide Tree;
    var entries := d.entries;
    var values: map<string, Value> := map[];
    for i := 0 to |entries|
      invariant EntriesAccepted(Restricted, entries, i)
      invariant values.Keys == set j | 0 <= j < i :: entries[j].key
      invariant
        forall j :: 0 <= j < i ==> entries[j].key in values && IsNormal(values[entries[j].key], Tree(entries[j].value))
    {
      var value := Visit(entries[i].value);
      if value.Err? {
        RejectedHere(Restricted, d, i, value.error);
        return Err(value.error);
      }
      if entries[i].key in values {
        RejectedHere(Restricted, d, i, DuplicateKey(entries[i].key));
        return Err(DuplicateKey(entries[i].key));
      }
      NormalTree(entries[i].value, value.value);
      values := values[entries[i].key := value.value];
    }
    NormalFields(d, values);
    result := Ok(Object(values));
  }

  lemma NormalTree(d: Document, v: Value)
    requires Accepted(d, InDomain) && (Numbers(Tree(d), InDomain) ==> v == Normal(Tree(d)))
    ensures IsNormal(v, Tree(d))
  {}

  lemma RejectedHere(reader: Reader, d: Document, i: nat, e: Violation)
    requires d.Mapping? && i < |d.entries| && EntriesAccepted(reader, d.entries, i)
    requires
      if reader.Restricted? then
        || FirstRejected(reader, d.entries[i].value, e)
        || (Accepted(d.entries[i].value, InDomain) && Repeats(d.entries, i) && e == DuplicateKey(d.entries[i].key))
      else if Repeats(d.entries, i) then e == DuplicateKey(d.entries[i].key)
      else FirstRejected(reader, d.entries[i].value, e)
    ensures FirstRejected(reader, d, e) && !Accepted(d, Admitted(reader))
  {
    RejectedIsNotAccepted(reader, d, e);
  }

  lemma NormalFields(d: Document, values: map<string, Value>)
    requires d.Mapping? && EntriesAccepted(Restricted, d.entries, |d.entries|)
    requires values.Keys == set j | 0 <= j < |d.entries| :: d.entries[j].key
    requires forall j :: 0 <= j < |d.entries| ==>
               d.entries[j].key in values && IsNormal(values[d.entries[j].key], Tree(d.entries[j].value))
    ensures Accepted(d, InDomain) && Object(values) == Normal(Tree(d))
  {
    hide Tree;
    hide InDomain;
    DistinctPrefix(d.entries, Restricted);
    AcceptedMapping(d, InDomain);
    MappingTree(d);
    var fields := Tree(d).fields;
    forall k | k in fields ensures k in values && values[k] == Normal(fields[k]) {
      var j :| 0 <= j < |d.entries| && d.entries[j].key == k;
      assert fields[d.entries[j].key] == Tree(d.entries[j].value);
    }
    assert values == Normal(Object(fields)).fields;
  }

  // ----- the unique reader -----

  method VisitUnique(d: Document) returns (result: Result<Value, Violation>)
    ensures result.Ok? <==> Accepted(d, Representable)
    ensures result.Ok? ==> result.value == Tree(d)
    ensures result.Err? ==> FirstRejected(Unique, d, result.error)
    decreases d, 1
  {
    match d
    case Unit => result := Ok(Null);
    case Truth(b) => result := Ok(Bool(b));
    case I64Literal(n) => result := Ok(Value.Number(FromI64(n)));
    case U64Literal(n) => result := Ok(Value.Number(PosInt(n)));
    case F64Literal(x) => result := if IsFinite(x) then Ok(Value.Number(Floating(x))) else Err(NotFiniteBinary64(x));
    case Text(s) => result := Ok(String(s));
    case Sequence(items) => result := VisitUniqueSeq(d);
    case Mapping(entries) => result := VisitUniqueMap(d);
  }

  method VisitUniqueSeq(d: Document) returns (result: Result<Value, Violation>)
    requires d.Sequence?
    ensures result.Ok? <==> Accepted(d, Representable)
    ensures result.Ok? ==> result.value == Tree(d)
    ensures result.Err? ==> FirstRejected(Unique, d, result.error)
    decreases d, 0
  {
    hide Accepted;
    var items := d.items;
    var values := [];
    for i := 0 to |items|
      invariant |values| == i
      invariant forall j :: 0 <= j < i ==> Accepted(items[j], Representable) && values[j] == Tree(items[j])
    {
      var value := VisitUnique(items[i]);
      if value.Err? {
        assert FirstRejected(Unique, d, value.error);
        RejectedIsNotAccepted(Unique, d, value.error);
        return Err(value.error);
      }
      values := values + [value.value];
    }
    AcceptedSequence(d, Representable);
    result := Ok(Array(values));
  }

  method VisitUniqueMap(d: Document) returns (result: Result<Value, Violation>)
    requires d.Mapping?
    ensures result.Ok? <==> Accepted(d, Representable)
    ensures result.Ok? ==> result.value == Tree(d)
    ensures result.Err? ==> FirstRejected(Unique, d, result.error)
    decreases d, 0
  {
    hide Accepted;
    hide Tree;
    var entries := d.entries;
    var values: map<string, Value> := map[];
    for i := 0 to |entries|
      invariant EntriesAccepted(Unique, entries, i)
      invariant values.Keys == set j | 0 <= j < i :: entries[j].key
      invariant forall j :: 0 <= j < i ==> entries[j].key in values && values[entries[j].key] == Tree(entries[j].value)
    {
      if entries[i].key in values {
        RejectedHere(Unique, d, i, DuplicateKey(entries[i].key));
        return Err(DuplicateKey(entries[i].key));
      }
      var value := VisitUnique(entries[i].value);
      if value.Err? {
        RejectedHere(Unique, d, i, value.error);
        return Err(value.error);
      }
      values := values[entries[i].key := value.value];
    }
    DistinctPrefix(entries, Unique);
    AcceptedMapping(d, Representable);
    MappingTree(d);
    assert values == Tree(d).fields;
    TreeOfMapping(d);
    result := Ok(Object(values));
  }

  lemma TreeOfMapping(d: Document)
    requires d.Mapping?
    ensures Tree(d) == Object(Tree(d).fields)
  {}

  // ----- the two entries to the domain agree -----

  lemma {:induction false} DomainIsRepresentable(v: Value)
    requires Numbers(v, InDomain)
    ensures Numbers(v, Representable)
  {
    match v
    case Array(vs) =>
      forall i | 0 <= i < |vs| ensures Numbers(vs[i], Representable) {
        DomainIsRepresentable(vs[i]);
      }
    case Object(fields) =>
      forall k | k in fields ensures Numbers(fields[k], Representable) {
        DomainIsRepresentable(fields[k]);
      }
    case _ =>
  }

  lemma {:induction false} TreesHoldNumbers(d: Document)
    ensures Numbers(Tree(d), IsNumber)
  {
    match d
    case Sequence(items) =>
      forall i | 0 <= i < |items| ensures Numbers(Tree(d).elements[i], IsNumber) {
        TreesHoldNumbers(items[i]);
      }
    case Mapping(entries) =>
      forall k | k in Tree(d).fields ensures Numbers(Tree(d).fields[k], IsNumber) {
        TreesHoldNumbers(entries[LastIndex(entries, k)].value);
      }
    case _ =>
  }

  /** Reading a document straight into the domain, or reading it without
      repeated keys and normalising the tree, accepts the same documents with
      the same result. */
  method BothEntries(d: Document) returns (direct: Result<Value, Violation>, staged: Result<Value, Violation>)
    ensures direct.Ok? <==> staged.Ok?
    ensures
      direct.Ok? ==>
        direct.value == staged.value && Numbers(direct.value, IsCanonicalNumber) && SameMeaning(Tree(d), direct.value)
  {
    hide Tree;
    hide InDomain;
    hide Representable;
    direct := Visit(d);
    if direct.Ok? {
      NormalIsCanonical(Tree(d));
      DomainIsRepresentable(Tree(d));
    }
    staged := VisitUnique(d);
    if staged.Ok? {
      TreesHoldNumbers(d);
      staged := NormalizeValue(staged.value);
    }
  }
}
