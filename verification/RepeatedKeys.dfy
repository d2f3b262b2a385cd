/** When the two readers of a document with repeated keys name the same violation:
    src/core/canonical.rs checks a key after its value, src/protocol/framing.rs
    before it. */
module RepeatedKeys {
  import opened Canonical
  import opened Documents

  /** What the parser of JSON text reports: no literal is infinite or not a
      number. */
  ghost predicate FromText(d: Document) {
    match d
    case F64Literal(x) => IsFinite(x)
    case Sequence(items) => forall i :: 0 <= i < |items| ==> FromText(items[i])
    case Mapping(entries) => forall i :: 0 <= i < |entries| ==> FromText(entries[i].value)
    case _ => true
  }

  ghost predicate HasRepeatAt(entries: seq<Entry>, i: nat)
    requires i < |entries|
  {
    Repeats(entries, i) || !UniqueKeys(entries[i].value)
  }

  lemma SomeEntryRepeats(d: Document)
    requires d.Mapping? && !UniqueKeys(d)
    ensures exists i :: 0 <= i < |d.entries| && HasRepeatAt(d.entries, i)
  {
    var entries := d.entries;
    if DistinctKeys(entries) {
      var i :| 0 <= i < |entries| && !UniqueKeys(entries[i].value);
      assert HasRepeatAt(entries, i);
    } else {
      var i, j :| 0 <= i < j < |entries| && entries[i].key == entries[j].key;
      assert HasRepeatAt(entries, j);
    }
  }

  /** The first item, from the given one on, with a repeated key in it. */
  ghost function ItemFrom(items: seq<Document>, from: nat): (i: nat)
    requires exists i :: from <= i < |items| && !UniqueKeys(items[i])
    ensures from <= i < |items| && !UniqueKeys(items[i]) && forall j :: from <= j < i ==> UniqueKeys(items[j])
    decreases |items| - from
  {
    if !UniqueKeys(items[from]) then from else ItemFrom(items, from + 1)
  }

  ghost function EntryFrom(entries: seq<Entry>, from: nat): (i: nat)
    requires exists i :: from <= i < |entries| && HasRepeatAt(entries, i)
    ensures from <= i < |entries| && HasRepeatAt(entries, i) && forall j :: from <= j < i ==> !HasRepeatAt(entries, j)
    decreases |entries| - from
  {
    if HasRepeatAt(entries, from) then from else EntryFrom(entries, from + 1)
  }

  ghost function FirstItem(d: Document): (i: nat)
    requires d.Sequence? && !UniqueKeys(d)
    ensures i < |d.items| && !UniqueKeys(d.items[i]) && forall j :: 0 <= j < i ==> UniqueKeys(d.items[j])
  {
    ItemFrom(d.items, 0)
  }

  ghost function FirstEntry(d: Document): (i: nat)
    requires d.Mapping? && !UniqueKeys(d)
    ensures i < |d.entries| && HasRepeatAt(d.entries, i) && forall j :: 0 <= j < i ==> !HasRepeatAt(d.entries, j)
  {
    SomeEntryRepeats(d);
    EntryFrom(d.entries, 0)
  }

  /** The repeated entry that is met first when keys come before values. */
  ghost function OuterRepeat(d: Document): Entry
    requires !UniqueKeys(d)
  {
    if d.Sequence? then OuterRepeat(d.items[FirstItem(d)])
    else
      var i := FirstEntry(d);
      if Repeats(d.entries, i) then d.entries[i] else OuterRepeat(d.entries[i].value)
  }

  /** The repeated entry that is met first when values come before keys. */
  ghost function InnerRepeat(d: Document): Entry
    requires !UniqueKeys(d)
  {
    if d.Sequence? then InnerRepeat(d.items[FirstItem(d)])
    else
      var i := FirstEntry(d);
      if UniqueKeys(d.entries[i].value) then d.entries[i] else InnerRepeat(d.entries[i].value)
  }

  /** All numbers that come before the inner repeat, its own value included, are in
      the domain. */
  ghost predicate SafeBeforeRepeat(d: Document)
    requires !UniqueKeys(d)
  {
    if d.Sequence? then
      var i := FirstItem(d);
      (forall j :: 0 <= j < i ==> Numbers(Tree(d.items[j]), InDomain)) && SafeBeforeRepeat(d.items[i])
    else
      var i := FirstEntry(d);
      && (forall j :: 0 <= j < i ==> Numbers(Tree(d.entries[j].value), InDomain))
      && if UniqueKeys(d.entries[i].value) then Numbers(Tree(d.entries[i].value), InDomain)
         else SafeBeforeRepeat(d.entries[i].value)
  }

  // ----- each reader reports one violation -----

  lemma {:induction false} RejectionIsUnique(reader: Reader, d: Document, e: Violation, f: Violation)
    requires FirstRejected(reader, d, e) && FirstRejected(reader, d, f)
    ensures e == f
  {
    hide NormalizeNumber;
    hide Accepted;
    match d
    case Sequence(items) =>
      var i :| 0 <= i < |items| && FirstRejected(reader, items[i], e)
               && forall j :: 0 <= j < i ==> Accepted(items[j], Admitted(reader));
      var k :| 0 <= k < |items| && FirstRejected(reader, items[k], f)
               && forall j :: 0 <= j < k ==> Accepted(items[j], Admitted(reader));
      RejectedIsNotAccepted(reader, items[i], e);
      RejectedIsNotAccepted(reader, items[k], f);
      RejectionIsUnique(reader, items[i], e, f);
    case Mapping(entries) =>
      var i := RejectedEntry(reader, d, e);
      var k := RejectedEntry(reader, d, f);
      if FirstRejected(reader, entries[i].value, e) && FirstRejected(reader, entries[i].value, f) {
        RejectionIsUnique(reader, entries[i].value, e, f);
      }
    case _ =>
  }

  /** How a mapping is rejected: at its first entry that is. */
  ghost predicate RejectedAt(reader: Reader, entries: seq<Entry>, i: nat, e: Violation)
    requires i < |entries|
  {
    if reader.Restricted? then
      || FirstRejected(reader, entries[i].value, e)
      || (Accepted(entries[i].value, InDomain) && Repeats(entries, i) && e == DuplicateKey(entries[i].key))
    else if Repeats(entries, i) then e == DuplicateKey(entries[i].key)
    else FirstRejected(reader, entries[i].value, e)
  }

  lemma RejectedEntry(reader: Reader, d: Document, e: Violation) returns (i: nat)
    requires d.Mapping? && FirstRejected(reader, d, e)
    ensures i < |d.entries| && EntriesAccepted(reader, d.entries, i) && RejectedAt(reader, d.entries, i, e)
    ensures !Repeats(d.entries, i) ==> !Accepted(d.entries[i].value, Admitted(reader))
    ensures FirstRejected(reader, d.entries[i].value, e) ==> !Accepted(d.entries[i].value, Admitted(reader))
  {
    hide NormalizeNumber;
    hide Accepted;
    hide Repeats;
    i :| 0 <= i < |d.entries| && EntriesAccepted(reader, d.entries, i) && RejectedAt(reader, d.entries, i, e);
    if FirstRejected(reader, d.entries[i].value, e) {
      RejectedIsNotAccepted(reader, d.entries[i].value, e);
    }
  }

  // ----- what each reader reports -----

  lemma {:induction false} TextIsRepresentable(d: Document)
    requires FromText(d)
    ensures Numbers(Tree(d), Representable)
  {
    match d
    case Sequence(items) =>
      forall i | 0 <= i < |items| ensures Numbers(Tree(d).elements[i], Representable) {
        TextIsRepresentable(items[i]);
      }
    case Mapping(entries) =>
      forall k | k in Tree(d).fields ensures Numbers(Tree(d).fields[k], Representable) {
        TextIsRepresentable(entries[LastIndex(entries, k)].value);
      }
    case _ =>
  }

  /** The unique reader reports the outer repeat of a text document, whatever its
      numbers. */
  lemma {:induction false} OuterIsReported(d: Document)
    requires FromText(d) && !UniqueKeys(d)
    ensures FirstRejected(Unique, d, DuplicateKey(OuterRepeat(d).key))
  {
    hide NumberFault;
    if d.Sequence? {
      var i := FirstItem(d);
      OuterIsReported(d.items[i]);
      forall j | 0 <= j < i ensures Accepted(d.items[j], Representable) {
        TextIsRepresentable(d.items[j]);
      }
    } else {
      var i := FirstEntry(d);
      forall j | 0 <= j < i ensures !Repeats(d.entries, j) && Accepted(d.entries[j].value, Representable) {
        assert !HasRepeatAt(d.entries, j);
        TextIsRepresentable(d.entries[j].value);
      }
      if !Repeats(d.entries, i) {
        OuterIsReported(d.entries[i].value);
      }
      MappingRejected(Unique, d, i, DuplicateKey(OuterRepeat(d).key));
    }
  }

  lemma MappingRejected(reader: Reader, d: Document, i: nat, e: Violation)
    requires
      d.Mapping? && i < |d.entries| && EntriesAccepted(reader, d.entries, i) && RejectedAt(reader, d.entries, i, e)
    ensures FirstRejected(reader, d, e)
  {
    hide NumberFault;
    hide Accepted;
    hide EntriesAccepted;
  }

  /** The restricted reader reports the inner repeat when every number before it is
      in the domain. */
  lemma {:induction false} InnerIsReported(d: Document)
    requires !UniqueKeys(d) && SafeBeforeRepeat(d)
    ensures FirstRejected(Restricted, d, DuplicateKey(InnerRepeat(d).key))
  {
    hide NumberFault;
    hide InDomain;
    if d.Sequence? {
      InnerIsReported(d.items[FirstItem(d)]);
    } else {
      var i := FirstEntry(d);
      forall j | 0 <= j < i ensures !Repeats(d.entries, j) && Accepted(d.entries[j].value, InDomain) {
        assert !HasRepeatAt(d.entries, j);
      }
      if !UniqueKeys(d.entries[i].value) {
        InnerIsReported(d.entries[i].value);
      }
      MappingRejected(Restricted, d, i, DuplicateKey(InnerRepeat(d).key));
    }
  }

  /** A document without repeated keys but with a number outside the domain is
      refused for a number. */
  lemma {:induction false} NumberIsReported(d: Document) returns (e: Violation)
    requires UniqueKeys(d) && !Numbers(Tree(d), InDomain)
    ensures !e.DuplicateKey? && FirstRejected(Restricted, d, e)
  {
    hide NormalizeNumber;
    hide Tree;
    hide Numbers;
    hide InDomain;
    match d
    case Sequence(items) =>
      AcceptedSequence(d, InDomain);
      var i := RefusedItem(items, 0);
      e := NumberIsReported(items[i]);
    case Mapping(entries) =>
      AcceptedMapping(d, InDomain);
      var i := RefusedEntry(entries, 0);
      e := NumberIsReported(entries[i].value);
      DistinctDoNotRepeat(entries);
      MappingRejected(Restricted, d, i, e);
    case _ =>
      e := RefusedNumber(d);
  }

  lemma RefusedNumber(d: Document) returns (e: Violation)
    requires !d.Sequence? && !d.Mapping? && !Numbers(Tree(d), InDomain)
    ensures !e.DuplicateKey? && FirstRejected(Restricted, d, e)
  {
    e := NormalizeNumber(Tree(d).number).error;
  }

  lemma DistinctDoNotRepeat(entries: seq<Entry>)
    requires DistinctKeys(entries)
    ensures forall i :: 0 <= i < |entries| ==> !Repeats(entries, i)
  {}

  lemma {:induction false} RefusedItem(items: seq<Document>, from: nat) returns (i: nat)
    requires exists i :: from <= i < |items| && !Accepted(items[i], InDomain)
    ensures
      from <= i < |items| && !Accepted(items[i], InDomain) && forall j :: from <= j < i ==> Accepted(items[j], InDomain)
    decreases |items| - from
  {
    hide Accepted;
    i := from;
    if Accepted(items[from], InDomain) {
      i := RefusedItem(items, from + 1);
    }
  }

  lemma {:induction false} RefusedEntry(entries: seq<Entry>, from: nat) returns (i: nat)
    requires exists i :: from <= i < |entries| && !Accepted(entries[i].value, InDomain)
    ensures from <= i < |entries| && !Accepted(entries[i].value, InDomain)
    ensures forall j :: from <= j < i ==> Accepted(entries[j].value, InDomain)
    decreases |entries| - from
  {
    hide Accepted;
    i := from;
    if Accepted(entries[from].value, InDomain) {
      i := RefusedEntry(entries, from + 1);
    }
  }

  /** A number outside the domain before the inner repeat is what the restricted
      reader reports instead. */
  lemma {:induction false} UnsafeIsReported(d: Document) returns (e: Violation)
    requires !UniqueKeys(d) && !SafeBeforeRepeat(d)
    ensures !e.DuplicateKey? && FirstRejected(Restricted, d, e)
  {
    hide NormalizeNumber;
    hide Tree;
    if d.Sequence? {
      var i := FirstItem(d);
      if forall j :: 0 <= j < i ==> Accepted(d.items[j], InDomain) {
        e := UnsafeIsReported(d.items[i]);
      } else {
        var k := RefusedItem(d.items, 0);
        e := NumberIsReported(d.items[k]);
      }
    } else {
      var i := FirstEntry(d);
      EntriesBefore(d, i);
      if forall j :: 0 <= j < i ==> Accepted(d.entries[j].value, InDomain) {
        if UniqueKeys(d.entries[i].value) {
          e := NumberIsReported(d.entries[i].value);
        } else {
          e := UnsafeIsReported(d.entries[i].value);
        }
        MappingRejected(Restricted, d, i, e);
      } else {
        var k := RefusedEntry(d.entries, 0);
        e := NumberIsReported(d.entries[k].value);
        MappingRejected(Restricted, d, k, e);
      }
    }
  }

  lemma EntriesBefore(d: Document, i: nat)
    requires d.Mapping? && !UniqueKeys(d) && i == FirstEntry(d)
    ensures forall j :: 0 <= j < i ==> !Repeats(d.entries, j) && UniqueKeys(d.entries[j].value)
  {
    forall j | 0 <= j < i ensures !Repeats(d.entries, j) && UniqueKeys(d.entries[j].value) {
      assert !HasRepeatAt(d.entries, j);
    }
  }

  // ----- when the readers agree -----

  /** What the two readers report of a text document that repeats a key. The unique
      one reports the outer repeat; the restricted one reports the same violation
      exactly when the numbers before the inner repeat are in the domain and both
      repeats have the same key. */
  lemma ReportsAgree(d: Document, e: Violation, f: Violation)
    requires FromText(d) && !UniqueKeys(d) && FirstRejected(Unique, d, e) && FirstRejected(Restricted, d, f)
    ensures e == DuplicateKey(OuterRepeat(d).key)
    ensures e == f <==> SafeBeforeRepeat(d) && InnerRepeat(d).key == OuterRepeat(d).key
  {
    hide FirstRejected;
    hide SafeBeforeRepeat;
    OuterIsReported(d);
    RejectionIsUnique(Unique, d, e, DuplicateKey(OuterRepeat(d).key));
    if SafeBeforeRepeat(d) {
      InnerIsReported(d);
      RejectionIsUnique(Restricted, d, f, DuplicateKey(InnerRepeat(d).key));
    } else {
      var g := UnsafeIsReported(d);
      RejectionIsUnique(Restricted, d, f, g);
    }
  }

  /** A text document is refused by the unique reader exactly for a repeated key,
      and by the restricted one for that or for a number outside the domain. */
  lemma RefusalsDiffer(d: Document)
    requires FromText(d)
    ensures Accepted(d, Representable) <==> UniqueKeys(d)
    ensures Accepted(d, InDomain) <==> Accepted(d, Representable) && Numbers(Tree(d), InDomain)
  {
    TextIsRepresentable(d);
  }

  /** Two documents that JSON text can hold and the readers refuse for different
      reasons: a repeated key with an unsafe integer, and one with another repeat
      inside its value. */
  lemma ReasonsDiffer(key: string, other: string, unsafe: Document)
    requires key != other && unsafe == U64Literal(0x20_0000_0000_0000)
    ensures
      var d := Mapping([Entry(key, Unit), Entry(key, unsafe)]);
      && FromText(d) && FirstRejected(Unique, d, DuplicateKey(key))
      && FirstRejected(Restricted, d, IntegerOutOfRange(0x20_0000_0000_0000))
    ensures
      var inner := Mapping([Entry(other, Unit), Entry(other, Unit)]);
      var d := Mapping([Entry(key, Unit), Entry(key, inner)]);
      FromText(d) && FirstRejected(Unique, d, DuplicateKey(key)) && FirstRejected(Restricted, d, DuplicateKey(other))
  {
    RepeatedPair(key, unsafe);
    assert FirstRejected(Restricted, unsafe, IntegerOutOfRange(0x20_0000_0000_0000));
    MappingRejected(Restricted, Mapping([Entry(key, Unit), Entry(key, unsafe)]), 1,
                    IntegerOutOfRange(0x20_0000_0000_0000));
    var inner := Mapping([Entry(other, Unit), Entry(other, Unit)]);
    RepeatedPair(other, Unit);
    RepeatedPair(key, inner);
    MappingRejected(Restricted, Mapping([Entry(key, Unit), Entry(key, inner)]), 1, DuplicateKey(other));
  }

  lemma RepeatedPair(key: string, value: Document)
    requires FromText(value)
    ensures
      var d := Mapping([Entry(key, Unit), Entry(key, value)]);
      && FromText(d) && FirstRejected(Unique, d, DuplicateKey(key)) && EntriesAccepted(Restricted, d.entries, 1)
      && (Accepted(value, InDomain) ==> FirstRejected(Restricted, d, DuplicateKey(key)))
  {
    var d := Mapping([Entry(key, Unit), Entry(key, value)]);
    assert d.entries[0] == Entry(key, Unit) && d.entries[1] == Entry(key, value);
    assert Repeats(d.entries, 1) && !Repeats(d.entries, 0);
    MappingRejected(Unique, d, 1, DuplicateKey(key));
    if Accepted(value, InDomain) {
      MappingRejected(Restricted, d, 1, DuplicateKey(key));
    }
  }
}
