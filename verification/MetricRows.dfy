/** Flattening of metric objects into rows from src/core/export.rs. */
module MetricRows {
  import opened Json
  import opened Keys
  import opened Lexicographic
  import opened Pointers
  import opened Wrappers

  datatype Row = Row(pointer: string, value: Value)

  datatype Leaf = Leaf(path: seq<string>, value: Value)

  /** A nonempty object is taken apart; everything else is one metric value. */
  predicate Branches(v: Value) {
    v.Object? && v.fields != map[]
  }

  ghost function Prefixed(key: string, leaves: seq<Leaf>): (r: seq<Leaf>)
    ensures |r| == |leaves| && forall i :: 0 <= i < |r| ==> r[i] == Leaf([key] + leaves[i].path, leaves[i].value)
  {
    seq(|leaves|, i requires 0 <= i < |leaves| => Leaf([key] + leaves[i].path, leaves[i].value))
  }

  /** The leaves of a value with the keys that lead to them. */
  ghost function Leaves(v: Value): seq<Leaf>
    decreases v, 1, 0
  {
    if Branches(v) then
      MembersOf(KeysOf(v.fields.Keys), v.fields.Keys);
      LeavesUnder(v, KeysOf(v.fields.Keys))
    else [Leaf([], v)]
  }

  ghost function LeavesUnder(v: Value, keys: seq<string>): seq<Leaf>
    requires v.Object? && forall i :: 0 <= i < |keys| ==> keys[i] in v.fields
    decreases v, 0, |keys|
  {
    if keys == [] then []
    else
      var n := |keys| - 1;
      LeavesUnder(v, keys[..n]) + Prefixed(keys[n], Leaves(v.fields[keys[n]]))
  }

  lemma MembersOf(keys: seq<string>, s: set<string>)
    requires Lists(keys, s)
    ensures forall i :: 0 <= i < |keys| ==> keys[i] in s
  {
    hide Ascending;
  }

  ghost function RowsAt(base: seq<string>, leaves: seq<Leaf>): (rows: seq<Row>)
    ensures |rows| == |leaves|
    ensures forall i :: 0 <= i < |rows| ==> rows[i] == Row(Print(base + leaves[i].path), leaves[i].value)
  {
    seq(|leaves|, i requires 0 <= i < |leaves| => Row(Print(base + leaves[i].path), leaves[i].value))
  }

  /** What metric_values means. */
  ghost function Flattened(v: Value): seq<Row> {
    if Branches(v) then RowsAt([], Leaves(v)) else []
  }

  class RowList {
    var rows: seq<Row>

    constructor ()
      ensures rows == []
    {
      rows := [];
    }

    method Visit(v: Value, pointer: string, ghost base: seq<string>)
      requires pointer == Print(base)
      modifies this
      ensures rows == old(rows) + RowsAt(base, Leaves(v))
      decreases v
    {
      hide KeysOf;
      hide Ascending;
      hide Escape;
      hide Leaves;
      hide LeavesUnder;
      hide RowsAt;
      if Branches(v) {
        var keys := SortKeys(v.fields.Keys);
        MembersOf(keys, v.fields.Keys);
        RowsNone(v, keys[..0], base);
        for i := 0 to |keys|
          invariant rows == old(rows) + RowsAt(base, LeavesUnder(v, keys[..i]))
        {
          PrintPush(base, keys[i]);
          Visit(v.fields[keys[i]], pointer + "/" + Escape(keys[i]), base + [keys[i]]);
          RowsPush(v, keys, i, base);
        }
        assert keys[..|keys|] == keys;
        LeavesOf(v);
      } else {
        LeavesOf(v);
        assert base + [] == base;
        assert RowsAt(base, Leaves(v)) == [Row(pointer, v)];
        rows := rows + [Row(pointer, v)];
      }
    }
  }

  lemma LeavesOf(v: Value)
    ensures Branches(v) ==>
              && (forall j :: 0 <= j < |KeysOf(v.fields.Keys)| ==> KeysOf(v.fields.Keys)[j] in v.fields)
              && Leaves(v) == LeavesUnder(v, KeysOf(v.fields.Keys))
    ensures !Branches(v) ==> Leaves(v) == [Leaf([], v)]
  {
    if Branches(v) {
      MembersOf(KeysOf(v.fields.Keys), v.fields.Keys);
    }
  }

  lemma RowsNone(v: Value, keys: seq<string>, base: seq<string>)
    requires v.Object? && |keys| == 0
    ensures RowsAt(base, LeavesUnder(v, keys)) == []
  {}

  lemma RowsPush(v: Value, keys: seq<string>, i: nat, base: seq<string>)
    requires v.Object? && i < |keys| && forall j :: 0 <= j < |keys| ==> keys[j] in v.fields
    ensures RowsAt(base, LeavesUnder(v, keys[..i + 1])) ==
            RowsAt(base, LeavesUnder(v, keys[..i])) + RowsAt(base + [keys[i]], Leaves(v.fields[keys[i]]))
  {
    hide Leaves;
    hide Print;
    var leaves := Leaves(v.fields[keys[i]]);
    assert keys[..i + 1][..i] == keys[..i];
    forall j | 0 <= j < |leaves|
      ensures base + Prefixed(keys[i], leaves)[j].path == base + [keys[i]] + leaves[j].path
    {}
    assert RowsAt(base, Prefixed(keys[i], leaves)) == RowsAt(base + [keys[i]], leaves);
  }

  method MetricValues(v: Value) returns (rows: seq<Row>)
    ensures rows == Flattened(v)
  {
    hide Leaves;
    var list := new RowList();
    if Branches(v) {
      list.Visit(v, "", []);
    }
    rows := list.rows;
  }

  // ----- each pointer finds its value -----

  lemma {:induction false} LeafIsThere(v: Value, i: nat)
    requires i < |Leaves(v)|
    ensures Walk(v, Leaves(v)[i].path) == Some(Leaves(v)[i].value) && !Branches(Leaves(v)[i].value)
    decreases v, 1, 0
  {
    hide KeysOf;
    hide Ascending;
    if Branches(v) {
      MembersOf(KeysOf(v.fields.Keys), v.fields.Keys);
      LeafUnderIsThere(v, KeysOf(v.fields.Keys), i);
    }
  }

  lemma {:induction false} LeafUnderIsThere(v: Value, keys: seq<string>, i: nat)
    requires v.Object? && (forall j :: 0 <= j < |keys| ==> keys[j] in v.fields) && i < |LeavesUnder(v, keys)|
    ensures
      var leaf := LeavesUnder(v, keys)[i];
      leaf.path != [] && leaf.path[0] in keys && Walk(v, leaf.path) == Some(leaf.value) && !Branches(leaf.value)
    decreases v, 0, |keys|
  {
    hide Leaves;
    var n := |keys| - 1;
    var before := LeavesUnder(v, keys[..n]);
    if i < |before| {
      LeafUnderIsThere(v, keys[..n], i);
    } else {
      var child := v.fields[keys[n]];
      LeafIsThere(child, i - |before|);
      var path := Leaves(child)[i - |before|].path;
      assert ([keys[n]] + path)[1..] == path;
    }
  }

  // ----- the order of the rows -----

  /** a comes before b at the first key where they differ, and neither is a
      prefix of the other. */
  ghost predicate Before(a: seq<string>, b: seq<string>) {
    a != [] && b != [] && (TextLess(a[0], b[0]) || (a[0] == b[0] && Before(a[1..], b[1..])))
  }

  lemma {:induction false} BeforeIsPrefixFree(a: seq<string>, b: seq<string>)
    requires Before(a, b)
    ensures !(a <= b) && !(b <= a)
  {
    TextIrreflexive(a[0]);
    if a[0] == b[0] {
      BeforeIsPrefixFree(a[1..], b[1..]);
    }
    PrefixTail(a, b);
    PrefixTail(b, a);
  }

  lemma PrefixTail(a: seq<string>, b: seq<string>)
    requires a != [] && b != []
    ensures a <= b ==> a[0] == b[0] && a[1..] <= b[1..]
  {
    if a <= b {
      assert b[..|a|][0] == b[0] && b[..|a|][1..] == b[1..][..|a| - 1];
    }
  }

  lemma {:induction false} LeavesAreOrdered(v: Value, i: nat, j: nat)
    requires i < j < |Leaves(v)|
    ensures Before(Leaves(v)[i].path, Leaves(v)[j].path)
    decreases v, 1, 0
  {
    hide KeysOf;
    MembersOf(KeysOf(v.fields.Keys), v.fields.Keys);
    LeavesUnderAreOrdered(v, KeysOf(v.fields.Keys), i, j);
  }

  lemma {:induction false} LeavesUnderAreOrdered(v: Value, keys: seq<string>, i: nat, j: nat)
    requires v.Object? && Ascending(keys) && (forall k :: 0 <= k < |keys| ==> keys[k] in v.fields)
    requires i < j < |LeavesUnder(v, keys)|
    ensures Before(LeavesUnder(v, keys)[i].path, LeavesUnder(v, keys)[j].path)
    decreases v, 0, |keys|
  {
    hide Leaves;
    hide TextLess;
    var n := |keys| - 1;
    var before := LeavesUnder(v, keys[..n]);
    var leaves := Leaves(v.fields[keys[n]]);
    if j < |before| {
      LeavesUnderAreOrdered(v, keys[..n], i, j);
    } else if i < |before| {
      LeafUnderIsThere(v, keys[..n], i);
      var k :| 0 <= k < n && keys[k] == before[i].path[0];
      assert TextLess(keys[k], keys[n]);
    } else {
      LeavesAreOrdered(v.fields[keys[n]], i - |before|, j - |before|);
      var a, b := leaves[i - |before|].path, leaves[j - |before|].path;
      assert ([keys[n]] + a)[1..] == a && ([keys[n]] + b)[1..] == b;
    }
  }

  // ----- rebuilding the object -----

  function FieldsOf(v: Value): map<string, Value> {
    if v.Object? then v.fields else map[]
  }

  function Insert(v: Value, path: seq<string>, leaf: Value): Value
    decreases |path|
  {
    if path == [] then leaf
    else
      var fields := FieldsOf(v);
      var child := if path[0] in fields then fields[path[0]] else Object(map[]);
      Object(fields[path[0] := Insert(child, path[1..], leaf)])
  }

  ghost function InsertAll(v: Value, leaves: seq<Leaf>): Value {
    if leaves == [] then v
    else
      var n := |leaves| - 1;
      Insert(InsertAll(v, leaves[..n]), leaves[n].path, leaves[n].value)
  }

  lemma {:induction false} InsertAllAppend(v: Value, a: seq<Leaf>, b: seq<Leaf>)
    ensures InsertAll(v, a + b) == InsertAll(InsertAll(v, a), b)
    decreases |b|
  {
    if b == [] {
      assert a + b == a;
    } else {
      var n := |b| - 1;
      InsertAllAppend(v, a, b[..n]);
      assert (a + b)[..|a| + n] == a + b[..n];
    }
  }

  /** Leaves under a fresh key build that key's value and touch nothing else. */
  lemma {:induction false} InsertPrefixed(fields: map<string, Value>, key: string, leaves: seq<Leaf>)
    requires leaves != [] && key !in fields
    ensures InsertAll(Object(fields), Prefixed(key, leaves)) == Object(fields[key := InsertAll(Object(map[]), leaves)])
    decreases |leaves|
  {
    var n := |leaves| - 1;
    var prefixed := Prefixed(key, leaves);
    assert prefixed[..n] == Prefixed(key, leaves[..n]);
    assert ([key] + leaves[n].path)[1..] == leaves[n].path;
    var built := InsertAll(Object(map[]), leaves);
    if n == 0 {
      NothingInserted(Object(map[]), leaves[..0]);
      NothingInserted(Object(fields), prefixed[..0]);
    } else {
      InsertPrefixed(fields, key, leaves[..n]);
      var inner := InsertAll(Object(map[]), leaves[..n]);
      assert fields[key := inner][key := built] == fields[key := built];
    }
  }

  lemma NothingInserted(v: Value, leaves: seq<Leaf>)
    requires |leaves| == 0
    ensures InsertAll(v, leaves) == v
  {}

  lemma {:induction false} LeavesRebuild(v: Value)
    ensures Leaves(v) != [] && InsertAll(Object(map[]), Leaves(v)) == v
    decreases v, 1, 0
  {
    hide KeysOf;
    hide Ascending;
    if Branches(v) {
      var keys := KeysOf(v.fields.Keys);
      MembersOf(keys, v.fields.Keys);
      AscendingIsDistinct(keys);
      LeavesUnderRebuild(v, keys);
      forall k | k in v.fields ensures k in keys {}
      assert (map k | k in v.fields && k in keys :: v.fields[k]) == v.fields;
      NothingInserted(Object(map[]), []);
    } else {
      NothingInserted(Object(map[]), [Leaf([], v)][..0]);
    }
  }

  lemma {:induction false} LeavesUnderRebuild(v: Value, keys: seq<string>)
    requires v.Object? && (forall k :: 0 <= k < |keys| ==> keys[k] in v.fields)
    requires forall i, j :: 0 <= i < j < |keys| ==> keys[i] != keys[j]
    ensures InsertAll(Object(map[]), LeavesUnder(v, keys)) == Object(map k | k in v.fields && k in keys :: v.fields[k])
    decreases v, 0, |keys|
  {
    hide Leaves;
    if keys == [] {
      assert (map k | k in v.fields && k in keys :: v.fields[k]) == map[];
    } else {
      var n := |keys| - 1;
      var key := keys[n];
      LeavesUnderRebuild(v, keys[..n]);
      LeavesRebuild(v.fields[key]);
      OneMoreKey(v.fields, keys, LeavesUnder(v, keys[..n]), Leaves(v.fields[key]));
    }
  }

  lemma OneMoreKey(fields: map<string, Value>, keys: seq<string>, before: seq<Leaf>, leaves: seq<Leaf>)
    requires keys != [] && (forall k :: 0 <= k < |keys| ==> keys[k] in fields)
    requires forall i, j :: 0 <= i < j < |keys| ==> keys[i] != keys[j]
    requires InsertAll(Object(map[]), before) == Object(map k | k in fields && k in keys[..|keys| - 1] :: fields[k])
    requires leaves != [] && InsertAll(Object(map[]), leaves) == fields[keys[|keys| - 1]]
    ensures InsertAll(Object(map[]), before + Prefixed(keys[|keys| - 1], leaves)) ==
            Object(map k | k in fields && k in keys :: fields[k])
  {
    hide InsertAll;
    var n := |keys| - 1;
    var key := keys[n];
    var restricted := map k | k in fields && k in keys[..n] :: fields[k];
    InsertAllAppend(Object(map[]), before, Prefixed(key, leaves));
    InsertPrefixed(restricted, key, leaves);
    assert forall k :: k in keys <==> k in keys[..n] || k == key;
    assert restricted[key := fields[key]] == map k | k in fields && k in keys :: fields[k];
  }

  // ----- what the rows promise -----

  /** The object read back from its rows. */
  ghost function Rebuilt(rows: seq<Row>): Value
    requires forall i :: 0 <= i < |rows| ==> Parse(rows[i].pointer).Some?
  {
    InsertAll(Object(map[]),
              seq(|rows|, i requires 0 <= i < |rows| => Leaf(Parse(rows[i].pointer).value, rows[i].value)))
  }

  /** The rows of a nonempty object lose nothing: every pointer evaluates to its
      value, the pointers come in key order with none a prefix of another, and
      the object can be rebuilt from the rows. */
  lemma RowsAreLossless(v: Value)
    requires Branches(v)
    ensures
      var rows := Flattened(v);
      && (forall i :: 0 <= i < |rows| ==> Parse(rows[i].pointer).Some?)
      && (forall i :: 0 <= i < |rows| ==> Lookup(v, rows[i].pointer) == Some(rows[i].value) && !Branches(rows[i].value))
      && (forall i, j :: 0 <= i < j < |rows| ==> Before(Parse(rows[i].pointer).value, Parse(rows[j].pointer).value))
      && (forall i, j :: 0 <= i < |rows| && 0 <= j < |rows| && i != j ==>
            !(Parse(rows[i].pointer).value <= Parse(rows[j].pointer).value))
      && Rebuilt(rows) == v
  {
    hide Leaves;
    hide Walk;
    hide Parse;
    hide Print;
    hide Before;
    hide InsertAll;
    var rows, leaves := Flattened(v), Leaves(v);
    forall i | 0 <= i < |rows|
      ensures Parse(rows[i].pointer) == Some(leaves[i].path)
      ensures Lookup(v, rows[i].pointer) == Some(rows[i].value) && !Branches(rows[i].value)
    {
      assert [] + leaves[i].path == leaves[i].path;
      ParsePrint(leaves[i].path);
      LeafIsThere(v, i);
    }
    forall i, j | 0 <= i < j < |rows|
      ensures Before(Parse(rows[i].pointer).value, Parse(rows[j].pointer).value)
      ensures !(Parse(rows[i].pointer).value <= Parse(rows[j].pointer).value)
      ensures !(Parse(rows[j].pointer).value <= Parse(rows[i].pointer).value)
    {
      LeavesAreOrdered(v, i, j);
      BeforeIsPrefixFree(leaves[i].path, leaves[j].path);
    }
    LeavesRebuild(v);
    assert seq(|rows|, i requires 0 <= i < |rows| => Leaf(Parse(rows[i].pointer).value, rows[i].value)) == leaves;
  }

  /** Only nonempty objects have rows, and their rows tell them apart. */
  lemma RowsIdentify(v: Value, w: Value)
    ensures Flattened(v) != [] <==> Branches(v)
    ensures Branches(v) && Flattened(v) == Flattened(w) ==> v == w
  {
    hide Leaves;
    LeavesRebuild(v);
    if Branches(v) && Flattened(v) == Flattened(w) {
      RowsAreLossless(v);
      RowsAreLossless(w);
    }
  }
}
