/** Collection of referenced identities from src/core/inspection.rs. */
module Inspection {
  import opened Json
  import opened Keys
  import opened Pointers
  import opened RecordIds
  import opened Wrappers

  /** The tree holds this identity as one of its strings. */
  ghost predicate Refers(v: Value, id: string) {
    match v
    case String(text) => text == id && IsInspectionId(id)
    case Array(vs) => exists i :: 0 <= i < |vs| && Refers(vs[i], id)
    case Object(fields) => exists k :: k in fields && Refers(fields[k], id)
    case _ => false
  }

  /** An identity is referred to exactly when some pointer into the tree evaluates
      to it; keys do not count. */
  lemma {:induction false} RefersIffPointed(v: Value, id: string)
    ensures Refers(v, id) <==> IsInspectionId(id) && exists path :: Walk(v, path) == Some(Value.String(id))
  {
    if Refers(v, id) {
      var path := PathTo(v, id);
    }
    if path :| IsInspectionId(id) && Walk(v, path) == Some(Value.String(id)) {
      PointedRefers(v, id, path);
    }
  }

  lemma {:induction false} PathTo(v: Value, id: string) returns (path: seq<string>)
    requires Refers(v, id)
    ensures IsInspectionId(id) && Walk(v, path) == Some(Value.String(id))
  {
    match v
    case String(text) => path := [];
    case Array(vs) =>
      var i :| 0 <= i < |vs| && Refers(vs[i], id);
      var rest := PathTo(vs[i], id);
      path := [Show(i)] + rest;
      IndexShow(i);
      assert path[1..] == rest;
    case Object(fields) =>
      var k :| k in fields && Refers(fields[k], id);
      var rest := PathTo(fields[k], id);
      path := [k] + rest;
      assert path[1..] == rest;
  }

  lemma {:induction false} PointedRefers(v: Value, id: string, path: seq<string>)
    requires IsInspectionId(id) && Walk(v, path) == Some(Value.String(id))
    ensures Refers(v, id)
    decreases |path|
  {
    if path != [] {
      PointedRefers(Child(v, path[0]).value, id, path[1..]);
    }
  }

  class IdSet {
    var ids: set<string>

    constructor ()
      ensures ids == {}
    {
      ids := {};
    }

    method Visit(v: Value)
      modifies this
      ensures forall id :: id in ids <==> id in old(ids) || Refers(v, id)
      decreases v
    {
      hide IsInspectionId;
      hide KeysOf;
      hide Ascending;
      match v
      case String(text) =>
        if IsInspectionId(text) {
          ids := ids + {text};
        }
      case Array(vs) =>
        for i := 0 to |vs|
          invariant forall id :: id in ids <==> id in old(ids) || exists j :: 0 <= j < i && Refers(vs[j], id)
        {
          Visit(vs[i]);
        }
      case Object(fields) =>
        var keys := SortKeys(fields.Keys);
        for i := 0 to |keys|
          invariant
            forall id :: id in ids <==>
              id in old(ids) || exists k :: k in fields && k in keys[..i] && Refers(fields[k], id)
        {
          assert keys[i] in keys;
          Visit(fields[keys[i]]);
          assert keys[..i + 1] == keys[..i] + [keys[i]];
        }
        assert keys[..|keys|] == keys;
        assert forall k :: k in fields <==> k in keys;
      case _ =>
    }
  }

  /** The referenced identities, each once, in byte order. */
  method ReferencedIds(v: Value) returns (ids: seq<string>)
    ensures Ascending(ids) && forall id :: id in ids <==> Refers(v, id)
  {
    hide IsInspectionId;
    hide Ascending;
    var collected := new IdSet();
    collected.Visit(v);
    ids := SortKeys(collected.ids);
  }
}
