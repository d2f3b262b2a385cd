/** Merging of parameter defaults and supplied parameters from
    src/core/parameters.rs. */
module Parameters {
  import opened Canonical
  import opened Json
  import opened Keys
  import opened Pointers
  import opened Wrappers

  type Fields = map<string, Value>

  /** What one supplied value makes of the target's value under the same key. */
  function MergeAt(target: Option<Value>, supplied: Value): Value
    decreases supplied, 1
  {
    if target.Some? && target.value.Object? && supplied.Object? then Object(Merge(target.value.fields, supplied))
    else supplied
  }

  function At(fields: Fields, key: string): Option<Value> {
    if key in fields then Some(fields[key]) else None
  }

  /** The target fields after merging in the fields of a supplied object. */
  function Merge(target: Fields, supplied: Value): Fields
    requires supplied.Object?
    decreases supplied, 0
  {
    map key | key in target.Keys + supplied.fields.Keys ::
      if key in supplied.fields then MergeAt(At(target, key), supplied.fields[key]) else target[key]
  }

  method MergeObjects(target: Fields, supplied: Value) returns (merged: Fields)
    requires supplied.Object?
    ensures merged == Merge(target, supplied)
    decreases supplied
  {
    hide KeysOf;
    hide Ascending;
    hide Merge;
    var fields := supplied.fields;
    var keys := SortKeys(fields.Keys);
    merged := target;
    for i := 0 to |keys|
      invariant merged.Keys == target.Keys + set j | 0 <= j < i :: keys[j]
      invariant forall k :: k in merged ==>
                  merged[k] ==
                  if k in keys[..i] && k in fields then MergeAt(At(target, k), fields[k]) else At(target, k).value
      invariant forall k :: k in target && k !in keys[..i] ==> k in merged && merged[k] == target[k]
    {
      assert keys[i] in keys;
      var key := keys[i];
      NotYet(keys, fields.Keys, i);
      if key in merged && merged[key].Object? && fields[key].Object? {
        var inner := MergeObjects(merged[key].fields, fields[key]);
        merged := merged[key := Object(inner)];
      } else {
        merged := merged[key := fields[key]];
      }
      assert keys[..i + 1] == keys[..i] + [key];
    }
    assert keys[..|keys|] == keys;
    AllKeys(keys, fields.Keys);
    MergedFields(target, supplied, merged);
  }

  lemma MergedFields(target: Fields, supplied: Value, merged: Fields)
    requires supplied.Object? && merged.Keys == target.Keys + supplied.fields.Keys
    requires forall k :: k in supplied.fields ==> merged[k] == MergeAt(At(target, k), supplied.fields[k])
    requires forall k :: k in target && k !in supplied.fields ==> merged[k] == target[k]
    ensures merged == Merge(target, supplied)
  {}

  // ----- where the merged values come from -----

  /** The object of the supplied parameters merged into the defaults. */
  function Merged(defaults: Value, supplied: Value): Value {
    MergeAt(Some(defaults), supplied)
  }

  /** Both trees are objects all the way down to the path, so that the merge goes
      on there. */
  predicate Shared(defaults: Value, supplied: Value, path: seq<string>): (shared: bool)
    ensures shared ==> Walk(defaults, path).Some? && Walk(defaults, path).value.Object?
    ensures shared ==> Walk(supplied, path).Some? && Walk(supplied, path).value.Object?
    decreases |path|
  {
    && defaults.Object? && supplied.Object?
    && (path != [] ==>
          && path[0] in defaults.fields && path[0] in supplied.fields
          && Shared(defaults.fields[path[0]], supplied.fields[path[0]], path[1..]))
  }

  /** On the way to the path something supplied has replaced the default. */
  predicate Replaced(defaults: Value, supplied: Value, path: seq<string>)
    decreases |path|
  {
    if !defaults.Object? || !supplied.Object? then true
    else
      && path != [] && path[0] in supplied.fields
      && (path[0] in defaults.fields ==> Replaced(defaults.fields[path[0]], supplied.fields[path[0]], path[1..]))
  }

  lemma MergedField(defaults: Value, supplied: Value, key: string)
    requires defaults.Object? && supplied.Object?
    ensures
      && Merged(defaults, supplied).Object?
      && At(Merged(defaults, supplied).fields, key) ==
         if key !in supplied.fields then At(defaults.fields, key)
         else if key in defaults.fields then Some(Merged(defaults.fields[key], supplied.fields[key]))
         else Some(supplied.fields[key])
  {
    var merged := Merge(defaults.fields, supplied);
    assert Merged(defaults, supplied) == Object(merged);
    if key in supplied.fields {
      assert merged[key] == MergeAt(At(defaults.fields, key), supplied.fields[key]);
    }
  }

  /** The merged value at any path: where something is supplied it is that,
      merged with the default if both are objects; elsewhere it is the default
      unless the supplied tree has replaced it on the way. */
  lemma {:induction false} Provenance(defaults: Value, supplied: Value, path: seq<string>)
    ensures
      var merged := Walk(Merged(defaults, supplied), path);
      match Walk(supplied, path)
      case Some(s) =>
        if Shared(defaults, supplied, path) then merged == Some(Merged(Walk(defaults, path).value, s))
        else merged == Some(s)
      case None => merged == if Replaced(defaults, supplied, path) then None else Walk(defaults, path)
    decreases |path|
  {
    hide Merge;
    if defaults.Object? && supplied.Object? && path != [] {
      var key, rest := path[0], path[1..];
      MergedField(defaults, supplied, key);
      WalkStep(defaults, path);
      WalkStep(supplied, path);
      WalkStep(Merged(defaults, supplied), path);
      if key in supplied.fields && key in defaults.fields {
        Provenance(defaults.fields[key], supplied.fields[key], rest);
      }
    } else if !defaults.Object? || !supplied.Object? {
      assert Merged(defaults, supplied) == supplied;
      assert !Shared(defaults, supplied, path);
    }
  }

  /** Attribution of a merged pointer: supplied if the supplied tree has it, else
      the default; a value other than an object that is supplied is the merged
      value, and one that is not supplied is the default's. */
  lemma AttributionIsSound(defaults: Value, supplied: Value, pointer: string)
    ensures
      var merged := Lookup(Merged(defaults, supplied), pointer);
      && (merged.Some? ==> Lookup(supplied, pointer).Some? || Lookup(defaults, pointer).Some?)
      && (Lookup(supplied, pointer).Some? ==> merged.Some?)
      && (merged.Some? && Lookup(supplied, pointer).None? ==> merged == Lookup(defaults, pointer))
      && (Lookup(supplied, pointer).Some? && !Lookup(supplied, pointer).value.Object? ==>
          merged == Lookup(supplied, pointer))
  {
    hide Walk;
    hide Merged;
    if Parse(pointer).Some? {
      var path := Parse(pointer).value;
      Provenance(defaults, supplied, path);
    }
  }

  // ----- laws of the merge -----

  /** Merging the same parameters again changes nothing. */
  lemma {:induction false} MergeIsIdempotent(defaults: Value, supplied: Value)
    ensures Merged(Merged(defaults, supplied), supplied) == Merged(defaults, supplied)
    decreases supplied
  {
    hide Merge;
    if supplied.Object? && defaults.Object? {
      var once := Merged(defaults, supplied);
      MergedField(defaults, supplied, "");
      forall k
        ensures At(Merged(once, supplied).fields, k) == At(once.fields, k)
      {
        MergedField(defaults, supplied, k);
        MergedField(once, supplied, k);
        if k in supplied.fields {
          if k in defaults.fields {
            MergeIsIdempotent(defaults.fields[k], supplied.fields[k]);
          } else {
            MergeWithItself(supplied.fields[k]);
          }
        }
      }
      SameFields(Merged(once, supplied).fields, once.fields);
    } else {
      MergeWithItself(supplied);
    }
  }

  lemma SameFields(a: Fields, b: Fields)
    requires forall k :: At(a, k) == At(b, k)
    ensures a == b
  {
    forall k ensures k in a <==> k in b {
      assert At(a, k) == At(b, k);
    }
    forall k | k in a ensures a[k] == b[k] {
      assert At(a, k) == At(b, k);
    }
  }

  lemma {:induction false} MergeWithItself(supplied: Value)
    ensures Merged(supplied, supplied) == supplied
  {
    hide Merge;
    if supplied.Object? {
      MergedField(supplied, supplied, "");
      forall k
        ensures At(Merged(supplied, supplied).fields, k) == At(supplied.fields, k)
      {
        MergedField(supplied, supplied, k);
        if k in supplied.fields {
          MergeWithItself(supplied.fields[k]);
        }
      }
      SameFields(Merged(supplied, supplied).fields, supplied.fields);
    }
  }

  /** Merging canonical trees gives a canonical tree. */
  lemma {:induction false} MergeIsCanonical(defaults: Value, supplied: Value)
    requires Numbers(defaults, IsCanonicalNumber) && Numbers(supplied, IsCanonicalNumber)
    ensures Numbers(Merged(defaults, supplied), IsCanonicalNumber)
    decreases supplied
  {
    hide Merge;
    if defaults.Object? && supplied.Object? {
      MergedField(defaults, supplied, "");
      var merged := Merged(defaults, supplied).fields;
      forall k | k in merged
        ensures Numbers(merged[k], IsCanonicalNumber)
      {
        MergedField(defaults, supplied, k);
        if k in supplied.fields && k in defaults.fields {
          MergeIsCanonical(defaults.fields[k], supplied.fields[k]);
        }
      }
    }
  }

  // ----- resolve_parameters -----

  datatype ResolutionError<E> =
    | DefaultsMustBeObject
    | ParametersMustBeObject
    | CanonicalJson(violation: Violation)
    | Validation(error: E)

  /** Resolution of canonical parameters. The merged tree never leaves the domain
      and is not changed by normalisation. */
  method ResolveParameters<E>(validate: Value -> Option<E>, defaults: Option<Value>, supplied: Value)
    returns (result: Result<Value, ResolutionError<E>>)
    requires Numbers(supplied, IsCanonicalNumber) && (defaults.Some? ==> Numbers(defaults.value, IsCanonicalNumber))
    ensures
      if !supplied.Object? then result == Err(ParametersMustBeObject)
      else if defaults.Some? && !defaults.value.Object? then result == Err(DefaultsMustBeObject)
      else
        var merged := if defaults.Some? then Merged(defaults.value, supplied) else supplied;
        && Numbers(merged, IsCanonicalNumber)
        && result == match validate(merged) case Some(e) => Err(Validation(e)) case None => Ok(merged)
  {
    hide Merge;
    if !supplied.Object? {
      return Err(ParametersMustBeObject);
    }
    var resolved: Fields := map[];
    if defaults.Some? {
      if !defaults.value.Object? {
        return Err(DefaultsMustBeObject);
      }
      resolved := defaults.value.fields;
      MergeIsCanonical(defaults.value, supplied);
    } else {
      MergeIntoNothing(supplied);
    }
    resolved := MergeObjects(resolved, supplied);
    CanonicalIffFixed(Object(resolved));
    InDomainIsNumber(Object(resolved));
    var normalized := NormalizeValue(Object(resolved));
    match normalized
    case Err(violation) => result := Err(CanonicalJson(violation));
    case Ok(value) =>
      var failure := validate(value);
      result := if failure.Some? then Err(Validation(failure.value)) else Ok(value);
  }

  lemma MergeIntoNothing(supplied: Value)
    requires supplied.Object?
    ensures Merge(map[], supplied) == supplied.fields
  {}

  lemma {:induction false} InDomainIsNumber(v: Value)
    requires Numbers(v, InDomain)
    ensures Numbers(v, IsNumber)
  {
    match v
    case Array(vs) =>
      forall i | 0 <= i < |vs| ensures Numbers(vs[i], IsNumber) {
        InDomainIsNumber(vs[i]);
      }
    case Object(fields) =>
      forall k | k in fields ensures Numbers(fields[k], IsNumber) {
        InDomainIsNumber(fields[k]);
      }
    case _ =>
  }
}
