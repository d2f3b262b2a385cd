/** Normalisation of schema URIs from src/core/schema.rs, over any way of resolving
    a reference against a base. */
module SchemaUris {
  import opened Json
  import opened Keys
  import opened Wrappers

  type Resolver = (string, string) -> Result<string, string>

  /** How the value of a keyword is traversed. */
  datatype Kind = SchemaMap | SchemaList | OneSchema | Literal

  function KindOf(keyword: string): Kind {
    if keyword in {"$defs", "definitions", "dependentSchemas", "patternProperties", "properties"} then SchemaMap
    else if keyword in {"allOf", "anyOf", "oneOf", "prefixItems"} then SchemaList
    else if keyword in {"additionalProperties", "unevaluatedProperties", "propertyNames", "items", "contains",
                        "unevaluatedItems", "not", "if", "then", "else", "contentSchema"} then OneSchema
    else Literal
  }

  type Fields = map<string, Value>

  function Text(fields: Fields, keyword: string): Option<string> {
    if keyword in fields && fields[keyword].String? then Some(fields[keyword].text) else None
  }

  function IsReference(keyword: string): bool {
    keyword == "$ref" || keyword == "$dynamicRef"
  }

  /** The base inside an object: its resolved $id, or the base around it. */
  function BaseOf(resolve: Resolver, fields: Fields, base: string): Result<string, string> {
    match Text(fields, "$id")
    case None => Ok(base)
    case Some(id) => resolve(id, base)
  }

  predicate IsLocal(reference: string) {
    reference != "" && reference[0] == '#'
  }

  /** The part of a URI before its first #. */
  function WithoutFragment(uri: string): string {
    if uri == "" || uri[0] == '#' then "" else [uri[0]] + WithoutFragment(uri[1..])
  }

  // ----- what normalisation does to a document -----

  /** Every $id and reference that is reached can be resolved. */
  ghost predicate Resolves(resolve: Resolver, v: Value, base: string)
    decreases v, 0
  {
    v.Object? ==>
      && BaseOf(resolve, v.fields, base).Ok?
      && (forall k :: IsReference(k) && Text(v.fields, k).Some? ==>
            resolve(Text(v.fields, k).value, BaseOf(resolve, v.fields, base).value).Ok?)
      && (forall k :: k in v.fields ==>
            ChildResolves(resolve, KindOf(k), v.fields[k], BaseOf(resolve, v.fields, base).value))
  }

  ghost predicate ChildResolves(resolve: Resolver, kind: Kind, child: Value, base: string)
    decreases child, 1
  {
    match kind
    case SchemaMap => child.Object? ==> forall n :: n in child.fields ==> Resolves(resolve, child.fields[n], base)
    case SchemaList =>
      child.Array? ==> forall i :: 0 <= i < |child.elements| ==> Resolves(resolve, child.elements[i], base)
    case OneSchema => Resolves(resolve, child, base)
    case Literal => true
  }

  /** A local fragment is kept: it belongs to its schema whatever that is called. */
  function ReferenceText(resolve: Resolver, reference: string, base: string): string
    requires resolve(reference, base).Ok?
  {
    if IsLocal(reference) then reference else resolve(reference, base).value
  }

  /** The normalised document. */
  ghost function Normalized(resolve: Resolver, v: Value, base: string): Value
    requires Resolves(resolve, v, base)
    decreases v, 0
  {
    if !v.Object? then v
    else
      var inner := BaseOf(resolve, v.fields, base).value;
      Object(map k | k in v.fields ::
        if k == "$id" && v.fields[k].String? then String(inner)
        else if IsReference(k) && v.fields[k].String? then
          String(ReferenceText(resolve, v.fields[k].text, inner))
        else NormalizedChild(resolve, KindOf(k), v.fields[k], inner))
  }

  ghost function NormalizedChild(resolve: Resolver, kind: Kind, child: Value, base: string): Value
    requires ChildResolves(resolve, kind, child, base)
    decreases child, 1
  {
    match kind
    case SchemaMap =>
      if child.Object? then Object(map n | n in child.fields :: Normalized(resolve, child.fields[n], base)) else child
    case SchemaList =>
      if child.Array? then
        Array(seq(|child.elements|,
                  i requires 0 <= i < |child.elements| => Normalized(resolve, child.elements[i], base)))
      else child
    case OneSchema => Normalized(resolve, child, base)
    case Literal => child
  }

  datatype Role = Identifier | Reference

  /** The object itself, apart from its subschemas, mentions the URI: as its
      identifier, or as a reference without its fragment. */
  ghost predicate MentionsHere(resolve: Resolver, role: Role, fields: Fields, inner: string, uri: string)
    requires forall k :: IsReference(k) && Text(fields, k).Some? ==> resolve(Text(fields, k).value, inner).Ok?
  {
    match role
    case Identifier => Text(fields, "$id").Some? && uri == inner
    case Reference =>
      exists k ::
        IsReference(k) && Text(fields, k).Some? && uri == WithoutFragment(resolve(Text(fields, k).value, inner).value)
  }

  /** The document mentions the URI in this role somewhere. */
  ghost predicate Mentions(resolve: Resolver, role: Role, v: Value, base: string, uri: string)
    requires Resolves(resolve, v, base)
    decreases v, 0
  {
    v.Object? &&
    var inner := BaseOf(resolve, v.fields, base).value;
    || MentionsHere(resolve, role, v.fields, inner, uri)
    || exists k :: k in v.fields && ChildMentions(resolve, role, KindOf(k), v.fields[k], inner, uri)
  }

  ghost predicate ChildMentions(resolve: Resolver, role: Role, kind: Kind, child: Value, base: string, uri: string)
    requires ChildResolves(resolve, kind, child, base)
    decreases child, 1
  {
    match kind
    case SchemaMap =>
      child.Object? && exists n :: n in child.fields && Mentions(resolve, role, child.fields[n], base, uri)
    case SchemaList =>
      child.Array? && exists i :: 0 <= i < |child.elements| && Mentions(resolve, role, child.elements[i], base, uri)
    case OneSchema => Mentions(resolve, role, child, base, uri)
    case Literal => false
  }

  // ----- literal data plays no part -----

  /** Two documents that differ only where no schema keyword leads. */
  ghost predicate SameSchema(v: Value, w: Value)
    decreases v, 0
  {
    if !v.Object? || !w.Object? then !v.Object? && !w.Object?
    else
      && (forall k :: k == "$id" || IsReference(k) ==> Text(v.fields, k) == Text(w.fields, k))
      && (forall k :: KindOf(k) != Literal ==> (k in v.fields <==> k in w.fields))
      && (forall k :: k in v.fields && k in w.fields ==> SameChild(KindOf(k), v.fields[k], w.fields[k]))
  }

  ghost predicate SameChild(kind: Kind, v: Value, w: Value)
    decreases v, 1
  {
    match kind
    case SchemaMap =>
      if !v.Object? || !w.Object? then !v.Object? && !w.Object?
      else v.fields.Keys == w.fields.Keys && forall n :: n in v.fields ==> SameSchema(v.fields[n], w.fields[n])
    case SchemaList =>
      if !v.Array? || !w.Array? then !v.Array? && !w.Array?
      else
        |v.elements| == |w.elements|
        && forall i :: 0 <= i < |v.elements| ==> SameSchema(v.elements[i], w.elements[i])
    case OneSchema => SameSchema(v, w)
    case Literal => true
  }

  /** Documents that differ only in literal data resolve alike and mention the
      same URIs. */
  lemma {:induction false} LiteralsDoNotMatter(resolve: Resolver, v: Value, w: Value, base: string)
    requires SameSchema(v, w)
    ensures Resolves(resolve, v, base) <==> Resolves(resolve, w, base)
    ensures Resolves(resolve, v, base) ==>
              forall role, uri :: Mentions(resolve, role, v, base, uri) <==> Mentions(resolve, role, w, base, uri)
    decreases v, 0
  {
    if v.Object? {
      IdIsLiteral();
      assert BaseOf(resolve, v.fields, base) == BaseOf(resolve, w.fields, base);
      if BaseOf(resolve, v.fields, base).Ok? {
        var inner := BaseOf(resolve, v.fields, base).value;
        forall k | k in v.fields && k in w.fields
          ensures
            ChildResolves(resolve, KindOf(k), v.fields[k], inner) <==>
              ChildResolves(resolve, KindOf(k), w.fields[k], inner)
          ensures ChildResolves(resolve, KindOf(k), v.fields[k], inner) ==>
                    forall role, uri :: ChildMentions(resolve, role, KindOf(k), v.fields[k], inner, uri) <==>
                                        ChildMentions(resolve, role, KindOf(k), w.fields[k], inner, uri)
        {
          LiteralsDoNotMatterBelow(resolve, KindOf(k), v.fields[k], w.fields[k], inner);
        }
        OtherKeywords(resolve, v.fields, w.fields, inner);
        OtherKeywords(resolve, w.fields, v.fields, inner);
      }
    }
  }

  lemma IdIsLiteral()
    ensures KindOf("$id") == Literal && !IsReference("$id") && forall k :: IsReference(k) ==> KindOf(k) == Literal
  {}

  /** Keywords that only one of the documents has are literal. */
  lemma OtherKeywords(resolve: Resolver, v: Fields, w: Fields, inner: string)
    requires forall k :: KindOf(k) != Literal && k in v ==> k in w
    ensures forall k :: k in v && k !in w ==> ChildResolves(resolve, KindOf(k), v[k], inner)
    ensures forall k, role, uri :: k in v && k !in w ==> !ChildMentions(resolve, role, KindOf(k), v[k], inner, uri)
  {
    hide KindOf;
  }

  lemma {:induction false} LiteralsDoNotMatterBelow(resolve: Resolver, kind: Kind, v: Value, w: Value, base: string)
    requires SameChild(kind, v, w)
    ensures ChildResolves(resolve, kind, v, base) <==> ChildResolves(resolve, kind, w, base)
    ensures ChildResolves(resolve, kind, v, base) ==>
              forall role, uri :: ChildMentions(resolve, role, kind, v, base, uri) <==>
                ChildMentions(resolve, role, kind, w, base, uri)
    decreases v, 1
  {
    match kind
    case SchemaMap =>
      if v.Object? {
        forall n | n in v.fields
          ensures Resolves(resolve, v.fields[n], base) <==> Resolves(resolve, w.fields[n], base)
          ensures Resolves(resolve, v.fields[n], base) ==>
                    forall role, uri :: Mentions(resolve, role, v.fields[n], base, uri) <==>
                      Mentions(resolve, role, w.fields[n], base, uri)
        {
          LiteralsDoNotMatter(resolve, v.fields[n], w.fields[n], base);
        }
      }
    case SchemaList =>
      if v.Array? {
        forall i | 0 <= i < |v.elements|
          ensures Resolves(resolve, v.elements[i], base) <==> Resolves(resolve, w.elements[i], base)
          ensures Resolves(resolve, v.elements[i], base) ==>
                    forall role, uri :: Mentions(resolve, role, v.elements[i], base, uri) <==>
                                        Mentions(resolve, role, w.elements[i], base, uri)
        {
          LiteralsDoNotMatter(resolve, v.elements[i], w.elements[i], base);
        }
      }
    case OneSchema => LiteralsDoNotMatter(resolve, v, w, base);
    case Literal =>
  }

  // ----- normalising twice -----

  /** Resolving what resolution gave changes nothing, as section 5.2 of RFC 3986
      makes it for absolute URIs. */
  ghost predicate Stable(resolve: Resolver) {
    forall reference, base :: resolve(reference, base).Ok? ==>
      resolve(resolve(reference, base).value, base) == resolve(reference, base)
  }

  /** A normalised document normalises to itself under the same base and still
      mentions the same URIs. */
  lemma {:induction false} NormalizedIsFixed(resolve: Resolver, v: Value, base: string)
    requires Stable(resolve) && Resolves(resolve, v, base)
    ensures
      var normal := Normalized(resolve, v, base);
      && Resolves(resolve, normal, base) && Normalized(resolve, normal, base) == normal
      && forall role, uri :: Mentions(resolve, role, normal, base, uri) <==> Mentions(resolve, role, v, base, uri)
    decreases v, 0
  {
    hide KindOf;
    if v.Object? {
      IdIsLiteral();
      var normal := Normalized(resolve, v, base);
      var inner := BaseOf(resolve, v.fields, base).value;
      NormalizedStrings(resolve, v, base);
      forall k | k in v.fields
        ensures ChildResolves(resolve, KindOf(k), normal.fields[k], inner)
        ensures NormalizedChild(resolve, KindOf(k), normal.fields[k], inner) == normal.fields[k]
        ensures forall role, uri :: ChildMentions(resolve, role, KindOf(k), normal.fields[k], inner, uri) <==>
                                    ChildMentions(resolve, role, KindOf(k), v.fields[k], inner, uri)
      {
        if KindOf(k) != Literal {
          NormalizedChildIsFixed(resolve, KindOf(k), v.fields[k], inner);
        }
      }
      SameNormalFields(resolve, normal, base);
    }
  }

  /** The strings of a normalised object: its base is the same, and so are the
      URIs it mentions itself. */
  lemma NormalizedStrings(resolve: Resolver, v: Value, base: string)
    requires Stable(resolve) && Resolves(resolve, v, base) && v.Object?
    ensures
      var normal := Normalized(resolve, v, base);
      var inner := BaseOf(resolve, v.fields, base).value;
      && normal.Object? && normal.fields.Keys == v.fields.Keys
      && BaseOf(resolve, normal.fields, base) == Ok(inner)
      && (Text(normal.fields, "$id") == if Text(v.fields, "$id").Some? then Some(inner) else None)
      && (forall k :: IsReference(k) ==> (Text(normal.fields, k).Some? <==> Text(v.fields, k).Some?))
      && (forall k :: IsReference(k) && Text(v.fields, k).Some? ==>
            && resolve(Text(normal.fields, k).value, inner) == resolve(Text(v.fields, k).value, inner)
            && (Text(normal.fields, k) == Some(if IsLocal(Text(v.fields, k).value) then Text(v.fields, k).value
                                               else resolve(Text(v.fields, k).value, inner).value)))
  {
    IdIsLiteral();
  }

  lemma SameNormalFields(resolve: Resolver, normal: Value, base: string)
    requires normal.Object? && Resolves(resolve, normal, base)
    requires
      var inner := BaseOf(resolve, normal.fields, base).value;
      && (Text(normal.fields, "$id").Some? ==> Text(normal.fields, "$id").value == inner)
      && (forall k :: IsReference(k) && Text(normal.fields, k).Some? ==>
            IsLocal(Text(normal.fields, k).value)
            || resolve(Text(normal.fields, k).value, inner).value == Text(normal.fields, k).value)
      && (forall k :: k in normal.fields ==>
            NormalizedChild(resolve, KindOf(k), normal.fields[k], inner) == normal.fields[k])
    ensures Normalized(resolve, normal, base) == normal
  {
    hide KindOf;
    hide NormalizedChild;
    assert Normalized(resolve, normal, base).fields == normal.fields;
  }

  lemma {:induction false} NormalizedChildIsFixed(resolve: Resolver, kind: Kind, child: Value, base: string)
    requires Stable(resolve) && ChildResolves(resolve, kind, child, base)
    ensures
      var normal := NormalizedChild(resolve, kind, child, base);
      && ChildResolves(resolve, kind, normal, base) && NormalizedChild(resolve, kind, normal, base) == normal
      && forall role, uri :: ChildMentions(resolve, role, kind, normal, base, uri) <==>
           ChildMentions(resolve, role, kind, child, base, uri)
    decreases child, 1
  {
    hide Stable;
    match kind
    case SchemaMap =>
      if child.Object? {
        var normal := NormalizedChild(resolve, kind, child, base);
        forall n | n in child.fields
          ensures
            Resolves(resolve, normal.fields[n], base) && Normalized(resolve, normal.fields[n], base) == normal.fields[n]
          ensures forall role, uri :: Mentions(resolve, role, normal.fields[n], base, uri) <==>
                                      Mentions(resolve, role, child.fields[n], base, uri)
        {
          NormalizedIsFixed(resolve, child.fields[n], base);
        }
        assert NormalizedChild(resolve, kind, normal, base).fields == normal.fields;
      }
    case SchemaList =>
      if child.Array? {
        var normal := NormalizedChild(resolve, kind, child, base);
        forall i | 0 <= i < |child.elements|
          ensures
            Resolves(resolve, normal.elements[i], base)
            && Normalized(resolve, normal.elements[i], base) == normal.elements[i]
          ensures forall role, uri :: Mentions(resolve, role, normal.elements[i], base, uri) <==>
                                      Mentions(resolve, role, child.elements[i], base, uri)
        {
          NormalizedIsFixed(resolve, child.elements[i], base);
        }
        assert NormalizedChild(resolve, kind, normal, base).elements == normal.elements;
      }
    case OneSchema => NormalizedIsFixed(resolve, child, base);
    case Literal =>
  }

  // ----- the first URI that does not resolve -----

  /** The failure of the object's own references, $ref before $dynamicRef. */
  function ReferenceFault(resolve: Resolver, fields: Fields, inner: string): Option<string> {
    if Text(fields, "$ref").Some? && resolve(Text(fields, "$ref").value, inner).Err? then
      Some(resolve(Text(fields, "$ref").value, inner).error)
    else if Text(fields, "$dynamicRef").Some? && resolve(Text(fields, "$dynamicRef").value, inner).Err? then
      Some(resolve(Text(fields, "$dynamicRef").value, inner).error)
    else None
  }

  /** The message of the first $id or reference reached that does not resolve: an
      object's own $id, its references, then its subschemas in key order. */
  ghost predicate FirstUnresolved(resolve: Resolver, v: Value, base: string, message: string)
    decreases v, 1
  {
    v.Object? &&
    if BaseOf(resolve, v.fields, base).Err? then message == BaseOf(resolve, v.fields, base).error
    else
      var inner := BaseOf(resolve, v.fields, base).value;
      if ReferenceFault(resolve, v.fields, inner).Some? then message == ReferenceFault(resolve, v.fields, inner).value
      else ChildrenUnresolved(resolve, v, inner, message)
  }

  ghost predicate ChildrenUnresolved(resolve: Resolver, v: Value, inner: string, message: string)
    requires v.Object?
    decreases v, 0
  {
    var keys := KeysOf(v.fields.Keys);
    exists i ::
      && 0 <= i < |keys| && keys[i] in v.fields
      && ChildUnresolved(resolve, KindOf(keys[i]), v.fields[keys[i]], inner, message)
      && forall j :: 0 <= j < i ==>
           keys[j] in v.fields && ChildResolves(resolve, KindOf(keys[j]), v.fields[keys[j]], inner)
  }

  ghost predicate ChildUnresolved(resolve: Resolver, kind: Kind, child: Value, base: string, message: string)
    decreases child, 2
  {
    match kind
    case SchemaMap =>
      child.Object? &&
      var names := KeysOf(child.fields.Keys);
      exists i ::
        && 0 <= i < |names| && names[i] in child.fields
        && FirstUnresolved(resolve, child.fields[names[i]], base, message)
        && forall j :: 0 <= j < i ==> names[j] in child.fields && Resolves(resolve, child.fields[names[j]], base)
    case SchemaList =>
      child.Array? &&
      exists i ::
        && 0 <= i < |child.elements| && FirstUnresolved(resolve, child.elements[i], base, message)
        && forall j :: 0 <= j < i ==> Resolves(resolve, child.elements[j], base)
    case OneSchema => FirstUnresolved(resolve, child, base, message)
    case Literal => false
  }

  // ----- normalize_schema_uris -----

  class SchemaResources {
    const resolve: Resolver
    var identifiers: set<string>
    var references: set<string>

    /** The resources of a schema start with its own repository URI. */
    constructor (resolver: Resolver, uri: string)
      ensures resolve == resolver && identifiers == {uri} && references == {}
    {
      resolve := resolver;
      identifiers := {uri};
      references := {};
    }

    ghost function Collected(role: Role): set<string>
      reads this
    {
      if role.Identifier? then identifiers else references
    }

    method Normalize(v: Value, base: string) returns (result: Result<Value, string>)
      modifies this
      ensures result.Ok? <==> Resolves(resolve, v, base)
      ensures result.Ok? ==> result.value == Normalized(resolve, v, base)
      ensures result.Ok? ==> forall role, uri ::
                uri in Collected(role) <==> uri in old(Collected(role)) || Mentions(resolve, role, v, base, uri)
      ensures result.Err? ==> FirstUnresolved(resolve, v, base, result.error)
      decreases v, 1, 1
    {
      hide KindOf;
      hide ChildResolves;
      hide NormalizedChild;
      hide ChildMentions;
      hide ChildrenUnresolved;
      hide FirstUnresolved;
      hide Resolves;
      hide Mentions;
      hide MentionsHere;
      hide OwnResolves;
      hide Normalized;
      hide ReferenceText;
      hide ReferenceFault;
      hide BaseOf;
      if !v.Object? {
        NotAnObject(resolve, v, base);
        return Ok(v);
      }
      IdIsLiteral();
      ResolvesObject(resolve, v, base);
      var own := NormalizeOwn(v.fields, base);
      if own.Err? {
        UnresolvedObject(resolve, v, base, own.error);
        return Err(own.error);
      }
      var (fields, inner) := own.value;
      var normal := NormalizeChildren(v, inner, fields);
      if normal.Err? {
        NoReferenceFault(resolve, v.fields, base);
        UnresolvedObject(resolve, v, base, normal.error);
        return Err(normal.error);
      }
      NormalFields(resolve, v, base, inner, normal.value);
      MentionsObject(resolve, v, base);
      result := Ok(Object(normal.value));
    }

    /** What an object says itself: its $id, then its references. */
    method NormalizeOwn(own: Fields, base: string) returns (result: Result<(Fields, string), string>)
      modifies this
      ensures result.Ok? <==> OwnResolves(resolve, own, base)
      ensures result.Ok? ==> BaseOf(resolve, own, base) == Ok(result.value.1) && result.value.0.Keys == own.Keys
      ensures result.Ok? ==> forall k :: k in own ==>
                result.value.0[k] ==
                if k == "$id" && own[k].String? then String(result.value.1)
                else if IsReference(k) && own[k].String? then
                  String(ReferenceText(resolve, own[k].text, result.value.1))
                else own[k]
      ensures result.Ok? ==> forall role, uri ::
                uri in Collected(role) <==>
                uri in old(Collected(role)) || MentionsHere(resolve, role, own, result.value.1, uri)
      ensures result.Err? ==>
                if BaseOf(resolve, own, base).Err? then BaseOf(resolve, own, base).error == result.error
                else ReferenceFault(resolve, own, BaseOf(resolve, own, base).value) == Some(result.error)
    {
      hide WithoutFragment;
      hide ReferenceText;
      hide ReferenceFault;
      hide BaseOf;
      hide KindOf;
      IdIsLiteral();
      var identified := NormalizeId(own, base);
      if identified.Err? {
        return Err(identified.error);
      }
      var (fields, inner) := identified.value;
      var referenced := NormalizeReferences(own, fields, inner);
      if referenced.Err? {
        return Err(referenced.error);
      }
      result := Ok((referenced.value, inner));
    }

    /** The $id of an object, which becomes the base inside it. */
    method NormalizeId(own: Fields, base: string) returns (result: Result<(Fields, string), string>)
      modifies this
      ensures references == old(references)
      ensures result.Ok? <==> BaseOf(resolve, own, base).Ok?
      ensures result.Ok? ==> result.value.1 == BaseOf(resolve, own, base).value && result.value.0.Keys == own.Keys
      ensures result.Ok? ==> forall k :: k in own ==>
                result.value.0[k] == if k == "$id" && own[k].String? then String(result.value.1) else own[k]
      ensures result.Ok? ==> identifiers == old(identifiers) + if Text(own, "$id").Some? then {result.value.1} else {}
      ensures result.Err? ==> BaseOf(resolve, own, base) == Err(result.error)
    {
      if Text(own, "$id").None? {
        return Ok((own, base));
      }
      var id := resolve(own["$id"].text, base);
      match id
      case Err(message) => result := Err(message);
      case Ok(uri) =>
        identifiers := identifiers + {uri};
        result := Ok((own["$id" := String(uri)], uri));
    }

    /** The two reference keywords of an object, one after the other. */
    method NormalizeReferences(own: Fields, fields: Fields, inner: string) returns (result: Result<Fields, string>)
      requires fields.Keys == own.Keys && forall k :: IsReference(k) && k in own ==> fields[k] == own[k]
      modifies this
      ensures identifiers == old(identifiers)
      ensures
        result.Ok? <==> forall k :: IsReference(k) && Text(own, k).Some? ==> resolve(Text(own, k).value, inner).Ok?
      ensures result.Ok? ==> forall uri ::
                uri in references <==> uri in old(references) || MentionsHere(resolve, Reference, own, inner, uri)
      ensures result.Ok? ==> result.value.Keys == own.Keys && forall k :: k in own ==>
                result.value[k] ==
                if IsReference(k) && own[k].String? then String(ReferenceText(resolve, own[k].text, inner))
                else fields[k]
      ensures result.Err? ==> ReferenceFault(resolve, own, inner) == Some(result.error)
    {
      hide WithoutFragment;
      hide KindOf;
      hide ReferenceText;
      hide MentionsHere;
      assert IsReference("$ref") && IsReference("$dynamicRef");
      ReferencesMentioned(resolve, own, inner);
      result := NormalizeReference("$ref", fields, inner);
      if result.Err? {
        return;
      }
      result := NormalizeReference("$dynamicRef", result.value, inner);
    }

    method NormalizeReference(keyword: string, fields: Fields, inner: string) returns (result: Result<Fields, string>)
      modifies this
      ensures identifiers == old(identifiers)
      ensures
        if Text(fields, keyword).None? then result == Ok(fields) && references == old(references)
        else
          var reference := Text(fields, keyword).value;
          var resolved := resolve(reference, inner);
          if resolved.Err? then result == Err(resolved.error)
          else
            && result == Ok(fields[keyword := String(ReferenceText(resolve, reference, inner))])
            && references == old(references) + {WithoutFragment(resolved.value)}
    {
      if Text(fields, keyword).None? {
        return Ok(fields);
      }
      var reference := fields[keyword].text;
      var resolved := resolve(reference, inner);
      if resolved.Err? {
        return Err(resolved.error);
      }
      references := references + {WithoutFragment(resolved.value)};
      assert fields[keyword := String(reference)] == fields;
      result := Ok(if IsLocal(reference) then fields else fields[keyword := String(resolved.value)]);
    }

    /** The subschemas of an object, in the order of its keys. */
    method NormalizeChildren(v: Value, inner: string, fields: Fields) returns (result: Result<Fields, string>)
      requires v.Object? && fields.Keys == v.fields.Keys
      requires forall k :: k in fields && KindOf(k) != Literal ==> fields[k] == v.fields[k]
      modifies this
      ensures result.Ok? <==> forall k :: k in v.fields ==> ChildResolves(resolve, KindOf(k), v.fields[k], inner)
      ensures result.Ok? ==> result.value.Keys == v.fields.Keys && forall k :: k in fields ==>
                result.value[k] ==
                if KindOf(k) == Literal then fields[k] else NormalizedChild(resolve, KindOf(k), v.fields[k], inner)
      ensures result.Ok? ==> forall role, uri ::
                uri in Collected(role) <==>
                || uri in old(Collected(role))
                || exists k :: k in v.fields && ChildMentions(resolve, role, KindOf(k), v.fields[k], inner, uri)
      ensures result.Err? ==> ChildrenUnresolved(resolve, v, inner, result.error)
      decreases v, 1, 0
    {
      hide KindOf;
      hide ChildResolves;
      hide NormalizedChild;
      hide ChildMentions;
      hide KeysOf;
      hide Ascending;
      var keys := SortKeys(fields.Keys);
      var rewritten := fields;
      for i := 0 to |keys|
        invariant rewritten.Keys == fields.Keys
        invariant forall k :: k in fields && k in keys[..i] ==> ChildResolves(resolve, KindOf(k), v.fields[k], inner)
        invariant forall k :: k in fields ==>
          rewritten[k] ==
          if k in keys[..i] && KindOf(k) != Literal then NormalizedChild(resolve, KindOf(k), v.fields[k], inner)
          else fields[k]
        invariant forall role, uri :: uri in Collected(role) <==>
          || uri in old(Collected(role))
          || exists k ::
               k in fields && k in keys[..i] && ChildMentions(resolve, role, KindOf(k), v.fields[k], inner, uri)
      {
        var key := keys[i];
        assert key in keys;
        assert keys[..i + 1] == keys[..i] + [key];
        if KindOf(key) != Literal {
          NotYet(keys, fields.Keys, i);
          var child := NormalizeChild(KindOf(key), v.fields[key], inner);
          if child.Err? {
            return Err(child.error);
          }
          rewritten := rewritten[key := child.value];
        } else {
          LiteralChild(resolve, v.fields[key], inner);
        }
      }
      assert keys[..|keys|] == keys;
      assert forall k :: k in fields <==> k in keys;
      result := Ok(rewritten);
    }

    method NormalizeChild(kind: Kind, child: Value, base: string) returns (result: Result<Value, string>)
      modifies this
      ensures result.Ok? <==> ChildResolves(resolve, kind, child, base)
      ensures result.Ok? ==> result.value == NormalizedChild(resolve, kind, child, base)
      ensures result.Ok? ==> forall role, uri ::
                uri in Collected(role) <==>
                  uri in old(Collected(role)) || ChildMentions(resolve, role, kind, child, base, uri)
      ensures result.Err? ==> ChildUnresolved(resolve, kind, child, base, result.error)
      decreases child, 2, 1
    {
      hide Resolves;
      hide Normalized;
      hide Mentions;
      match kind
      case SchemaMap =>
        if child.Object? {
          result := NormalizeMap(child, base);
        } else {
          result := Ok(child);
        }
      case SchemaList =>
        if child.Array? {
          result := NormalizeList(child, base);
        } else {
          result := Ok(child);
        }
      case OneSchema => result := Normalize(child, base);
      case Literal => result := Ok(child);
    }

    method NormalizeMap(child: Value, base: string) returns (result: Result<Value, string>)
      requires child.Object?
      modifies this
      ensures result.Ok? <==> ChildResolves(resolve, SchemaMap, child, base)
      ensures result.Ok? ==> result.value == NormalizedChild(resolve, SchemaMap, child, base)
      ensures result.Ok? ==> forall role, uri ::
                uri in Collected(role) <==>
                  uri in old(Collected(role)) || ChildMentions(resolve, role, SchemaMap, child, base, uri)
      ensures result.Err? ==> ChildUnresolved(resolve, SchemaMap, child, base, result.error)
      decreases child, 2, 0
    {
      hide Resolves;
      hide Normalized;
      hide Mentions;
      hide KeysOf;
      hide Ascending;
      var names := SortKeys(child.fields.Keys);
      var children := child.fields;
      for i := 0 to |names|
        invariant children.Keys == child.fields.Keys
        invariant forall n :: n in children && n in names[..i] ==> Resolves(resolve, child.fields[n], base)
        invariant forall n :: n in children ==>
          children[n] == if n in names[..i] then Normalized(resolve, child.fields[n], base) else child.fields[n]
        invariant forall role, uri :: uri in Collected(role) <==>
          || uri in old(Collected(role))
          || exists n :: n in children && n in names[..i] && Mentions(resolve, role, child.fields[n], base, uri)
      {
        var name := names[i];
        assert name in names;
        assert names[..i + 1] == names[..i] + [name];
        var schema := Normalize(child.fields[name], base);
        if schema.Err? {
          return Err(schema.error);
        }
        children := children[name := schema.value];
      }
      assert names[..|names|] == names;
      assert forall n :: n in children <==> n in names;
      result := Ok(Object(children));
    }

    method NormalizeList(child: Value, base: string) returns (result: Result<Value, string>)
      requires child.Array?
      modifies this
      ensures result.Ok? <==> ChildResolves(resolve, SchemaList, child, base)
      ensures result.Ok? ==> result.value == NormalizedChild(resolve, SchemaList, child, base)
      ensures result.Ok? ==> forall role, uri ::
                uri in Collected(role) <==>
                  uri in old(Collected(role)) || ChildMentions(resolve, role, SchemaList, child, base, uri)
      ensures result.Err? ==> ChildUnresolved(resolve, SchemaList, child, base, result.error)
      decreases child, 2, 0
    {
      hide Resolves;
      hide Normalized;
      hide Mentions;
      var children: seq<Value> := [];
      for i := 0 to |child.elements|
        invariant |children| == i
        invariant forall j :: 0 <= j < i ==> Resolves(resolve, child.elements[j], base)
        invariant forall j :: 0 <= j < i ==> children[j] == Normalized(resolve, child.elements[j], base)
        invariant forall role, uri :: uri in Collected(role) <==>
          || uri in old(Collected(role))
          || exists j :: 0 <= j < i && Mentions(resolve, role, child.elements[j], base, uri)
      {
        var schema := Normalize(child.elements[i], base);
        if schema.Err? {
          return Err(schema.error);
        }
        children := children + [schema.value];
      }
      result := Ok(Array(children));
    }
  }

  lemma NotAnObject(resolve: Resolver, v: Value, base: string)
    requires !v.Object?
    ensures Resolves(resolve, v, base) && Normalized(resolve, v, base) == v
    ensures forall role, uri :: !Mentions(resolve, role, v, base, uri)
  {}

  /** The $id and the references of an object resolve. */
  ghost predicate OwnResolves(resolve: Resolver, own: Fields, base: string) {
    && BaseOf(resolve, own, base).Ok?
    && forall k :: IsReference(k) && Text(own, k).Some? ==>
         resolve(Text(own, k).value, BaseOf(resolve, own, base).value).Ok?
  }

  lemma ResolvesObject(resolve: Resolver, v: Value, base: string)
    requires v.Object?
    ensures
      Resolves(resolve, v, base) <==>
      && OwnResolves(resolve, v.fields, base) && BaseOf(resolve, v.fields, base).Ok?
      && forall k :: k in v.fields ==>
           ChildResolves(resolve, KindOf(k), v.fields[k], BaseOf(resolve, v.fields, base).value)
  {
    hide KindOf;
    hide ChildResolves;
  }

  lemma NoReferenceFault(resolve: Resolver, own: Fields, base: string)
    requires OwnResolves(resolve, own, base)
    ensures BaseOf(resolve, own, base).Ok? && ReferenceFault(resolve, own, BaseOf(resolve, own, base).value) == None
  {
    assert IsReference("$ref") && IsReference("$dynamicRef");
  }

  lemma MentionsObject(resolve: Resolver, v: Value, base: string)
    requires v.Object? && Resolves(resolve, v, base)
    ensures
      var inner := BaseOf(resolve, v.fields, base).value;
      forall role, uri ::
        Mentions(resolve, role, v, base, uri) <==>
        || MentionsHere(resolve, role, v.fields, inner, uri)
        || exists k :: k in v.fields && ChildMentions(resolve, role, KindOf(k), v.fields[k], inner, uri)
  {
    hide KindOf;
    hide ChildMentions;
    hide MentionsHere;
  }

  /** What an object with sound references refers to. */
  lemma ReferencesMentioned(resolve: Resolver, own: Fields, inner: string)
    ensures
      (forall k :: IsReference(k) && Text(own, k).Some? ==> resolve(Text(own, k).value, inner).Ok?) ==>
      forall uri :: MentionsHere(resolve, Reference, own, inner, uri) <==>
        || (Text(own, "$ref").Some? && uri == WithoutFragment(resolve(Text(own, "$ref").value, inner).value))
        || (Text(own, "$dynamicRef").Some?
            && uri == WithoutFragment(resolve(Text(own, "$dynamicRef").value, inner).value))
  {
    hide WithoutFragment;
    assert IsReference("$ref") && IsReference("$dynamicRef");
  }

  lemma UnresolvedObject(resolve: Resolver, v: Value, base: string, message: string)
    requires v.Object?
    requires
      var inner := BaseOf(resolve, v.fields, base);
      if inner.Err? then message == inner.error
      else if ReferenceFault(resolve, v.fields, inner.value).Some? then
        message == ReferenceFault(resolve, v.fields, inner.value).value
      else ChildrenUnresolved(resolve, v, inner.value, message)
    ensures FirstUnresolved(resolve, v, base, message)
  {
    hide ChildrenUnresolved;
  }

  lemma LiteralChild(resolve: Resolver, child: Value, base: string)
    ensures ChildResolves(resolve, Literal, child, base)
    ensures forall role, uri :: !ChildMentions(resolve, role, Literal, child, base, uri)
  {}

  lemma NormalFields(resolve: Resolver, v: Value, base: string, inner: string, fields: Fields)
    requires
      v.Object? && Resolves(resolve, v, base) && BaseOf(resolve, v.fields, base) == Ok(inner)
      && fields.Keys == v.fields.Keys
    requires forall k :: k in fields ==>
               fields[k] ==
               if k == "$id" && v.fields[k].String? then String(inner)
               else if IsReference(k) && v.fields[k].String? then
                 String(ReferenceText(resolve, v.fields[k].text, inner))
               else if KindOf(k) == Literal then v.fields[k]
               else NormalizedChild(resolve, KindOf(k), v.fields[k], inner)
    ensures Object(fields) == Normalized(resolve, v, base)
  {
    hide KindOf;
    assert Normalized(resolve, v, base).fields == fields;
  }
}
