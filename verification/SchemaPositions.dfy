/** What the normalisation of schema URIs in src/core/schema.rs does at each place
    it reaches: independent of the recursion that visits them. */
module SchemaPositions {
  import opened Json
  import opened SchemaUris
  import opened Wrappers

  // ----- places -----

  /** One step from a schema to a subschema: through a keyword that holds named
      schemas, a list of schemas, or one schema. */
  datatype Step = Named(keyword: string, name: string) | Listed(keyword: string, index: nat) | Direct(keyword: string)

  function Subschema(v: Value, step: Step): Option<Value> {
    if !v.Object? || step.keyword !in v.fields then None
    else
      var child := v.fields[step.keyword];
      match step
      case Named(k, name) =>
        if KindOf(k) == SchemaMap && child.Object? && name in child.fields then Some(child.fields[name]) else None
      case Listed(k, i) =>
        if KindOf(k) == SchemaList && child.Array? && i < |child.elements| then Some(child.elements[i]) else None
      case Direct(k) => if KindOf(k) == OneSchema then Some(child) else None
  }

  function Follow(v: Value, path: seq<Step>): Option<Value>
    decreases |path|
  {
    if path == [] then Some(v)
    else
      match Subschema(v, path[0])
      case None => None
      case Some(child) => Follow(child, path[1..])
  }

  /** The base inside an object, spelled out. */
  function Inside(resolve: Resolver, fields: Fields, base: string): Result<string, string> {
    if "$id" in fields && fields["$id"].String? then resolve(fields["$id"].text, base) else Ok(base)
  }

  /** The schema at a place, with the base around it. */
  function ReachedAt(resolve: Resolver, v: Value, base: string, path: seq<Step>): Option<(Value, string)>
    decreases |path|
  {
    if path == [] then Some((v, base))
    else if !v.Object? || Inside(resolve, v.fields, base).Err? then None
    else
      match Subschema(v, path[0])
      case None => None
      case Some(child) => ReachedAt(resolve, child, Inside(resolve, v.fields, base).value, path[1..])
  }

  /** In a document that resolves every place is reached, its schema resolves, and
      the normalised document has that schema's normal form there. */
  lemma {:induction false} NormalizedAt(resolve: Resolver, v: Value, base: string, path: seq<Step>)
    requires Resolves(resolve, v, base)
    ensures
      var reached := ReachedAt(resolve, v, base, path);
      && (Follow(v, path).Some? <==> reached.Some?)
      && (Follow(Normalized(resolve, v, base), path).Some? <==> reached.Some?)
      && (reached.Some? ==>
            && Follow(v, path).value == reached.value.0 && Resolves(resolve, reached.value.0, reached.value.1)
            && Follow(Normalized(resolve, v, base), path).value ==
               Normalized(resolve, reached.value.0, reached.value.1))
    decreases |path|
  {
    hide KindOf;
    if path != [] && v.Object? {
      SubschemaNormalized(resolve, v, base, path[0]);
      if Subschema(v, path[0]).Some? {
        NormalizedAt(resolve, Subschema(v, path[0]).value, Inside(resolve, v.fields, base).value, path[1..]);
      }
    }
  }

  lemma SubschemaNormalized(resolve: Resolver, v: Value, base: string, step: Step)
    requires Resolves(resolve, v, base) && v.Object?
    ensures
      var inner, child, normal := Inside(resolve, v.fields, base), Subschema(v, step),
                                  Subschema(Normalized(resolve, v, base), step);
      && inner.Ok? && (normal.Some? <==> child.Some?)
      && (child.Some? ==>
            && Resolves(resolve, child.value, inner.value)
            && normal.value == Normalized(resolve, child.value, inner.value))
  {
    hide KindOf;
    IdIsLiteral();
    if step.keyword in v.fields {
      assert ChildResolves(resolve, KindOf(step.keyword), v.fields[step.keyword],
                           BaseOf(resolve, v.fields, base).value);
    }
  }

  // ----- the normal form of one schema -----

  /** A schema object keeps its keys. Its $id becomes the resolved one, a reference
      becomes the resolved one unless it starts with #, and whatever is neither
      these nor a subschema stays as it is. */
  lemma NormalizedObject(resolve: Resolver, v: Value, base: string)
    requires Resolves(resolve, v, base) && v.Object?
    ensures
      var normal, inner := Normalized(resolve, v, base), Inside(resolve, v.fields, base);
      && normal.Object? && normal.fields.Keys == v.fields.Keys && inner.Ok?
      && (forall k :: k in v.fields && k == "$id" && v.fields[k].String? ==> normal.fields[k] == String(inner.value))
      && (forall k :: k in v.fields && k in {"$ref", "$dynamicRef"} && v.fields[k].String? ==>
            var text := v.fields[k].text;
            && resolve(text, inner.value).Ok?
            && normal.fields[k] == if "#" <= text then String(text) else String(resolve(text, inner.value).value))
      && (forall k :: k in v.fields && KindOf(k) == Literal
                      && (k !in {"$id", "$ref", "$dynamicRef"} || !v.fields[k].String?) ==>
                      normal.fields[k] == v.fields[k])
  {
    IdIsLiteral();
  }

  // ----- which URIs are collected -----

  /** uri is r up to its first #. */
  predicate IsCut(r: string, uri: string) {
    '#' !in uri && (r == uri || uri + "#" <= r)
  }

  lemma {:induction false} CutMeans(r: string, uri: string)
    ensures uri == WithoutFragment(r) <==> IsCut(r, uri)
    decreases |r|
  {
    if r != "" && r[0] != '#' {
      assert r == [r[0]] + r[1..];
      if uri != "" {
        assert uri == [uri[0]] + uri[1..];
        CutMeans(r[1..], uri[1..]);
        assert uri[0] == r[0] ==> (uri + "#" <= r <==> uri[1..] + "#" <= r[1..]) by {
          assert uri + "#" == [uri[0]] + (uri[1..] + "#");
        }
      }
    }
  }

  /** The schema reached at a place is an object that mentions the URI itself. */
  ghost predicate MentionedAt(resolve: Resolver, role: Role, v: Value, base: string, path: seq<Step>, uri: string)
    requires Resolves(resolve, v, base)
  {
    NormalizedAt(resolve, v, base, path);
    var reached := ReachedAt(resolve, v, base, path);
    && reached.Some? && reached.value.0.Object?
    && MentionsHere(resolve, role, reached.value.0.fields,
                    BaseOf(resolve, reached.value.0.fields, reached.value.1).value, uri)
  }

  lemma {:induction false} PlaceIsMentioned(resolve: Resolver, role: Role, v: Value, base: string, path: seq<Step>,
                                            uri: string)
    requires Resolves(resolve, v, base) && MentionedAt(resolve, role, v, base, path, uri)
    ensures Mentions(resolve, role, v, base, uri)
    decreases |path|
  {
    hide KindOf;
    hide MentionsHere;
    if path != [] {
      var step, inner := path[0], Inside(resolve, v.fields, base).value;
      SubschemaNormalized(resolve, v, base, step);
      var child := Subschema(v, step).value;
      PlaceIsMentioned(resolve, role, child, inner, path[1..], uri);
      assert ChildMentions(resolve, role, KindOf(step.keyword), v.fields[step.keyword], inner, uri);
    }
  }

  lemma {:induction false} MentionHasPlace(resolve: Resolver, role: Role, v: Value, base: string, uri: string)
    returns (path: seq<Step>)
    requires Resolves(resolve, v, base) && Mentions(resolve, role, v, base, uri)
    ensures MentionedAt(resolve, role, v, base, path, uri)
    decreases v
  {
    hide KindOf;
    hide MentionsHere;
    var inner := BaseOf(resolve, v.fields, base).value;
    if MentionsHere(resolve, role, v.fields, inner, uri) {
      path := [];
    } else {
      var k :| k in v.fields && ChildMentions(resolve, role, KindOf(k), v.fields[k], inner, uri);
      var step := MentioningChild(resolve, role, v, k, inner, uri);
      var rest := MentionHasPlace(resolve, role, Subschema(v, step).value, inner, uri);
      path := [step] + rest;
      assert path[1..] == rest;
    }
  }

  lemma MentioningChild(resolve: Resolver, role: Role, v: Value, k: string, inner: string, uri: string)
    returns (step: Step)
    requires v.Object? && k in v.fields && ChildResolves(resolve, KindOf(k), v.fields[k], inner)
    requires ChildMentions(resolve, role, KindOf(k), v.fields[k], inner, uri)
    ensures Subschema(v, step).Some? && Subschema(v, step).value < v && step.keyword == k
    ensures Resolves(resolve, Subschema(v, step).value, inner)
    ensures Mentions(resolve, role, Subschema(v, step).value, inner, uri)
  {
    hide Resolves;
    hide Mentions;
    var child := v.fields[k];
    match KindOf(k)
    case SchemaMap =>
      var n :| n in child.fields && Mentions(resolve, role, child.fields[n], inner, uri);
      step := Named(k, n);
    case SchemaList =>
      var i: nat :| i < |child.elements| && Mentions(resolve, role, child.elements[i], inner, uri);
      step := Listed(k, i);
    case OneSchema => step := Direct(k);
  }

  /** The schema reached at a place has a string under the keyword. */
  ghost predicate SaysAt(resolve: Resolver, v: Value, base: string, path: seq<Step>, keyword: string) {
    var reached := ReachedAt(resolve, v, base, path);
    && reached.Some? && reached.value.0.Object?
    && keyword in reached.value.0.fields && reached.value.0.fields[keyword].String?
    && Inside(resolve, reached.value.0.fields, reached.value.1).Ok?
  }

  /** Resolving the reference at a place gives r, inside the base of that place. */
  ghost predicate RefersAt(resolve: Resolver, v: Value, base: string, path: seq<Step>, keyword: string, r: string) {
    && SaysAt(resolve, v, base, path, keyword)
    && var (w, around) := ReachedAt(resolve, v, base, path).value;
       resolve(w.fields[keyword].text, Inside(resolve, w.fields, around).value) == Ok(r)
  }

  /** The collected references are exactly the resolutions of the $ref and
      $dynamicRef strings reached, each cut at its first #. */
  lemma ReferencesMean(resolve: Resolver, v: Value, base: string, uri: string)
    requires Resolves(resolve, v, base)
    ensures
      Mentions(resolve, Reference, v, base, uri) <==>
      exists path, keyword, r ::
        RefersAt(resolve, v, base, path, keyword, r) && keyword in {"$ref", "$dynamicRef"} && IsCut(r, uri)
  {
    hide ReachedAt;
    hide WithoutFragment;
    hide IsCut;
    hide Mentions;
    hide Resolves;
    if Mentions(resolve, Reference, v, base, uri) {
      var path := MentionHasPlace(resolve, Reference, v, base, uri);
      NormalizedAt(resolve, v, base, path);
      var (w, around) := ReachedAt(resolve, v, base, path).value;
      PlaceInside(resolve, w, around);
      var inner := BaseOf(resolve, w.fields, around).value;
      var k :| IsReference(k) && Text(w.fields, k).Some?
               && uri == WithoutFragment(resolve(Text(w.fields, k).value, inner).value);
      var r := resolve(Text(w.fields, k).value, inner).value;
      CutMeans(r, uri);
      assert RefersAt(resolve, v, base, path, k, r);
    }
    if path, k, r :| RefersAt(resolve, v, base, path, k, r) && k in {"$ref", "$dynamicRef"} && IsCut(r, uri) {
      CutMeans(r, uri);
      NormalizedAt(resolve, v, base, path);
      var (w, around) := ReachedAt(resolve, v, base, path).value;
      PlaceInside(resolve, w, around);
      assert IsReference(k) && Text(w.fields, k).Some?;
      PlaceIsMentioned(resolve, Reference, v, base, path, uri);
    }
  }

  lemma PlaceInside(resolve: Resolver, v: Value, base: string)
    requires Resolves(resolve, v, base) && v.Object?
    ensures BaseOf(resolve, v.fields, base) == Inside(resolve, v.fields, base)
    ensures BaseOf(resolve, v.fields, base).Ok?
    ensures forall k :: IsReference(k) && Text(v.fields, k).Some? ==>
              resolve(Text(v.fields, k).value, BaseOf(resolve, v.fields, base).value).Ok?
  {}

  /** The $id at a place resolves to the URI, against the base around it. */
  ghost predicate IdentifiesAt(resolve: Resolver, v: Value, base: string, path: seq<Step>, uri: string) {
    && SaysAt(resolve, v, base, path, "$id")
    && var (w, around) := ReachedAt(resolve, v, base, path).value;
       resolve(w.fields["$id"].text, around) == Ok(uri)
  }

  /** The collected identifiers are exactly the resolutions of the $id strings
      reached. */
  lemma IdentifiersMean(resolve: Resolver, v: Value, base: string, uri: string)
    requires Resolves(resolve, v, base)
    ensures
      Mentions(resolve, Identifier, v, base, uri) <==>
      exists path :: IdentifiesAt(resolve, v, base, path, uri)
  {
    hide ReachedAt;
    hide Mentions;
    hide Resolves;
    if Mentions(resolve, Identifier, v, base, uri) {
      var path := MentionHasPlace(resolve, Identifier, v, base, uri);
      NormalizedAt(resolve, v, base, path);
      var (w, around) := ReachedAt(resolve, v, base, path).value;
      PlaceInside(resolve, w, around);
      assert IdentifiesAt(resolve, v, base, path, uri);
    }
    if path :| IdentifiesAt(resolve, v, base, path, uri) {
      NormalizedAt(resolve, v, base, path);
      var (w, around) := ReachedAt(resolve, v, base, path).value;
      PlaceInside(resolve, w, around);
      PlaceIsMentioned(resolve, Identifier, v, base, path, uri);
    }
  }

  /** Normalising a schema document leaves as references exactly the cut
      resolutions of the references reached, none of them with a fragment, and
      besides the document's own URI exactly the resolved identifiers. */
  method CollectResources(resolve: Resolver, v: Value, uri: string)
    returns (result: Result<(Value, set<string>, set<string>), string>)
    ensures result.Ok? <==> Resolves(resolve, v, uri)
    ensures result.Err? ==> FirstUnresolved(resolve, v, uri, result.error)
    ensures result.Ok? ==> result.value.0 == Normalized(resolve, v, uri)
    ensures result.Ok? ==> forall u ::
              u in result.value.1 <==> u == uri || exists path :: IdentifiesAt(resolve, v, uri, path, u)
    ensures result.Ok? ==> forall u ::
              u in result.value.2 <==>
              exists path, keyword, r ::
                RefersAt(resolve, v, uri, path, keyword, r) && keyword in {"$ref", "$dynamicRef"} && IsCut(r, u)
    ensures result.Ok? ==> forall u :: u in result.value.2 ==> '#' !in u
  {
    hide Resolves;
    hide Mentions;
    hide Normalized;
    hide FirstUnresolved;
    hide IdentifiesAt;
    hide RefersAt;
    var resources := new SchemaResources(resolve, uri);
    assert resources.Collected(Identifier) == {uri} && resources.Collected(Reference) == {};
    var normal := resources.Normalize(v, uri);
    if normal.Err? {
      return Err(normal.error);
    }
    assert resources.Collected(Identifier) == resources.identifiers;
    assert resources.Collected(Reference) == resources.references;
    forall u
      ensures
        Mentions(resolve, Identifier, v, uri, u) <==> exists path :: IdentifiesAt(resolve, v, uri, path, u)
      ensures
        Mentions(resolve, Reference, v, uri, u) <==>
        exists path, keyword, r ::
          RefersAt(resolve, v, uri, path, keyword, r) && keyword in {"$ref", "$dynamicRef"} && IsCut(r, u)
    {
      IdentifiersMean(resolve, v, uri, u);
      ReferencesMean(resolve, v, uri, u);
    }
    result := Ok((normal.value, resources.identifiers, resources.references));
  }

  // ----- which keywords lead to subschemas -----

  /** A schema that refers to r under a keyword: directly, in a list, and as a
      named schema. */
  function Referring(r: string): Value {
    Object(map["$ref" := String(r)])
  }

  /** What a document with one keyword refers to depends on the keyword and on how
      it holds the schema; literal data under const, enum, default or examples
      never becomes a dependency. */
  lemma KeywordsLead(resolve: Resolver, k: string, r: string, base: string, uri: string)
    requires resolve(r, base) == Ok(uri) && '#' !in uri
    ensures
      var direct := Object(map[k := Referring(r)]);
      && Resolves(resolve, direct, base)
      && (Mentions(resolve, Reference, direct, base, uri) <==>
          k in {"additionalProperties", "unevaluatedProperties", "propertyNames", "items", "contains",
                "unevaluatedItems", "not", "if", "then", "else", "contentSchema"})
    ensures
      var list := Object(map[k := Array([Referring(r)])]);
      && Resolves(resolve, list, base)
      && (Mentions(resolve, Reference, list, base, uri) <==> k in {"allOf", "anyOf", "oneOf", "prefixItems"})
    ensures
      var named := Object(map[k := Object(map["const" := Referring(r)])]);
      && Resolves(resolve, named, base)
      && (Mentions(resolve, Reference, named, base, uri) <==>
          k in {"$defs", "definitions", "dependentSchemas", "patternProperties", "properties"})
  {
    hide Resolves;
    hide Mentions;
    hide KindOf;
    ReferringMentions(resolve, r, base, uri);
    OneKeyword(resolve, k, Referring(r), base, uri);
    OneKeyword(resolve, k, Array([Referring(r)]), base, uri);
    OneKeyword(resolve, k, Object(map["const" := Referring(r)]), base, uri);
    OneKeyword(resolve, "const", Referring(r), base, uri);
    KeywordKinds(k);
    KeywordKinds("const");
    NotAnObject(resolve, String(r), base);
    NotAnObject(resolve, Array([Referring(r)]), base);
    assert Array([Referring(r)]).elements[0] == Referring(r);
    assert Object(map["const" := Referring(r)]).fields["const"] == Referring(r);
  }

  lemma KeywordKinds(k: string)
    ensures KindOf(k) == SchemaMap <==>
            k in {"$defs", "definitions", "dependentSchemas", "patternProperties", "properties"}
    ensures KindOf(k) == SchemaList <==> k in {"allOf", "anyOf", "oneOf", "prefixItems"}
    ensures KindOf(k) == OneSchema <==>
            k in {"additionalProperties", "unevaluatedProperties", "propertyNames", "items", "contains",
                  "unevaluatedItems", "not", "if", "then", "else", "contentSchema"}
    ensures k in {"const", "enum", "default", "examples"} ==> KindOf(k) == Literal
  {}

  lemma ReferringMentions(resolve: Resolver, r: string, base: string, uri: string)
    requires resolve(r, base) == Ok(uri) && '#' !in uri
    ensures Resolves(resolve, Referring(r), base) && Mentions(resolve, Reference, Referring(r), base, uri)
  {
    var v := Referring(r);
    IdIsLiteral();
    CutMeans(uri, uri);
    assert Resolves(resolve, v, base);
    assert IsReference("$ref") && Text(v.fields, "$ref") == Some(r);
    assert MentionsHere(resolve, Reference, v.fields, base, uri);
  }

  lemma OneKeyword(resolve: Resolver, k: string, child: Value, base: string, uri: string)
    requires !child.String?
    ensures
      var v := Object(map[k := child]);
      && (Resolves(resolve, v, base) <==> ChildResolves(resolve, KindOf(k), child, base))
      && (Resolves(resolve, v, base) ==>
            (Mentions(resolve, Reference, v, base, uri) <==>
             ChildMentions(resolve, Reference, KindOf(k), child, base, uri)))
  {
    hide KindOf;
    hide ChildResolves;
    hide ChildMentions;
    var v := Object(map[k := child]);
    assert forall j :: Text(v.fields, j).None?;
    assert k in v.fields;
  }
}
