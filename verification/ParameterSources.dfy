/** Attribution of parameter failures to authored values from
    src/core/parameter_source.rs. */
module ParameterSources {
  import opened AxisExpansion
  import opened Canonical
  import opened Json
  import opened Pointers
  import opened SourceMaps
  import SourceNodes
  import opened Wrappers
  import Keys
  import Parameters

  datatype Origin<S> = Origin(map_: SourceMap<S>, pointer: string)

  predicate OriginContains<S>(o: Origin<S>, suffix: string) {
    Contains(o.map_, o.pointer + suffix)
  }

  method OriginSpan<S>(o: Origin<S>, suffix: string) returns (span: Option<S>)
    ensures span == Nearest(o.map_.values, o.pointer + suffix)
  {
    span := Span(o.map_, o.pointer + suffix);
  }

  /** Where the axes of one definition may have been authored. */
  datatype ParameterSources<S> = ParameterSources(
    declaration: Origin<S>, defaults: Origin<S>, experiment: Origin<S>, overlay: Option<Origin<S>>)

  datatype Failure = OtherFailure | InvalidInstance(valuePaths: seq<string>)

  /** The origin of the axis with this name, and the keys above it there. */
  ghost function Winner<S>(sources: ParameterSources<S>, name: string): (Origin<S>, seq<string>) {
    if sources.overlay.Some? && OriginContains(sources.overlay.value, Print([name])) then (sources.overlay.value, [])
    else if OriginContains(sources.experiment, Print([name])) then (sources.experiment, [])
    else (sources.declaration, ["parameters"])
  }

  /** The first position of a value in a list. */
  function Position(values: seq<Value>, v: Value): (i: Option<nat>)
    ensures i.None? ==> v !in values
    ensures i.Some? ==> i.value < |values| && values[i.value] == v
  {
    if values == [] then None
    else if values[0] == v then Some(0)
    else
      match Position(values[1..], v)
      case None => None
      case Some(i) => Some(i + 1)
  }

  /** The keys under which a supplied value at name/rest was authored, below
      those of the axis' origin. */
  ghost function AuthoredPath<S>(origin: Origin<S>, base: seq<string>, axis: Axis<Value>, supplied: Value,
                                 name: string, rest: seq<string>): Option<seq<string>> {
    match axis
    case Value(_) =>
      if OriginContains(origin, Print(base + [name, "value"])) then Some(base + [name, "value"] + rest)
      else Some(base + [name] + rest)
    case Grid(values) =>
      match Child(supplied, name)
      case None => None
      case Some(v) =>
        match Position(values, v)
        case None => None
        case Some(i) => Some(base + [name, "grid", Show(i)] + rest)
  }

  ghost function SpanAt<S>(o: Origin<S>, path: seq<string>): Option<S> {
    Nearest(o.map_.values, o.pointer + Print(path))
  }

  /** What locate means, on the keys of pointers instead of their text. */
  ghost function Located<S>(sources: ParameterSources<S>, path: seq<string>, supplied: Value, defaults: Option<Value>,
                            axes: Axes<Value>): Option<S> {
    if path == [] then
      var span := SpanAt(sources.experiment, []);
      if span.Some? then span else SpanAt(sources.declaration, [])
    else
      var name, rest := path[0], path[1..];
      if Walk(supplied, path).Some? then
        if name !in axes then None
        else
          var (origin, base) := Winner(sources, name);
          match AuthoredPath(origin, base, axes[name], supplied, name, rest)
          case None => None
          case Some(authored) => SpanAt(origin, authored)
      else if defaults.Some? && Walk(defaults.value, path).Some? then
        if OriginContains(sources.defaults, "/parameters") then
          SpanAt(sources.defaults, ["parameters", name, "default"] + rest)
        else SpanAt(sources.defaults, ["parameter-defaults"] + path)
      else if OriginContains(sources.declaration, "/parameters") then
        var field := sources.declaration.pointer + Print(["parameters", name]);
        if field in sources.declaration.map_.keys then Some(sources.declaration.map_.keys[field])
        else Nearest(sources.declaration.map_.values, field)
      else SpanAt(sources.declaration, ["parameter-schema"])
  }

  // ----- pointers as text -----

  lemma PrintOne(token: string)
    ensures Print([token]) == "/" + Escape(token)
  {
    assert [token][1..] == [];
    assert "/" + Escape(token) + "" == "/" + Escape(token);
  }

  lemma PrintPlain(token: string, text: string)
    requires Escape(token) == token && text == "/" + token
    ensures Print([token]) == text
  {
    PrintOne(token);
  }

  /** The keys that locate spells out are their own escapes. */
  lemma FixedKeys()
    ensures Print(["parameters"]) == "/parameters" && Print(["default"]) == "/default" && Print(["value"]) == "/value"
    ensures Print(["grid"]) == "/grid" && Print(["parameter-defaults"]) == "/parameter-defaults"
    ensures Print(["parameter-schema"]) == "/parameter-schema"
  {
    hide Escape;
    PlainText("parameters");
    PrintPlain("parameters", "/parameters");
    PlainText("default");
    PrintPlain("default", "/default");
    PlainText("value");
    PrintPlain("value", "/value");
    PlainText("grid");
    PrintPlain("grid", "/grid");
    PlainText("parameter-defaults");
    PrintPlain("parameter-defaults", "/parameter-defaults");
    PlainText("parameter-schema");
    PrintPlain("parameter-schema", "/parameter-schema");
  }

  /** A printed pointer starts with the escape of its first key. */
  lemma FirstPiece(path: seq<string>)
    requires path != []
    ensures Print(path) == "/" + Escape(path[0]) + Print(path[1..])
    ensures Split(Escape(path[0]) + Print(path[1..]))[0] == Escape(path[0])
    ensures Unescape(Escape(path[0])) == path[0]
  {
    hide Escape;
    hide Unescape;
    hide IsToken;
    UnescapeEscape(path[0]);
    TokensHaveNoSlash(Escape(path[0]));
    SplitPiece(Escape(path[0]), Print(path[1..]));
    assert Split(Print(path[1..]))[0] == "" by {
      if path[1..] != [] {
        ParsePrintSplit(path[1..]);
      }
    }
    assert Escape(path[0]) + "" == Escape(path[0]);
  }

  // ----- locate -----

  method Locate<S>(sources: ParameterSources<S>, failure: Failure, supplied: Value, defaults: Option<Value>,
                   axes: Axes<Value>, ghost path: seq<string>)
    returns (span: Option<S>)
    requires failure.InvalidInstance? && failure.valuePaths != [] ==> failure.valuePaths[0] == Print(path)
    ensures
      span ==
      if failure.OtherFailure? then SpanAt(sources.defaults, ["parameter-defaults"])
      else if failure.valuePaths == [] then None
      else Located(sources, path, supplied, defaults, axes)
  {
    hide Escape;
    hide Unescape;
    hide Nearest;
    hide Walk;
    hide Print;
    hide Lookup;
    hide Split;
    hide AuthoredPath;
    hide Winner;
    FixedKeys();
    if failure.OtherFailure? {
      span := OriginSpan(sources.defaults, "/parameter-defaults");
      return;
    }
    if failure.valuePaths == [] {
      return None;
    }
    var pointer := failure.valuePaths[0];
    if pointer == "" || pointer[0] != '/' {
      PrintStarts(path);
      span := OriginSpan(sources.experiment, "");
      if span.None? {
        span := OriginSpan(sources.declaration, "");
      }
      return;
    }
    PrintStarts(path);
    FirstPiece(path);
    var text := pointer[1..];
    assert text == Escape(path[0]) + Print(path[1..]);
    var encoded := Split(text)[0];
    var name := Unescape(encoded);
    var tail := text[|encoded|..];
    assert tail == Print(path[1..]);
    LookupPrint(supplied, path);
    if Lookup(supplied, pointer).Some? {
      if name !in axes {
        return None;
      }
      span := LocateSupplied(sources, supplied, axes[name], encoded, tail, name, path[1..]);
      return;
    }
    if defaults.Some? {
      LookupPrint(defaults.value, path);
    }
    if defaults.Some? && Lookup(defaults.value, pointer).Some? {
      DefaultTexts(path);
      if OriginContains(sources.defaults, "/parameters") {
        span := OriginSpan(sources.defaults, "/parameters/" + encoded + "/default" + tail);
      } else {
        span := OriginSpan(sources.defaults, "/parameter-defaults" + pointer);
      }
      return;
    }
    if OriginContains(sources.declaration, "/parameters") {
      FieldText(sources.declaration, name);
      span := FieldSpan(sources.declaration.map_, sources.declaration.pointer + "/parameters/" + encoded);
    } else {
      span := OriginSpan(sources.declaration, "/parameter-schema");
    }
  }

  lemma LookupPrint(v: Value, path: seq<string>)
    ensures Lookup(v, Print(path)) == Walk(v, path)
  {
    hide Print;
    hide Parse;
    ParsePrint(path);
  }

  lemma PrintStarts(path: seq<string>)
    ensures Print([]) == ""
    ensures path != [] ==> Print(path) != "" && Print(path)[0] == '/'
  {}

  lemma DefaultTexts(path: seq<string>)
    requires path != []
    ensures Print(["parameters", path[0], "default"] + path[1..]) ==
            "/parameters/" + Escape(path[0]) + "/default" + Print(path[1..])
    ensures Print(["parameter-defaults"] + path) == "/parameter-defaults" + Print(path)
  {
    hide Escape;
    hide Print;
    FixedKeys();
    PrintAppend(["parameter-defaults"], path);
    PrintOne(path[0]);
    PrintAppend(["parameters"], [path[0]]);
    PrintAppend(["parameters"] + [path[0]], ["default"]);
    assert ["parameters"] + [path[0]] + ["default"] == ["parameters", path[0], "default"];
    PrintAppend(["parameters", path[0], "default"], path[1..]);
    assert "/parameters" + ("/" + Escape(path[0])) == "/parameters/" + Escape(path[0]);
  }

  lemma FieldText<S>(o: Origin<S>, name: string)
    ensures o.pointer + Print(["parameters", name]) == o.pointer + "/parameters/" + Escape(name)
  {
    hide Escape;
    hide Print;
    FixedKeys();
    PrintOne(name);
    PrintAppend(["parameters"], [name]);
    assert ["parameters"] + [name] == ["parameters", name];
    assert "/parameters" + ("/" + Escape(name)) == "/parameters/" + Escape(name);
    assert o.pointer + ("/parameters/" + Escape(name)) == o.pointer + "/parameters/" + Escape(name);
  }

  method LocateSupplied<S>(sources: ParameterSources<S>, supplied: Value, axis: Axis<Value>, encoded: string,
                           tail: string, name: string, ghost rest: seq<string>)
    returns (span: Option<S>)
    requires encoded == Escape(name) && tail == Print(rest)
    ensures
      var (origin, base) := Winner(sources, name);
      span == match AuthoredPath(origin, base, axis, supplied, name, rest)
              case None => None
              case Some(authored) => SpanAt(origin, authored)
  {
    hide Escape;
    hide Print;
    hide Nearest;
    FixedKeys();
    PrintOne(name);
    var suffix := "/" + encoded;
    var origin := sources.declaration;
    ghost var base := ["parameters"];
    if sources.overlay.Some? && OriginContains(sources.overlay.value, suffix) {
      origin := sources.overlay.value;
      base := [];
    } else if OriginContains(sources.experiment, suffix) {
      origin := sources.experiment;
      base := [];
    } else {
      suffix := "/parameters" + suffix;
    }
    assert (origin, base) == Winner(sources, name);
    ghost var keys := base + [name];
    PrintAppend(base, [name]);
    assert suffix == Print(keys) by {
      if base == [] {
        PrintStarts([]);
        assert "" + Print([name]) == Print([name]);
      }
    }
    if axis.Value? {
      ExtendText(keys, ["value"], suffix, "/value");
      assert keys + ["value"] == base + [name, "value"];
      if OriginContains(origin, suffix + "/value") {
        suffix := suffix + "/value";
        keys := keys + ["value"];
      }
    } else {
      var value := Child(supplied, name);
      if value.None? {
        return None;
      }
      var index := Position(axis.values, value.value);
      if index.None? {
        return None;
      }
      GridText(keys, suffix, index.value);
      assert keys + ["grid", Show(index.value)] == base + [name, "grid", Show(index.value)];
      suffix := suffix + "/grid/" + Show(index.value);
      keys := keys + ["grid", Show(index.value)];
    }
    PrintAppend(keys, rest);
    span := OriginSpan(origin, suffix + tail);
  }

  lemma ExtendText(keys: seq<string>, more: seq<string>, text: string, moreText: string)
    requires text == Print(keys) && moreText == Print(more)
    ensures Print(keys + more) == text + moreText
  {
    PrintAppend(keys, more);
  }

  lemma GridText(keys: seq<string>, text: string, i: nat)
    requires text == Print(keys)
    ensures Print(keys + ["grid", Show(i)]) == text + "/grid/" + Show(i)
  {
    hide Escape;
    hide Print;
    hide Index;
    FixedKeys();
    IndexShow(i);
    PrintOne(Show(i));
    PrintAppend(["grid"], [Show(i)]);
    assert ["grid"] + [Show(i)] == ["grid", Show(i)];
    ExtendText(keys, ["grid", Show(i)], text, "/grid" + ("/" + Show(i)));
    assert text + ("/grid" + ("/" + Show(i))) == text + "/grid/" + Show(i);
  }

  // ----- the located value is the one that failed -----

  /** How an authored value is read as an axis. */
  function DecodeAxis(authored: Value): Option<Axis<Value>> {
    match authored
    case Object(fields) =>
      if fields.Keys == {"value"} then Some(Axis.Value(fields["value"]))
      else if fields.Keys == {"grid"} && fields["grid"].Array? && fields["grid"].elements != [] then
        Some(Grid(fields["grid"].elements))
      else None
    case Array(_) => None
    case _ => Some(Axis.Value(authored))
  }

  /** An axis is authored as a bare scalar, as {value: v} for any value, or as
      {grid: [...]} for a nonempty list; nothing else is read as one. */
  lemma AxisForms(authored: Value, axis: Axis<Value>)
    ensures
      DecodeAxis(authored) == Some(axis) <==>
      match axis
      case Value(v) => authored == Object(map["value" := v]) || (authored == v && !v.Object? && !v.Array?)
      case Grid(vs) => |vs| > 0 && authored == Object(map["grid" := Array(vs)])
  {
    if authored.Object? {
      var fields := authored.fields;
      assert fields.Keys == {"value"} ==> fields == map["value" := fields["value"]];
      assert fields.Keys == {"grid"} ==> fields == map["grid" := fields["grid"]];
    }
  }

  /** The source map records, below these keys, exactly the pointers that evaluate
      in the authored document. */
  ghost predicate Records<S>(o: Origin<S>, base: seq<string>, doc: Value) {
    forall path: seq<string> :: OriginContains(o, Print(base + path)) <==> Walk(doc, path).Some?
  }

  /** The same for a document whose numbers have a canonical form. */
  ghost predicate RecordsNumbers<S>(o: Origin<S>, base: seq<string>, doc: Value) {
    Records(o, base, doc) && Numbers(doc, InDomain)
  }

  /** These axes, if any, are the ones read from the normalised document at the
      origin. A namespace without axes may be left out of the document
      altogether. */
  ghost predicate Authored<S>(o: Origin<S>, axes: Option<Axes<Value>>, doc: Value) {
    if axes.None? || axes.value == map[] then forall path: seq<string> :: path != [] ==> !OriginContains(o, Print(path))
    else
      && RecordsNumbers(o, [], doc) && doc.Object? && doc.fields.Keys == axes.value.Keys
      && forall name :: name in axes.value ==> DecodeAxis(Normal(doc).fields[name]) == Some(axes.value[name])
  }

  /** The default grids are the grid members of the declared parameters. A
      definition with a parameter schema of its own has none. */
  ghost predicate Declared<S>(o: Origin<S>, grids: Axes<Value>, doc: Value) {
    grids == map[] ||
    (&& RecordsNumbers(o, ["parameters"], doc)
     && forall name :: name in grids ==>
          grids[name].Grid? && Walk(Normal(doc), [name, "grid"]) == Some(Array(grids[name].values)))
  }

  /** Normalising a document and following a path commute. */
  lemma {:induction false} NormalWalk(v: Value, path: seq<string>)
    requires Numbers(v, InDomain)
    ensures Walk(v, path).Some? ==> Numbers(Walk(v, path).value, InDomain)
    ensures Walk(Normal(v), path) == if Walk(v, path).Some? then Some(Normal(Walk(v, path).value)) else None
    decreases |path|
  {
    hide InDomain;
    if path != [] {
      NormalChild(v, path[0]);
      if Child(v, path[0]).Some? {
        NormalWalk(Child(v, path[0]).value, path[1..]);
      }
    }
  }

  lemma NormalChild(v: Value, token: string)
    requires Numbers(v, InDomain)
    ensures Child(v, token).Some? ==> Numbers(Child(v, token).value, InDomain)
    ensures Child(Normal(v), token) == if Child(v, token).Some? then Some(Normal(Child(v, token).value)) else None
  {
    hide InDomain;
  }

  lemma NormalRecords<S>(o: Origin<S>, base: seq<string>, doc: Value)
    requires RecordsNumbers(o, base, doc)
    ensures Records(o, base, Normal(doc))
  {
    hide Print;
    hide Walk;
    hide Normal;
    forall path: seq<string>
      ensures OriginContains(o, Print(base + path)) <==> Walk(Normal(doc), path).Some?
    {
      NormalWalk(doc, path);
    }
  }

  /** The source map of a parsed document records what the origins assume: all of
      an authored part, or nothing where there is none. */
  lemma ParsedDocumentRecords<S>(n: SourceNodes.Node<S>, m: SourceMap<S>, prefix: seq<string>, base: seq<string>)
    requires forall path :: Contains(m, Print(path)) <==> Walk(SourceNodes.ToJson(n), path).Some?
    ensures
      match Walk(SourceNodes.ToJson(n), prefix + base)
      case Some(doc) => Records(Origin(m, Print(prefix)), base, doc)
      case None => forall path :: !OriginContains(Origin(m, Print(prefix)), Print(base + path))
  {
    hide Print;
    hide Walk;
    var o, document := Origin(m, Print(prefix)), SourceNodes.ToJson(n);
    forall path: seq<string>
      ensures OriginContains(o, Print(base + path)) <==> Walk(document, prefix + base + path).Some?
    {
      PrintAppend(prefix, base + path);
      assert prefix + (base + path) == prefix + base + path;
    }
    forall path: seq<string>
      ensures Walk(document, prefix + base + path) ==
              match Walk(document, prefix + base) case None => None case Some(doc) => Walk(doc, path)
    {
      WalkAppend(document, prefix + base, path);
    }
  }

  lemma WalkGrid(doc: Value, name: string, values: seq<Value>, i: nat, rest: seq<string>)
    requires Walk(doc, [name, "grid"]) == Some(Array(values)) && i < |values|
    ensures Walk(doc, [name, "grid", Show(i)] + rest) == Walk(values[i], rest)
  {
    hide Show;
    IndexShow(i);
    var list := Array(values);
    assert Child(list, Show(i)) == Some(values[i]);
    WalkAppend(doc, [name, "grid"], [Show(i)] + rest);
    assert [name, "grid"] + ([Show(i)] + rest) == [name, "grid", Show(i)] + rest;
    WalkStep(list, [Show(i)] + rest);
    assert ([Show(i)] + rest)[1..] == rest;
  }

  /** Where the value of an axis is found in the document it was authored in. */
  lemma AxisValueIsAuthored(doc: Value, name: string, axis: Axis<Value>, rest: seq<string>)
    requires doc.Object? && name in doc.fields && DecodeAxis(doc.fields[name]) == Some(axis)
    ensures
      if axis.Grid? then Walk(doc, [name, "grid"]) == Some(Array(axis.values))
      else if Walk(doc, [name, "value"]).Some? then Walk(doc, [name, "value"] + rest) == Walk(axis.value, rest)
      else Walk(doc, [name] + rest) == Walk(axis.value, rest)
  {
    var authored := doc.fields[name];
    WalkOne(doc, name);
    WalkAppend(doc, [name], rest);
    WalkAppend(doc, [name], ["value"]);
    WalkAppend(doc, [name], ["grid"]);
    WalkOne(authored, "value");
    WalkOne(authored, "grid");
    assert [name] + ["value"] == [name, "value"] && [name] + ["grid"] == [name, "grid"];
    WalkAppend(doc, [name, "value"], rest);
  }

  /** The document that holds the axis which wins for a name. */
  ghost function WinningDocument(base: Option<Axes<Value>>, overlay: Option<Axes<Value>>, name: string,
                                 overlayDoc: Value, experimentDoc: Value, declarationDoc: Value): Value {
    if overlay.Some? && name in overlay.value then overlayDoc
    else if base.Some? && name in base.value then experimentDoc
    else declarationDoc
  }

  ghost predicate Consistent<S>(sources: ParameterSources<S>, grids: Axes<Value>, base: Option<Axes<Value>>,
                                overlay: Option<Axes<Value>>, overlayDoc: Value, experimentDoc: Value,
                                declarationDoc: Value) {
    && (if sources.overlay.Some? then Authored(sources.overlay.value, overlay, overlayDoc) else overlay == None)
    && Authored(sources.experiment, base, experimentDoc)
    && Declared(sources.declaration, grids, declarationDoc)
  }

  lemma AuthoredNames<S>(o: Origin<S>, axes: Option<Axes<Value>>, doc: Value, name: string)
    requires Authored(o, axes, doc)
    ensures OriginContains(o, Print([name])) <==> axes.Some? && name in axes.value
  {
    hide Print;
    if axes.Some? && axes.value != map[] {
      assert [] + [name] == [name];
      WalkOne(doc, name);
    }
  }

  /** The document at the keys holds the axis under its name. */
  ghost predicate HoldsAxis(doc: Value, name: string, axis: Axis<Value>) {
    || (axis.Grid? && Walk(doc, [name, "grid"]) == Some(Array(axis.values)))
    || (doc.Object? && name in doc.fields && DecodeAxis(doc.fields[name]) == Some(axis))
  }

  /** The origin that locate picks is the one whose axis wins the overlay. */
  lemma WinnerHasTheAxis<S>(sources: ParameterSources<S>, grids: Axes<Value>, base: Option<Axes<Value>>,
                            overlay: Option<Axes<Value>>, overlayDoc: Value, experimentDoc: Value,
                            declarationDoc: Value, name: string)
    requires Consistent(sources, grids, base, overlay, overlayDoc, experimentDoc, declarationDoc)
    requires name in Overlaid(grids, base, overlay)
    ensures
      var (origin, keys) := Winner(sources, name);
      var doc := WinningDocument(base, overlay, name, overlayDoc, experimentDoc, declarationDoc);
      var axis := Overlaid(grids, base, overlay)[name];
      RecordsNumbers(origin, keys, doc) && HoldsAxis(Normal(doc), name, axis)
  {
    hide Print;
    hide Walk;
    hide RecordsNumbers;
    hide DecodeAxis;
    hide Numbers;
    NormalKeys(overlayDoc);
    NormalKeys(experimentDoc);
    OverlayWins(grids, base, overlay, name);
    if sources.overlay.Some? {
      AuthoredNames(sources.overlay.value, overlay, overlayDoc, name);
    }
    AuthoredNames(sources.experiment, base, experimentDoc, name);
  }

  lemma NormalKeys(v: Value)
    ensures Numbers(v, InDomain) && v.Object? ==> Normal(v).Object? && Normal(v).fields.Keys == v.fields.Keys
  {
    hide InDomain;
  }

  /** The value at the keys in the authored document is, once normalised, the given
      one, and means the same. */
  ghost predicate HoldsValue(doc: Value, keys: seq<string>, v: Value) {
    && Walk(doc, keys).Some? && Numbers(Walk(doc, keys).value, InDomain)
    && Normal(Walk(doc, keys).value) == v && SameMeaning(Walk(doc, keys).value, v)
  }

  lemma HoldsNormal(doc: Value, keys: seq<string>, v: Value)
    requires Numbers(doc, InDomain) && Walk(Normal(doc), keys) == Some(v)
    ensures HoldsValue(doc, keys, v)
  {
    hide Walk;
    hide Numbers;
    hide Normal;
    NormalWalk(doc, keys);
    NormalIsCanonical(Walk(doc, keys).value);
  }

  /** Whatever supplied value is reported as failing, locate finds the recorded
      span of the authored value it came from: the authored document at the
      located keys holds the very value that the combination has at the reported
      path. */
  lemma LocatedIsAuthored<S>(sources: ParameterSources<S>, grids: Axes<Value>, base: Option<Axes<Value>>,
                             overlay: Option<Axes<Value>>, overlayDoc: Value, experimentDoc: Value,
                             declarationDoc: Value, k: nat, path: seq<string>, defaults: Option<Value>)
    returns (authored: seq<string>)
    requires Consistent(sources, grids, base, overlay, overlayDoc, experimentDoc, declarationDoc)
    requires
      var axes := Overlaid(grids, base, overlay);
      var names := Keys.KeysOf(axes.Keys);
      && NamesIn(names, axes) && k < Count(names, axes)
      && path != [] && Walk(Object(Nth(names, axes, k)), path).Some?
    ensures
      var axes := Overlaid(grids, base, overlay);
      var supplied := Object(Nth(Keys.KeysOf(axes.Keys), axes, k));
      var (origin, keys) := Winner(sources, path[0]);
      var doc := WinningDocument(base, overlay, path[0], overlayDoc, experimentDoc, declarationDoc);
      && OriginContains(origin, Print(keys + authored))
      && Located(sources, path, supplied, defaults, axes) ==
         Some(origin.map_.values[origin.pointer + Print(keys + authored)])
      && HoldsValue(doc, authored, Walk(supplied, path).value)
  {
    hide Nth;
    hide Count;
    hide Keys.KeysOf;
    hide Print;
    hide Walk;
    hide Winner;
    hide Consistent;
    hide HoldsAxis;
    hide HoldsValue;
    hide Records;
    hide Normal;
    hide Numbers;
    var axes := Overlaid(grids, base, overlay);
    var supplied := Object(Nth(Keys.KeysOf(axes.Keys), axes, k));
    var name, rest := path[0], path[1..];
    WalkStep(supplied, path);
    ChosenValue(grids, base, overlay, k, name);
    var chosen := Child(supplied, name).value;
    WinnerHasTheAxis(sources, grids, base, overlay, overlayDoc, experimentDoc, declarationDoc, name);
    var (origin, keys) := Winner(sources, name);
    var doc := WinningDocument(base, overlay, name, overlayDoc, experimentDoc, declarationDoc);
    NormalRecords(origin, keys, doc);
    authored := ChosenIsAuthored(origin, keys, Normal(doc), axes[name], supplied, name, rest, chosen);
    HoldsNormal(doc, authored, Walk(supplied, path).value);
  }

  lemma ChosenValue(grids: Axes<Value>, base: Option<Axes<Value>>, overlay: Option<Axes<Value>>, k: nat, name: string)
    requires
      var axes := Overlaid(grids, base, overlay);
      var names := Keys.KeysOf(axes.Keys);
      NamesIn(names, axes) && k < Count(names, axes) && name in Nth(names, axes, k)
    ensures
      var axes := Overlaid(grids, base, overlay);
      name in axes && Nth(Keys.KeysOf(axes.Keys), axes, k)[name] in Values(axes[name])
  {
    hide Nth;
    hide Count;
    hide Keys.KeysOf;
    CombinationUsesWinningAxes(grids, base, overlay, k, name);
    OverlayWins(grids, base, overlay, name);
  }

  lemma ChosenIsAuthored<S>(origin: Origin<S>, keys: seq<string>, doc: Value, axis: Axis<Value>, supplied: Value,
                            name: string, rest: seq<string>, chosen: Value)
    returns (authored: seq<string>)
    requires Records(origin, keys, doc) && Child(supplied, name) == Some(chosen) && chosen in Values(axis)
    requires HoldsAxis(doc, name, axis) && Walk(chosen, rest).Some?
    ensures AuthoredPath(origin, keys, axis, supplied, name, rest) == Some(keys + authored)
    ensures OriginContains(origin, Print(keys + authored)) && Walk(doc, authored) == Walk(chosen, rest)
  {
    hide Print;
    hide Walk;
    hide DecodeAxis;
    if axis.Grid? {
      if doc.Object? && name in doc.fields && DecodeAxis(doc.fields[name]) == Some(axis) {
        AxisValueIsAuthored(doc, name, axis, rest);
      }
      authored := GridIsAuthored(origin, keys, doc, axis, supplied, name, rest, chosen);
    } else {
      AxisValueIsAuthored(doc, name, axis, rest);
      authored :=
        if OriginContains(origin, Print(keys + [name, "value"])) then [name, "value"] + rest else [name] + rest;
      KeysThen(keys, [name, "value"], rest);
      KeysThen(keys, [name], rest);
    }
  }

  lemma KeysThen(keys: seq<string>, middle: seq<string>, rest: seq<string>)
    ensures keys + middle + rest == keys + (middle + rest)
  {}

  lemma GridIsAuthored<S>(origin: Origin<S>, keys: seq<string>, doc: Value, axis: Axis<Value>, supplied: Value,
                          name: string, rest: seq<string>, chosen: Value)
    returns (authored: seq<string>)
    requires Records(origin, keys, doc) && Child(supplied, name) == Some(chosen)
    requires axis.Grid? && chosen in axis.values && Walk(doc, [name, "grid"]) == Some(Array(axis.values))
    requires Walk(chosen, rest).Some?
    ensures AuthoredPath(origin, keys, axis, supplied, name, rest) == Some(keys + authored)
    ensures OriginContains(origin, Print(keys + authored)) && Walk(doc, authored) == Walk(chosen, rest)
  {
    hide Print;
    hide Walk;
    hide Show;
    var i := Position(axis.values, chosen).value;
    WalkGrid(doc, name, axis.values, i, rest);
    authored := [name, "grid", Show(i)] + rest;
    KeysThen(keys, [name, "grid", Show(i)], rest);
  }

  // ----- the located default is the one that failed -----

  /** Where defaults are authored: as the default members of the declared
      parameters in the document, or as that document itself. */
  ghost predicate DefaultsAuthored<S>(o: Origin<S>, defaults: Value, doc: Value) {
    if OriginContains(o, "/parameters") then
      && RecordsNumbers(o, ["parameters"], doc) && defaults.Object?
      && forall name :: name in defaults.fields ==> Walk(Normal(doc), [name, "default"]) == Some(defaults.fields[name])
    else RecordsNumbers(o, ["parameter-defaults"], doc) && defaults == Normal(doc)
  }

  /** The keys under which the default at a path is authored. */
  ghost function DefaultPath<S>(o: Origin<S>, path: seq<string>): seq<string>
    requires path != []
  {
    if OriginContains(o, "/parameters") then ["parameters", path[0], "default"] + path[1..]
    else ["parameter-defaults"] + path
  }

  lemma DefaultIsAuthored<S>(o: Origin<S>, defaults: Value, doc: Value, path: seq<string>)
    requires DefaultsAuthored(o, defaults, doc) && path != [] && Walk(defaults, path).Some?
    ensures OriginContains(o, Print(DefaultPath(o, path)))
    ensures HoldsValue(doc, DefaultPath(o, path)[1..], Walk(defaults, path).value)
  {
    hide Print;
    hide Walk;
    hide Normal;
    hide Numbers;
    hide HoldsValue;
    var name, rest := path[0], path[1..];
    if OriginContains(o, "/parameters") {
      NormalRecords(o, ["parameters"], doc);
      WalkStep(defaults, path);
      WalkAppend(Normal(doc), [name, "default"], rest);
      assert ["parameters"] + ([name, "default"] + rest) == DefaultPath(o, path);
      assert DefaultPath(o, path)[1..] == [name, "default"] + rest;
    } else {
      NormalRecords(o, ["parameter-defaults"], doc);
      assert DefaultPath(o, path)[1..] == path;
    }
    HoldsNormal(doc, DefaultPath(o, path)[1..], Walk(defaults, path).value);
  }

  /** A failing value that was not supplied is the default's, and locate finds the
      recorded span of that default wherever it is authored: the document holds
      the very value that failed at the located keys. */
  lemma LocatedDefault<S>(sources: ParameterSources<S>, path: seq<string>, supplied: Value, defaults: Value, doc: Value,
                          axes: Axes<Value>)
    requires path != [] && Walk(Parameters.Merged(defaults, supplied), path).Some? && Walk(supplied, path).None?
    requires DefaultsAuthored(sources.defaults, defaults, doc)
    ensures
      var pointer := sources.defaults.pointer + Print(DefaultPath(sources.defaults, path));
      && pointer in sources.defaults.map_.values
      && Located(sources, path, supplied, Some(defaults), axes) == Some(sources.defaults.map_.values[pointer])
    ensures
      HoldsValue(doc, DefaultPath(sources.defaults, path)[1..], Walk(Parameters.Merged(defaults, supplied), path).value)
  {
    hide Print;
    hide Walk;
    hide HoldsValue;
    hide DefaultsAuthored;
    Parameters.Provenance(defaults, supplied, path);
    DefaultIsAuthored(sources.defaults, defaults, doc, path);
  }

  // ----- a missing value -----

  lemma {:induction false} ParentOfToken(p: string, token: string)
    requires '/' !in token
    ensures Parent(p + "/" + token) == Some(p)
    decreases |token|
  {
    var pointer := p + "/" + token;
    var n := |pointer| - 1;
    if token == "" {
      assert pointer[..n] == p;
    } else {
      var m := |token| - 1;
      assert pointer[..n] == p + "/" + token[..m];
      ParentOfToken(p, token[..m]);
    }
  }

  /** A pointer that is not recorded has the span of the pointer above it. */
  lemma NearestAbove<S>(values: map<string, S>, base: seq<string>, token: string)
    requires Print(base + [token]) !in values
    ensures Nearest(values, Print(base + [token])) == Nearest(values, Print(base))
  {
    hide Escape;
    hide Print;
    hide IsToken;
    hide Unescape;
    PrintPush(base, token);
    UnescapeEscape(token);
    TokensHaveNoSlash(Escape(token));
    ParentOfToken(Print(base), Escape(token));
  }

  /** The source map of a node: of a whole parsed document, or of a node in one.
      A node that is a member of a mapping also has a key of its own, at the empty
      pointer, which is no key of anything below it. */
  ghost predicate MapOf<S>(n: SourceNodes.Node<S>, m: SourceMap<S>) {
    && SourceNodes.RecordsExactly(m.values, SourceNodes.Values(n))
    && SourceNodes.RecordsExactly(m.keys - {Print([])}, SourceNodes.KeysBelow(n))
  }

  /** A value that is neither supplied nor defaulted is attributed to its
      declaration: to the key of its declared field, for an undeclared name to the
      declared parameters as a whole, and without declared parameters to the
      parameter schema. */
  lemma LocatedMissing<S>(sources: ParameterSources<S>, n: SourceNodes.Node<S>, m: SourceMap<S>, prefix: seq<string>,
                          path: seq<string>, supplied: Value, defaults: Option<Value>, axes: Axes<Value>)
    requires MapOf(n, m) && sources.declaration == Origin(m, Print(prefix))
    requires path != [] && Walk(supplied, path).None? && (defaults.Some? ==> Walk(defaults.value, path).None?)
    ensures
      var parameters := Walk(SourceNodes.ToJson(n), prefix + ["parameters"]);
      var span := Located(sources, path, supplied, defaults, axes);
      && (parameters.Some? && parameters.value.Object? && path[0] in parameters.value.fields ==>
            span == SourceNodes.KeyAt(n, prefix + ["parameters"] + [path[0]]) && span.Some?)
      && (parameters.Some? && parameters.value.Object? && path[0] !in parameters.value.fields ==>
            span == SourceNodes.ValueAt(n, prefix + ["parameters"]) && span.Some?)
      && (parameters.None? && Walk(SourceNodes.ToJson(n), prefix + ["parameter-schema"]).Some? ==>
            span == SourceNodes.ValueAt(n, prefix + ["parameter-schema"]) && span.Some?)
  {
    hide Print;
    hide Walk;
    hide Nearest;
    hide Located;
    hide MapOf;
    var base := prefix + ["parameters"];
    MissingSpan(sources, m, prefix, path, supplied, defaults, axes);
    RecordedNode(n, m, base);
    RecordedNode(n, m, prefix + ["parameter-schema"]);
    RecordedMember(n, m, base, path[0]);
  }

  lemma MissingSpan<S>(sources: ParameterSources<S>, m: SourceMap<S>, prefix: seq<string>, path: seq<string>,
                       supplied: Value, defaults: Option<Value>, axes: Axes<Value>)
    requires sources.declaration == Origin(m, Print(prefix))
    requires path != [] && Walk(supplied, path).None? && (defaults.Some? ==> Walk(defaults.value, path).None?)
    ensures
      var parameters := prefix + ["parameters"];
      var field := Print(parameters + [path[0]]);
      Located(sources, path, supplied, defaults, axes) ==
      if !Contains(m, Print(parameters)) then Nearest(m.values, Print(prefix + ["parameter-schema"]))
      else if field in m.keys then Some(m.keys[field])
      else Nearest(m.values, field)
  {
    hide Print;
    hide Walk;
    hide Nearest;
    FixedKeys();
    PrintAppend(prefix, ["parameters"]);
    PrintAppend(prefix, ["parameter-schema"]);
    PrintAppend(prefix, ["parameters", path[0]]);
    assert prefix + ["parameters", path[0]] == prefix + ["parameters"] + [path[0]];
  }

  lemma RecordedNode<S>(n: SourceNodes.Node<S>, m: SourceMap<S>, path: seq<string>)
    requires MapOf(n, m)
    ensures Contains(m, Print(path)) <==> Walk(SourceNodes.ToJson(n), path).Some?
    ensures Contains(m, Print(path)) <==> SourceNodes.ValueAt(n, path).Some?
    ensures Contains(m, Print(path)) ==> Nearest(m.values, Print(path)) == SourceNodes.ValueAt(n, path)
  {
    hide Print;
    hide Walk;
    SourceNodes.LocatedIffEvaluates(n, path);
    assert SourceNodes.Values(n)(path) == SourceNodes.ValueAt(n, path);
  }

  lemma RecordedMember<S>(n: SourceNodes.Node<S>, m: SourceMap<S>, base: seq<string>, name: string)
    requires MapOf(n, m)
    ensures
      var pointer, parent := Print(base + [name]), Walk(SourceNodes.ToJson(n), base);
      parent.Some? && parent.value.Object? ==>
        if name in parent.value.fields then
          pointer in m.keys && Some(m.keys[pointer]) == SourceNodes.KeyAt(n, base + [name])
        else pointer !in m.keys && Nearest(m.values, pointer) == Nearest(m.values, Print(base))
  {
    hide Print;
    hide Walk;
    hide Nearest;
    SourceNodes.KeyOfMember(n, base, name);
    assert SourceNodes.KeysBelow(n)(base + [name]) == SourceNodes.KeyAt(n, base + [name]);
    WalkAppend(SourceNodes.ToJson(n), base, [name]);
    RecordedNode(n, m, base + [name]);
    var parent := Walk(SourceNodes.ToJson(n), base);
    if parent.Some? {
      WalkOne(parent.value, name);
      if parent.value.Object? && name !in parent.value.fields {
        NearestAbove(m.values, base, name);
      }
    }
  }

  // ----- a failure of the whole object -----

  /** k is the number of keys of the path that lead to authored nodes. */
  ghost predicate ReachesAuthored<S>(n: SourceNodes.Node<S>, path: seq<string>, k: nat) {
    && k <= |path| && Walk(SourceNodes.ToJson(n), path[..k]).Some?
    && (k == |path| || Walk(SourceNodes.ToJson(n), path[..k + 1]).None?)
  }

  /** In the map of a parsed document any path has a span: that of the deepest
      authored node on the way. */
  lemma {:induction false} DeepestAuthored<S>(n: SourceNodes.Node<S>, m: SourceMap<S>, path: seq<string>)
    returns (k: nat)
    requires MapOf(n, m)
    ensures ReachesAuthored(n, path, k)
    ensures Nearest(m.values, Print(path)).Some? && Nearest(m.values, Print(path)) == SourceNodes.ValueAt(n, path[..k])
    decreases |path|
  {
    hide Print;
    hide Nearest;
    hide MapOf;
    k := |path|;
    assert path[..k] == path;
    RecordedNode(n, m, path);
    if Walk(SourceNodes.ToJson(n), path).None? {
      var up := path[..k - 1];
      assert path == up + [path[k - 1]];
      NotRecorded(n, m, path);
      NearestAbove(m.values, up, path[k - 1]);
      k := DeepestAuthored(n, m, up);
      assert up[..k] == path[..k];
      assert k < |up| ==> up[..k + 1] == path[..k + 1];
    }
  }

  lemma NotRecorded<S>(n: SourceNodes.Node<S>, m: SourceMap<S>, path: seq<string>)
    requires MapOf(n, m) && Walk(SourceNodes.ToJson(n), path).None?
    ensures Print(path) !in m.values && path != []
  {
    hide Print;
    RecordedNode(n, m, path);
  }

  /** A failure of the whole parameter object is located at the experiment's
      parameters, or where those are not authored at the deepest authored node
      around them. The declaration is the answer only when the experiment's map
      records nothing on the way, which no parsed document's map does. */
  lemma LocatedWhole<S>(sources: ParameterSources<S>, n: SourceNodes.Node<S>, m: SourceMap<S>, prefix: seq<string>,
                        supplied: Value, defaults: Option<Value>, axes: Axes<Value>)
    returns (k: nat)
    requires MapOf(n, m) && sources.experiment == Origin(m, Print(prefix))
    ensures ReachesAuthored(n, prefix, k)
    ensures Located(sources, [], supplied, defaults, axes) == SourceNodes.ValueAt(n, prefix[..k])
    ensures Walk(SourceNodes.ToJson(n), prefix).Some? ==> k == |prefix|
  {
    hide Nearest;
    hide MapOf;
    k := DeepestAuthored(n, m, prefix);
    assert Print(prefix) + Print([]) == Print(prefix);
    if k < |prefix| {
      assert prefix == prefix[..k + 1] + prefix[k + 1..];
      WalkAppend(SourceNodes.ToJson(n), prefix[..k + 1], prefix[k + 1..]);
    }
  }

  /** Without any record at or above the experiment's parameters the declaration
      is the answer. */
  lemma LocatedWholeUnrecorded<S>(sources: ParameterSources<S>, supplied: Value, defaults: Option<Value>,
                                  axes: Axes<Value>)
    ensures
      (forall q :: Ancestor(q, sources.experiment.pointer) ==> q !in sources.experiment.map_.values) <==>
      Nearest(sources.experiment.map_.values, sources.experiment.pointer).None?
    ensures
      Located(sources, [], supplied, defaults, axes) ==
      if Nearest(sources.experiment.map_.values, sources.experiment.pointer).Some? then
        Nearest(sources.experiment.map_.values, sources.experiment.pointer)
      else Nearest(sources.declaration.map_.values, sources.declaration.pointer)
  {
    hide Nearest;
    NearestIsLongest(sources.experiment.map_.values, sources.experiment.pointer);
    assert sources.experiment.pointer + Print([]) == sources.experiment.pointer;
    assert sources.declaration.pointer + Print([]) == sources.declaration.pointer;
  }
}
