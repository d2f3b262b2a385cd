/** The source map of a problem contract from src/core/manifest.rs and
    src/core/problem_contract.rs: that of its own document, or for a contract
    written inside the manifest the part of the manifest's map below it. */
module InlineContracts {
  import AxisExpansion
  import opened Json
  import opened ParameterSources
  import opened Pointers
  import opened SourceMaps
  import opened SourceNodes
  import opened Wrappers

  // ----- the map of a document and of a node in it -----

  lemma DocumentIsMapOf<S>(n: Node<S>, m: SourceMap<S>)
    requires RecordsExactly(m.values, Values(n)) && RecordsExactly(m.keys, KeysBelow(n))
    ensures MapOf(n, m)
  {
    assert KeysBelow(n)([]).None?;
    assert m.keys - {Print([])} == m.keys;
  }

  /** A relative pointer that completes a printed pointer is printed itself. */
  lemma {:induction false} PrintedBelow(path: seq<string>, q: string, whole: seq<string>)
    requires IsSuffix(q) && Print(path) + q == Print(whole)
    ensures IsPrinted(q)
    decreases |path|
  {
    hide Escape;
    if path == [] {
      assert Print(path) + q == q;
    } else {
      FirstToken(path[0], Print(path[1..]) + q, whole);
      PrintedBelow(path[1..], q, whole[1..]);
    }
  }

  lemma FirstToken(token: string, more: string, whole: seq<string>)
    requires IsSuffix(more) && "/" + Escape(token) + more == Print(whole)
    ensures whole != [] && more == Print(whole[1..])
  {
    hide Escape;
    hide Unescape;
    hide IsToken;
    hide Split;
    UnescapeEscape(token);
    TokensHaveNoSlash(Escape(token));
    FirstPiece(whole);
    PieceOf(Escape(token), more);
    Cut("/", Escape(token), more, Escape(whole[0]), Print(whole[1..]));
  }

  lemma PieceOf(token: string, more: string)
    requires IsSuffix(more) && '/' !in token
    ensures Split(token + more)[0] == token
  {
    SplitPiece(token, more);
    assert token + "" == token;
  }

  lemma Cut(slash: string, a: string, x: string, b: string, y: string)
    requires slash + a + x == slash + b + y
    ensures a + x == b + y
    ensures a == b ==> x == y
  {
    assert a + x == (slash + a + x)[|slash|..] && b + y == (slash + b + y)[|slash|..];
    assert x == (a + x)[|a|..] && y == (b + y)[|b|..];
  }

  lemma PrintIsSuffix(path: seq<string>)
    ensures IsSuffix(Print(path)) && (Print(path) == "" <==> path == [])
  {}

  /** The pointers that the subtree below a base records. */
  lemma SubtreePoint<S>(spans: map<string, S>, base: seq<string>, more: seq<string>)
    ensures Print(more) in SubtreeSpans(spans, Print(base)) <==> Print(base + more) in spans
    ensures Print(base + more) in spans ==> SubtreeSpans(spans, Print(base))[Print(more)] == spans[Print(base + more)]
  {
    hide Print;
    hide SubtreeSpans;
    PrintIsSuffix(more);
    PrintAppend(base, more);
    SubtreeLookup(spans, Print(base), Print(more));
  }

  lemma SubtreePrinted<S>(spans: map<string, S>, base: seq<string>, q: string)
    requires q in SubtreeSpans(spans, Print(base)) && IsPrinted(Print(base) + q)
    ensures IsPrinted(q)
  {
    hide Print;
    hide SubtreeSpans;
    SubtreeLookup(spans, Print(base), q);
    var whole: seq<string> :| Print(base) + q == Print(whole);
    PrintedBelow(base, q, whole);
  }

  lemma SubtreeValues<S>(n: Node<S>, m: SourceMap<S>, base: seq<string>)
    requires RecordsExactly(m.values, Values(n)) && NodeAt(n, base).Some?
    ensures RecordsExactly(SubtreeSpans(m.values, Print(base)), Values(NodeAt(n, base).value))
  {
    hide Print;
    hide SubtreeSpans;
    var below, f := SubtreeSpans(m.values, Print(base)), Values(NodeAt(n, base).value);
    forall more: seq<string>
      ensures Print(more) in below <==> f(more).Some?
      ensures Print(more) in below ==> f(more) == Some(below[Print(more)])
    {
      SubtreePoint(m.values, base, more);
      NodeBelow(n, base, more);
      assert Values(n)(base + more) == f(more);
    }
    forall q | q in below
      ensures IsPrinted(q)
    {
      SubtreeLookup(m.values, Print(base), q);
      SubtreePrinted(m.values, base, q);
    }
  }

  lemma SubtreeKeys<S>(n: Node<S>, m: SourceMap<S>, base: seq<string>)
    requires RecordsExactly(m.keys - {Print([])}, KeysBelow(n)) && NodeAt(n, base).Some?
    ensures RecordsExactly(SubtreeSpans(m.keys, Print(base)) - {Print([])}, KeysBelow(NodeAt(n, base).value))
  {
    hide Print;
    hide SubtreeSpans;
    var below, f := SubtreeSpans(m.keys, Print(base)) - {Print([])}, KeysBelow(NodeAt(n, base).value);
    PrintIsSuffix([]);
    forall more: seq<string>
      ensures Print(more) in below <==> f(more).Some?
      ensures Print(more) in below ==> f(more) == Some(below[Print(more)])
    {
      PrintIsSuffix(more);
      PrintIsSuffix(base + more);
      SubtreePoint(m.keys, base, more);
      NodeBelow(n, base, more);
      assert KeysBelow(n)(base + more) == KeyAt(n, base + more);
    }
    forall q | q in below
      ensures IsPrinted(q)
    {
      SubtreeLookup(m.keys, Print(base), q);
      assert Print(base) + q != "";
      SubtreePrinted(m.keys, base, q);
    }
  }

  /** The part of a node's map below an inner node is that node's map. */
  lemma SubtreeIsMapOf<S>(n: Node<S>, m: SourceMap<S>, base: seq<string>)
    requires MapOf(n, m) && NodeAt(n, base).Some?
    ensures MapOf(NodeAt(n, base).value, Subtree(m, Print(base)))
  {
    hide Print;
    hide SubtreeSpans;
    SubtreeValues(n, m, base);
    SubtreeKeys(n, m, base);
  }

  // ----- the contract of a problem -----

  /** Where the manifest holds the inline contract of a problem: under its
      contract member, or else mixed into the problem itself. */
  ghost function ContractPath(document: Value, name: string): seq<string> {
    var problem := ["problems", name];
    if Walk(document, problem + ["contract"]).Some? then problem + ["contract"] else problem
  }

  /** The map attached to an inline contract is the map of its own node. */
  method InlineContract<S>(ghost n: Node<S>, m: SourceMap<S>, name: string) returns (contract: SourceMap<S>)
    requires MapOf(n, m) && Walk(ToJson(n), ["problems", name]).Some?
    ensures
      var path := ContractPath(ToJson(n), name);
      && contract == Subtree(m, Print(path)) && Contains(m, Print(path))
      && NodeAt(n, path).Some? && MapOf(NodeAt(n, path).value, contract)
    ensures
      forall more :: Contains(contract, Print(more)) <==>
        Walk(Walk(ToJson(n), ContractPath(ToJson(n), name)).value, more).Some?
  {
    hide Print;
    hide Walk;
    hide MapOf;
    hide Subtree;
    hide Escape;
    hide ValueAt;
    ContractText(name);
    var pointer := "/problems/" + Escape(name);
    RecordedNode(n, m, ["problems", name]);
    RecordedNode(n, m, ["problems", name, "contract"]);
    if Contains(m, pointer + "/contract") {
      pointer := pointer + "/contract";
    }
    contract := Subtree(m, pointer);
    ghost var path := ContractPath(ToJson(n), name);
    RecordedNode(n, m, path);
    NodeIsLocated(n, path);
    SubtreeIsMapOf(n, m, path);
    forall more: seq<string>
      ensures Contains(contract, Print(more)) <==> Walk(Walk(ToJson(n), path).value, more).Some?
    {
      RecordedNode(NodeAt(n, path).value, contract, more);
    }
  }

  lemma ContractText(name: string)
    ensures Print(["problems", name]) == "/problems/" + Escape(name)
    ensures Print(["problems", name, "contract"]) == Print(["problems", name]) + "/contract"
    ensures ["problems", name] + ["contract"] == ["problems", name, "contract"]
  {
    hide Escape;
    hide Print;
    PlainText("problems");
    PlainText("contract");
    PrintPlain("problems", "/problems");
    PrintPlain("contract", "/contract");
    PrintOne(name);
    PrintAppend(["problems"], [name]);
    assert ["problems"] + [name] == ["problems", name];
    assert ["problems", name] + ["contract"] == ["problems", name, "contract"];
    PrintAppend(["problems", name], ["contract"]);
    assert "/problems" + ("/" + Escape(name)) == "/problems/" + Escape(name);
  }

  // ----- which of the two maps is used makes no difference -----

  /** Two origins under which every printed pointer is recorded alike. */
  ghost predicate Alike<S>(o: Origin<S>, w: Origin<S>) {
    && (forall path :: OriginContains(o, Print(path)) <==> OriginContains(w, Print(path)))
    && (forall path :: SpanAt(o, path) == SpanAt(w, path))
    && (forall path :: path != [] ==> KeySpan(o, path) == KeySpan(w, path))
  }

  ghost function KeySpan<S>(o: Origin<S>, path: seq<string>): Option<S> {
    var pointer := o.pointer + Print(path);
    if pointer in o.map_.keys then Some(o.map_.keys[pointer]) else None
  }

  lemma SubtreeIsAlike<S>(m: SourceMap<S>, base: seq<string>)
    requires Contains(m, Print(base))
    ensures Alike(Origin(Subtree(m, Print(base)), ""), Origin(m, Print(base)))
  {
    hide Print;
    hide SubtreeSpans;
    hide Nearest;
    var o, w := Origin(Subtree(m, Print(base)), ""), Origin(m, Print(base));
    forall path: seq<string>
      ensures OriginContains(o, Print(path)) <==> OriginContains(w, Print(path))
      ensures SpanAt(o, path) == SpanAt(w, path) && KeySpan(o, path) == KeySpan(w, path)
    {
      PrintIsSuffix(path);
      PrintAppend(base, path);
      assert "" + Print(path) == Print(path);
      SubtreePoint(m.values, base, path);
      SubtreePoint(m.keys, base, path);
      RecordedSubtreeSpan(m, Print(base), Print(path));
    }
  }

  /** Exchanging origins that are alike changes no attribution: of supplied
      values, of defaults or of missing values. */
  lemma LocatedAlike<S>(a: ParameterSources<S>, b: ParameterSources<S>, path: seq<string>, supplied: Value,
                        defaults: Option<Value>, axes: AxisExpansion.Axes<Value>)
    requires Alike(a.declaration, b.declaration) && Alike(a.defaults, b.defaults)
    requires a.experiment == b.experiment && a.overlay == b.overlay
    ensures Located(a, path, supplied, defaults, axes) == Located(b, path, supplied, defaults, axes)
  {
    hide Print;
    hide Walk;
    hide Nearest;
    FixedKeys();
    if path != [] {
      var name := path[0];
      assert KeySpan(a.declaration, ["parameters", name]) == KeySpan(b.declaration, ["parameters", name]);
      assert SpanAt(a.declaration, ["parameters", name]) == SpanAt(b.declaration, ["parameters", name]);
      assert OriginContains(a.declaration, Print(["parameters"])) <==>
             OriginContains(b.declaration, Print(["parameters"]));
      assert OriginContains(a.defaults, Print(["parameters"])) <==> OriginContains(b.defaults, Print(["parameters"]));
      if name in axes {
        AuthoredAlike(a.declaration, b.declaration, ["parameters"], axes[name], supplied, name, path[1..]);
      }
    }
  }

  lemma AuthoredAlike<S>(o: Origin<S>, w: Origin<S>, base: seq<string>, axis: AxisExpansion.Axis<Value>,
                         supplied: Value, name: string, rest: seq<string>)
    requires Alike(o, w)
    ensures AuthoredPath(o, base, axis, supplied, name, rest) == AuthoredPath(w, base, axis, supplied, name, rest)
  {
    hide Print;
    hide SpanAt;
    hide KeySpan;
    assert OriginContains(o, Print(base + [name, "value"])) <==> OriginContains(w, Print(base + [name, "value"]));
  }

  /** Attribution through the map of an inline contract is attribution through the
      manifest's map at the contract's pointer. */
  lemma InlineLocatesAlike<S>(inline: ParameterSources<S>, m: SourceMap<S>, base: seq<string>, path: seq<string>,
                              supplied: Value, defaults: Option<Value>, axes: AxisExpansion.Axes<Value>)
    requires Contains(m, Print(base)) && inline.declaration == Origin(Subtree(m, Print(base)), "")
    ensures
      var whole := Origin(m, Print(base));
      && Located(inline, path, supplied, defaults, axes) ==
         Located(inline.(declaration := whole), path, supplied, defaults, axes)
      && (inline.defaults == inline.declaration ==>
            Located(inline, path, supplied, defaults, axes) ==
            Located(inline.(declaration := whole, defaults := whole), path, supplied, defaults, axes))
  {
    hide Print;
    hide Subtree;
    hide Located;
    hide Alike;
    var whole := Origin(m, Print(base));
    SubtreeIsAlike(m, base);
    AlikeItself(inline.defaults);
    LocatedAlike(inline, inline.(declaration := whole), path, supplied, defaults, axes);
    if inline.defaults == inline.declaration {
      LocatedAlike(inline, inline.(declaration := whole, defaults := whole), path, supplied, defaults, axes);
    }
  }

  lemma AlikeItself<S>(o: Origin<S>)
    ensures Alike(o, o)
  {}
}
