/** How a parsed YAML document fills its source map in src/core/yaml.rs. */
module SourceNodes {
  import opened Json
  import opened Keys
  import opened Pointers
  import opened SourceMaps
  import opened Wrappers

  type ScalarValue = v: Value | !v.Object? && !v.Array? witness Null

  /** A parsed node with its location; a mapping also locates its keys. */
  datatype Node<S> =
    | Scalar(at: S, value: ScalarValue)
    | Sequence(at: S, items: seq<Node<S>>)
    | Mapping(at: S, fields: map<string, Field<S>>)

  datatype Field<S> = Field(keyAt: S, node: Node<S>)

  function ToJson<S>(n: Node<S>): Value {
    match n
    case Scalar(_, v) => v
    case Sequence(_, items) => Array(seq(|items|, i requires 0 <= i < |items| => ToJson(items[i])))
    case Mapping(_, fields) => Object(map k | k in fields :: ToJson(fields[k].node))
  }

  function ChildNode<S>(n: Node<S>, token: string): (child: Option<Node<S>>)
    ensures child.Some? ==> child.value < n
  {
    match n
    case Mapping(_, fields) => if token in fields then Some(fields[token].node) else None
    case Sequence(_, items) => (
      match Index(token)
      case None => None
      case Some(i) => if i < |items| then Some(items[i]) else None)
    case Scalar(_, _) => None
  }

  /** The location of the node at a path. */
  ghost function ValueAt<S>(n: Node<S>, path: seq<string>): Option<S>
    decreases |path|
  {
    if path == [] then Some(n.at)
    else
      match ChildNode(n, path[0])
      case None => None
      case Some(child) => ValueAt(child, path[1..])
  }

  /** The location of the key that a path ends in. */
  ghost function KeyAt<S>(n: Node<S>, path: seq<string>): Option<S>
    decreases |path|
  {
    if path == [] then None
    else if |path| == 1 then
      if n.Mapping? && path[0] in n.fields then Some(n.fields[path[0]].keyAt) else None
    else
      match ChildNode(n, path[0])
      case None => None
      case Some(child) => KeyAt(child, path[1..])
  }

  /** A path has a location exactly when it evaluates in the document. */
  lemma {:induction false} LocatedIffEvaluates<S>(n: Node<S>, path: seq<string>)
    ensures ValueAt(n, path).Some? <==> Walk(ToJson(n), path).Some?
    decreases |path|
  {
    if path != [] {
      ChildOfJson(n, path[0]);
      if ChildNode(n, path[0]).Some? {
        LocatedIffEvaluates(ChildNode(n, path[0]).value, path[1..]);
      }
    }
  }

  lemma ChildOfJson<S>(n: Node<S>, token: string)
    ensures Child(ToJson(n), token) ==
            match ChildNode(n, token) case None => None case Some(child) => Some(ToJson(child))
  {}

  // ----- what one traversal adds to a map -----

  /** after is before with the pointers that f locates below base added. */
  ghost predicate Extends<S>(before: map<string, S>, after: map<string, S>, base: seq<string>,
                             f: seq<string> -> Option<S>) {
    && (forall p :: p in before ==> p in after)
    && (forall path :: f(path).Some? ==> Print(base + path) in after && after[Print(base + path)] == f(path).value)
    && (forall p :: p in after ==>
          || (p in before && before[p] == after[p])
          || exists path :: f(path).Some? && p == Print(base + path))
  }

  lemma ExtendsNothing<S>(m: map<string, S>, base: seq<string>, f: seq<string> -> Option<S>)
    requires forall path :: f(path).None?
    ensures Extends(m, m, base, f)
  {}

  /** Additions at different paths add up. */
  lemma ExtendsTwice<S>(before: map<string, S>, mid: map<string, S>, after: map<string, S>, base: seq<string>,
                        f: seq<string> -> Option<S>, g: seq<string> -> Option<S>, h: seq<string> -> Option<S>)
    requires Extends(before, mid, base, f) && Extends(mid, after, base, g)
    requires forall path :: !(f(path).Some? && g(path).Some?)
    requires forall path :: h(path) == if f(path).Some? then f(path) else g(path)
    ensures Extends(before, after, base, h)
  {
    hide Print;
    forall path | h(path).Some?
      ensures Print(base + path) in after && after[Print(base + path)] == h(path).value
    {
      if f(path).Some? {
        var p := Print(base + path);
        assert p in mid && mid[p] == f(path).value;
        if other :| g(other).Some? && p == Print(base + other) {
          PrintInjective(base + path, base + other);
          SameSuffix(base, path, other);
        }
      }
    }
    forall p | p in after
      ensures || (p in before && before[p] == after[p])
              || exists path :: h(path).Some? && p == Print(base + path)
    {
      if other :| g(other).Some? && p == Print(base + other) {
        assert h(other).Some?;
      } else if other :| f(other).Some? && p == Print(base + other) {
        assert h(other).Some?;
      }
    }
  }

  lemma SameSuffix(base: seq<string>, a: seq<string>, b: seq<string>)
    requires base + a == base + b
    ensures a == b
  {
    assert (base + a)[|base|..] == a && (base + b)[|base|..] == b;
  }

  lemma ExtendsOne<S>(m: map<string, S>, base: seq<string>, path: seq<string>, at: S, f: seq<string> -> Option<S>)
    requires f(path) == Some(at) && forall other :: other != path ==> f(other).None?
    ensures Extends(m, m[Print(base + path) := at], base, f)
  {
    hide Print;
  }

  lemma PathBelow(base: seq<string>, token: string, rest: seq<string>, path: seq<string>)
    requires path == [token] + rest
    ensures path != [] && path[0] == token && path[1..] == rest && base + path == base + [token] + rest
  {}

  lemma PathSplits(base: seq<string>, token: string, path: seq<string>)
    requires path != [] && path[0] == token
    ensures base + path == base + [token] + path[1..]
  {
    assert path == [token] + path[1..];
  }

  /** What is added below a child, seen from its parent. */
  lemma ExtendsBelow<S>(before: map<string, S>, after: map<string, S>, base: seq<string>, token: string,
                        f: seq<string> -> Option<S>, g: seq<string> -> Option<S>)
    requires Extends(before, after, base + [token], f)
    requires forall path :: g(path) == if path != [] && path[0] == token then f(path[1..]) else None
    ensures Extends(before, after, base, g)
  {
    hide Print;
    forall path | g(path).Some?
      ensures Print(base + path) in after && after[Print(base + path)] == g(path).value
    {
      PathSplits(base, token, path);
    }
    forall p | p in after && !(p in before && before[p] == after[p])
      ensures exists path :: g(path).Some? && p == Print(base + path)
    {
      var rest :| f(rest).Some? && p == Print(base + [token] + rest);
      var path := [token] + rest;
      PathBelow(base, token, rest, path);
      assert g(path).Some?;
    }
  }

  // ----- collect_spans -----

  /** The locations below some of the children. */
  ghost function Under<S>(f: seq<string> -> Option<S>, tokens: set<string>): seq<string> -> Option<S> {
    (path: seq<string>) => if path != [] && path[0] in tokens then f(path) else None
  }

  ghost function Values<S>(n: Node<S>): seq<string> -> Option<S> {
    (path: seq<string>) => ValueAt(n, path)
  }

  ghost function KeysBelow<S>(n: Node<S>): seq<string> -> Option<S> {
    (path: seq<string>) => KeyAt(n, path)
  }

  /** One more child: what was added below it joins what the children before it
      added. */
  lemma ExtendsChild<S>(before: map<string, S>, mid: map<string, S>, after: map<string, S>, base: seq<string>,
                        f: seq<string> -> Option<S>, done: set<string>, token: string, g: seq<string> -> Option<S>)
    requires token !in done && Extends(before, mid, base, Under(f, done)) && Extends(mid, after, base + [token], g)
    requires forall path :: path != [] && path[0] == token ==> f(path) == g(path[1..])
    ensures Extends(before, after, base, Under(f, done + {token}))
  {
    hide Extends;
    ExtendsBelow(mid, after, base, token, g, Under(f, {token}));
    ExtendsTwice(before, mid, after, base, Under(f, done), Under(f, {token}), Under(f, done + {token}));
  }

  /** The key of a field and what its node adds. */
  lemma ExtendsKey<S>(before: map<string, S>, after: map<string, S>, base: seq<string>, field: Field<S>,
                      g: seq<string> -> Option<S>)
    requires Extends(before[Print(base) := field.keyAt], after, base, KeysBelow(field.node))
    requires forall path :: g(path) == if path == [] then Some(field.keyAt) else KeyAt(field.node, path)
    ensures Extends(before, after, base, g)
  {
    hide Extends;
    hide Print;
    var one := (path: seq<string>) => if path == [] then Some(field.keyAt) else None;
    assert base + [] == base;
    ExtendsOne(before, base, [], field.keyAt, one);
    ExtendsTwice(before, before[Print(base) := field.keyAt], after, base, one, KeysBelow(field.node), g);
  }

  /** The root and all its children. */
  lemma ExtendsRoot<S>(before: map<string, S>, after: map<string, S>, base: seq<string>, n: Node<S>,
                       tokens: set<string>)
    requires Extends(before[Print(base) := n.at], after, base, Under(Values(n), tokens))
    requires forall token :: ChildNode(n, token).Some? ==> token in tokens
    ensures Extends(before, after, base, Values(n))
  {
    hide Extends;
    hide Print;
    var one := (path: seq<string>) => if path == [] then Some(n.at) else None;
    assert base + [] == base;
    ExtendsOne(before, base, [], n.at, one);
    ExtendsTwice(before, before[Print(base) := n.at], after, base, one, Under(Values(n), tokens), Values(n));
  }

  lemma ExtendsAll<S>(before: map<string, S>, after: map<string, S>, base: seq<string>, f: seq<string> -> Option<S>,
                      tokens: set<string>, g: seq<string> -> Option<S>)
    requires Extends(before, after, base, f) && forall path :: f(path) == g(path)
    ensures Extends(before, after, base, g)
  {
    hide Print;
  }

  /** Only children and their keys have key locations. */
  lemma KeysUnder<S>(n: Node<S>, tokens: set<string>, path: seq<string>)
    requires forall token :: ChildNode(n, token).Some? ==> token in tokens
    ensures Under(KeysBelow(n), tokens)(path) == KeysBelow(n)(path)
  {}

  class Collector<S> {
    var spans: SourceMap<S>

    constructor ()
      ensures spans == SourceMap(map[], map[])
    {
      spans := SourceMap(map[], map[]);
    }

    /** Adds the span of every node below the pointer, and of every key. */
    method CollectSpans(n: Node<S>, pointer: string, ghost base: seq<string>)
      requires pointer == Print(base)
      modifies this
      ensures Extends(old(spans.values), spans.values, base, Values(n))
      ensures Extends(old(spans.keys), spans.keys, base, KeysBelow(n))
      decreases n, 1
    {
      hide Extends;
      hide Values;
      hide KeysBelow;
      hide Under;
      hide ChildNode;
      ghost var values, keys := spans.values, spans.keys;
      spans := spans.(values := spans.values[pointer := n.at]);
      match n
      case Scalar(_, _) =>
        NoChildren(spans.values, spans.keys, base, n);
        ExtendsRoot(values, spans.values, base, n, {});
      case Sequence(_, items) =>
        CollectItems(n, pointer, base);
        Children(n);
        ExtendsRoot(values, spans.values, base, n, Tokens(n));
        AllKeysOf(keys, spans.keys, base, n);
      case Mapping(_, fields) =>
        CollectFields(n, pointer, base);
        Children(n);
        ExtendsRoot(values, spans.values, base, n, Tokens(n));
        AllKeysOf(keys, spans.keys, base, n);
    }

    method CollectItems(n: Node<S>, pointer: string, ghost base: seq<string>)
      requires pointer == Print(base) && n.Sequence?
      modifies this
      ensures Extends(old(spans.values), spans.values, base, Under(Values(n), Tokens(n)))
      ensures Extends(old(spans.keys), spans.keys, base, Under(KeysBelow(n), Tokens(n)))
      decreases n, 0
    {
      hide Extends;
      hide Under;
      hide Index;
      hide Escape;
      hide Print;
      hide Show;
      hide Shown;
      hide Values;
      hide KeysBelow;
      hide ValueAt;
      hide KeyAt;
      ExtendsNoChild(spans.values, base, Values(n));
      ExtendsNoChild(spans.keys, base, KeysBelow(n));
      for i := 0 to |n.items|
        invariant Extends(old(spans.values), spans.values, base, Under(Values(n), Shown(i)))
        invariant Extends(old(spans.keys), spans.keys, base, Under(KeysBelow(n), Shown(i)))
      {
        ghost var values, keys := spans.values, spans.keys;
        ItemText(base, i);
        ItemBelow(n, i);
        CollectSpans(n.items[i], pointer + "/" + Show(i), base + [Show(i)]);
        NextShown(i);
        ExtendsChild(old(spans.values), values, spans.values, base, Values(n), Shown(i), Show(i), Values(n.items[i]));
        ExtendsChild(old(spans.keys), keys, spans.keys, base, KeysBelow(n), Shown(i), Show(i), KeysBelow(n.items[i]));
      }
    }

    method CollectFields(n: Node<S>, pointer: string, ghost base: seq<string>)
      requires pointer == Print(base) && n.Mapping?
      modifies this
      ensures Extends(old(spans.values), spans.values, base, Under(Values(n), Tokens(n)))
      ensures Extends(old(spans.keys), spans.keys, base, Under(KeysBelow(n), Tokens(n)))
      decreases n, 0
    {
      hide Extends;
      hide Under;
      hide KeysOf;
      hide Ascending;
      hide Escape;
      hide Print;
      var names := SortKeys(n.fields.Keys);
      ghost var done: set<string> := {};
      ExtendsNoChild(spans.values, base, Values(n));
      ExtendsNoChild(spans.keys, base, KeysBelow(n));
      for i := 0 to |names|
        invariant done == set j | 0 <= j < i :: names[j]
        invariant Extends(old(spans.values), spans.values, base, Under(Values(n), done))
        invariant Extends(old(spans.keys), spans.keys, base, Under(KeysBelow(n), done))
      {
        ghost var values, keys := spans.values, spans.keys;
        var name := names[i];
        assert name in names;
        NotYet(names, n.fields.Keys, i);
        PrintPush(base, name);
        var below := pointer + "/" + Escape(name);
        spans := spans.(keys := spans.keys[below := n.fields[name].keyAt]);
        CollectSpans(n.fields[name].node, below, base + [name]);
        ExtendsField(n, name, keys, spans.keys, base);
        ExtendsChild(old(spans.values), values, spans.values, base, Values(n), done, name, Values(n.fields[name].node));
        ExtendsChild(old(spans.keys), keys, spans.keys, base, KeysBelow(n), done, name, KeysFrom(n.fields[name]));
        done := done + {name};
      }
      AllKeys(names, n.fields.Keys);
    }
  }

  /** The key of a field followed by the keys below it. */
  ghost function KeysFrom<S>(field: Field<S>): seq<string> -> Option<S> {
    (path: seq<string>) => if path == [] then Some(field.keyAt) else KeyAt(field.node, path)
  }

  lemma ExtendsField<S>(n: Node<S>, name: string, before: map<string, S>, after: map<string, S>, base: seq<string>)
    requires n.Mapping? && name in n.fields
    requires
      Extends(before[Print(base + [name]) := n.fields[name].keyAt], after, base + [name],
              KeysBelow(n.fields[name].node))
    ensures Extends(before, after, base + [name], KeysFrom(n.fields[name]))
    ensures forall path :: path != [] && path[0] == name ==> KeysBelow(n)(path) == KeysFrom(n.fields[name])(path[1..])
  {
    hide Extends;
    hide Print;
    ExtendsKey(before, after, base + [name], n.fields[name], KeysFrom(n.fields[name]));
  }

  /** The tokens of the first i items. */
  ghost function Shown(i: nat): set<string> {
    set j | 0 <= j < i :: Show(j)
  }

  lemma NextShown(i: nat)
    ensures Show(i) !in Shown(i) && Shown(i + 1) == Shown(i) + {Show(i)}
  {
    hide Show;
    forall j | 0 <= j < i ensures Show(j) != Show(i) {
      assert Decimal(Show(j)) == j && Decimal(Show(i)) == i;
    }
  }

  /** The tokens under which a node has children. */
  ghost function Tokens<S>(n: Node<S>): set<string> {
    match n
    case Mapping(_, fields) => fields.Keys
    case Sequence(_, items) => Shown(|items|)
    case Scalar(_, _) => {}
  }

  lemma Children<S>(n: Node<S>)
    ensures forall token :: ChildNode(n, token).Some? ==> token in Tokens(n)
  {
    hide Index;
    hide Show;
    if n.Sequence? {
      forall token | ChildNode(n, token).Some? ensures token in Tokens(n) {
        IndexIsShown(token);
      }
    }
  }

  lemma NoChildren<S>(values: map<string, S>, keys: map<string, S>, base: seq<string>, n: Node<S>)
    requires n.Scalar?
    ensures Extends(values, values, base, Under(Values(n), {})) && Extends(keys, keys, base, KeysBelow(n))
    ensures forall token :: ChildNode(n, token).None?
  {
    hide Print;
    ExtendsNoChild(values, base, Values(n));
    ExtendsNothing(keys, base, KeysBelow(n));
  }

  lemma ExtendsNoChild<S>(m: map<string, S>, base: seq<string>, f: seq<string> -> Option<S>)
    ensures Extends(m, m, base, Under(f, {})) && Extends(m, m, base, Under(f, Shown(0)))
  {
    hide Extends;
    ExtendsNothing(m, base, Under(f, {}));
    ExtendsNothing(m, base, Under(f, Shown(0)));
  }

  lemma AllKeysOf<S>(before: map<string, S>, after: map<string, S>, base: seq<string>, n: Node<S>)
    requires Extends(before, after, base, Under(KeysBelow(n), Tokens(n)))
    ensures Extends(before, after, base, KeysBelow(n))
  {
    hide Extends;
    hide Tokens;
    Children(n);
    forall path ensures Under(KeysBelow(n), Tokens(n))(path) == KeysBelow(n)(path) {
      KeysUnder(n, Tokens(n), path);
    }
    ExtendsAll(before, after, base, Under(KeysBelow(n), Tokens(n)), Tokens(n), KeysBelow(n));
  }

  lemma ItemText(base: seq<string>, i: nat)
    ensures Print(base + [Show(i)]) == Print(base) + "/" + Show(i)
  {
    hide Index;
    PrintPush(base, Show(i));
    IndexShow(i);
  }

  lemma ItemBelow<S>(n: Node<S>, i: nat)
    requires n.Sequence? && i < |n.items|
    ensures forall path :: path != [] && path[0] == Show(i) ==> Values(n)(path) == Values(n.items[i])(path[1..])
    ensures forall path :: path != [] && path[0] == Show(i) ==> KeysBelow(n)(path) == KeysBelow(n.items[i])(path[1..])
  {
    hide Index;
    hide Show;
    IndexShow(i);
  }

  // ----- the source map of a document -----

  ghost predicate IsPrinted(pointer: string) {
    exists path: seq<string> :: pointer == Print(path)
  }

  /** The map records exactly the paths that f locates, each with its location. */
  ghost predicate RecordsExactly<S>(m: map<string, S>, f: seq<string> -> Option<S>) {
    && (forall path :: Print(path) in m <==> f(path).Some?)
    && (forall path :: Print(path) in m ==> f(path) == Some(m[Print(path)]))
    && (forall pointer :: pointer in m ==> IsPrinted(pointer))
  }

  /** Collecting a whole document records exactly the pointers that evaluate in
      it, each with the location of its own node, and exactly the pointers to
      members of mappings, each with the location of its key. */
  method CollectDocument<S>(n: Node<S>) returns (spans: SourceMap<S>)
    ensures forall path :: Contains(spans, Print(path)) <==> Walk(ToJson(n), path).Some?
    ensures RecordsExactly(spans.values, Values(n)) && RecordsExactly(spans.keys, KeysBelow(n))
  {
    hide Extends;
    hide Print;
    hide Walk;
    hide Values;
    hide KeysBelow;
    var collector := new Collector<S>();
    NoTokens();
    collector.CollectSpans(n, "", []);
    spans := collector.spans;
    ExtendsFromNothing(spans.values, Values(n));
    ExtendsFromNothing(spans.keys, KeysBelow(n));
    ValuesEvaluate(n);
  }

  lemma NoTokens()
    ensures Print([]) == ""
  {}

  lemma ValuesEvaluate<S>(n: Node<S>)
    ensures forall path :: Values(n)(path).Some? <==> Walk(ToJson(n), path).Some?
  {
    hide Walk;
    forall path ensures Values(n)(path).Some? <==> Walk(ToJson(n), path).Some? {
      LocatedIffEvaluates(n, path);
    }
  }

  lemma PathRecorded<S>(m: map<string, S>, f: seq<string> -> Option<S>, path: seq<string>)
    requires Extends(map[], m, [], f)
    ensures Print(path) in m <==> f(path).Some?
    ensures Print(path) in m ==> f(path) == Some(m[Print(path)])
  {
    hide Print;
    assert [] + path == path;
    if Print(path) in m {
      var other := PathOf(m, f, Print(path));
      PrintInjective(path, other);
    }
  }

  lemma PathOf<S>(m: map<string, S>, f: seq<string> -> Option<S>, pointer: string) returns (path: seq<string>)
    requires Extends(map[], m, [], f) && pointer in m
    ensures f(path).Some? && pointer == Print(path)
  {
    hide Print;
    path :| f(path).Some? && pointer == Print([] + path);
    assert [] + path == path;
  }

  lemma ExtendsFromNothing<S>(m: map<string, S>, f: seq<string> -> Option<S>)
    requires Extends(map[], m, [], f)
    ensures RecordsExactly(m, f)
  {
    hide Print;
    hide Extends;
    forall path: seq<string>
      ensures Print(path) in m <==> f(path).Some?
      ensures Print(path) in m ==> f(path) == Some(m[Print(path)])
    {
      PathRecorded(m, f, path);
    }
    forall pointer | pointer in m ensures IsPrinted(pointer) {
      var path := PathOf(m, f, pointer);
    }
  }

  /** The members of a mapping are the paths that end in a key. */
  lemma {:induction false} KeyOfMember<S>(n: Node<S>, base: seq<string>, token: string)
    ensures KeyAt(n, base + [token]).Some? <==>
            Walk(ToJson(n), base).Some? && Walk(ToJson(n), base).value.Object?
            && token in Walk(ToJson(n), base).value.fields
    decreases |base|
  {
    if base == [] {
      assert [] + [token] == [token];
    } else {
      assert (base + [token])[1..] == base[1..] + [token];
      ChildOfJson(n, base[0]);
      if ChildNode(n, base[0]).Some? {
        KeyOfMember(ChildNode(n, base[0]).value, base[1..], token);
      }
    }
  }

  // ----- a node inside the document -----

  function NodeAt<S>(n: Node<S>, path: seq<string>): Option<Node<S>>
    decreases |path|
  {
    if path == [] then Some(n)
    else
      match ChildNode(n, path[0])
      case None => None
      case Some(child) => NodeAt(child, path[1..])
  }

  lemma {:induction false} NodeIsLocated<S>(n: Node<S>, path: seq<string>)
    ensures NodeAt(n, path).Some? <==> ValueAt(n, path).Some?
    ensures Walk(ToJson(n), path) == if NodeAt(n, path).Some? then Some(ToJson(NodeAt(n, path).value)) else None
    decreases |path|
  {
    if path != [] {
      ChildOfJson(n, path[0]);
      if ChildNode(n, path[0]).Some? {
        NodeIsLocated(ChildNode(n, path[0]).value, path[1..]);
      }
    }
  }

  /** What lies below a node lies below it in the document, under the same
      locations. Only the key of the node itself is not its own. */
  lemma {:induction false} NodeBelow<S>(n: Node<S>, path: seq<string>, more: seq<string>)
    requires NodeAt(n, path).Some?
    ensures ValueAt(n, path + more) == ValueAt(NodeAt(n, path).value, more)
    ensures more != [] ==> KeyAt(n, path + more) == KeyAt(NodeAt(n, path).value, more)
    decreases |path|
  {
    if path == [] {
      assert path + more == more;
    } else {
      assert (path + more)[1..] == path[1..] + more;
      NodeBelow(ChildNode(n, path[0]).value, path[1..], more);
    }
  }
}
