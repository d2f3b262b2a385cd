/** Source maps from src/core/yaml.rs: which span a pointer into a document gets. */
module SourceMaps {
  import opened Wrappers

  datatype SourceMap<S> = SourceMap(values: map<string, S>, keys: map<string, S>)

  predicate Contains<S>(m: SourceMap<S>, pointer: string) {
    pointer in m.values
  }

  /** pointer.rsplit_once('/') without the part after the slash. */
  function Parent(pointer: string): (parent: Option<string>)
    ensures parent.Some? ==> |parent.value| < |pointer|
  {
    if pointer == "" then None
    else
      var n := |pointer| - 1;
      if pointer[n] == '/' then Some(pointer[..n]) else Parent(pointer[..n])
  }

  /** q is p or one of the pointers above it. */
  predicate Ancestor(q: string, p: string) {
    |q| <= |p| && p[..|q|] == q && (|q| == |p| || p[|q|] == '/')
  }

  ghost function Nearest<S>(values: map<string, S>, pointer: string): Option<S>
    decreases |pointer|
  {
    if pointer in values then Some(values[pointer])
    else
      match Parent(pointer)
      case None => None
      case Some(parent) => Nearest(values, parent)
  }

  method Span<S>(m: SourceMap<S>, pointer: string) returns (span: Option<S>)
    ensures span == Nearest(m.values, pointer)
  {
    var at := pointer;
    while true
      invariant Nearest(m.values, pointer) == Nearest(m.values, at)
      decreases |at|
    {
      if at in m.values {
        return Some(m.values[at]);
      }
      var parent := Parent(at);
      if parent.None? {
        return None;
      }
      at := parent.value;
    }
  }

  method FieldSpan<S>(m: SourceMap<S>, pointer: string) returns (span: Option<S>)
    ensures span == if pointer in m.keys then Some(m.keys[pointer]) else Nearest(m.values, pointer)
  {
    if pointer in m.keys {
      return Some(m.keys[pointer]);
    }
    span := Span(m, pointer);
  }

  // ----- the span found is that of the nearest recorded ancestor -----

  lemma {:induction false} ParentIsNextAncestor(p: string, q: string)
    ensures match Parent(p)
            case None => Ancestor(q, p) ==> q == p
            case Some(parent) => Ancestor(parent, p) && (Ancestor(q, p) <==> q == p || Ancestor(q, parent))
    decreases |p|
  {
    if p != "" {
      var n := |p| - 1;
      if p[n] == '/' {
        assert |q| <= n ==> p[..n][..|q|] == p[..|q|];
      } else {
        ParentIsNextAncestor(p[..n], q);
        var parent := Parent(p[..n]);
        if parent.Some? {
          assert p[..n][..|parent.value|] == p[..|parent.value|];
        }
        assert |q| <= n ==> p[..n][..|q|] == p[..|q|];
      }
    }
  }

  /** The span is that of the longest recorded pointer at or above the given one,
      and there is none exactly when no such pointer is recorded. */
  lemma {:induction false} NearestIsLongest<S>(values: map<string, S>, pointer: string)
    ensures
      match Nearest(values, pointer)
      case None => forall q :: Ancestor(q, pointer) ==> q !in values
      case Some(span) =>
        exists q :: Ancestor(q, pointer) && q in values && values[q] == span &&
                    forall r :: Ancestor(r, pointer) && r in values ==> |r| <= |q|
    decreases |pointer|
  {
    hide Parent;
    assert Ancestor(pointer, pointer);
    if pointer !in values {
      var parent := Parent(pointer);
      forall q ensures Ancestor(q, pointer) <==> q == pointer || (parent.Some? && Ancestor(q, parent.value)) {
        ParentIsNextAncestor(pointer, q);
      }
      if parent.Some? {
        NearestIsLongest(values, parent.value);
      }
    } else {
      assert forall r :: Ancestor(r, pointer) ==> |r| <= |pointer|;
    }
  }

  // ----- subtrees -----

  /** A pointer relative to another one: empty, or starting with a slash. */
  predicate IsSuffix(q: string) {
    q == "" || q[0] == '/'
  }

  /** What strip_prefix leaves of the recorded pointers below the given one. */
  function Suffixes<S>(spans: map<string, S>, pointer: string): set<string> {
    set path | path in spans && Ancestor(pointer, path) :: path[|pointer|..]
  }

  lemma SuffixesAreBelow<S>(spans: map<string, S>, pointer: string)
    ensures forall q :: q in Suffixes(spans, pointer) <==> IsSuffix(q) && pointer + q in spans
  {
    forall q
      ensures q in Suffixes(spans, pointer) <==> IsSuffix(q) && pointer + q in spans
    {
      if q in Suffixes(spans, pointer) {
        var path :| path in spans && Ancestor(pointer, path) && path[|pointer|..] == q;
        assert path == pointer + q;
      }
      if IsSuffix(q) && pointer + q in spans {
        assert (pointer + q)[..|pointer|] == pointer && (pointer + q)[|pointer|..] == q;
        assert Ancestor(pointer, pointer + q);
      }
    }
  }

  function SubtreeSpans<S>(spans: map<string, S>, pointer: string): map<string, S> {
    SuffixesAreBelow(spans, pointer);
    map q | q in Suffixes(spans, pointer) :: spans[pointer + q]
  }

  function Subtree<S>(m: SourceMap<S>, pointer: string): SourceMap<S> {
    SourceMap(SubtreeSpans(m.values, pointer), SubtreeSpans(m.keys, pointer))
  }

  /** The subtree holds exactly the pointers below, relative to its root. */
  lemma SubtreeLookup<S>(spans: map<string, S>, p: string, q: string)
    ensures q in SubtreeSpans(spans, p) <==> IsSuffix(q) && p + q in spans
    ensures q in SubtreeSpans(spans, p) ==> SubtreeSpans(spans, p)[q] == spans[p + q]
  {
    SuffixesAreBelow(spans, p);
  }

  lemma {:induction false} ParentOfSuffix(p: string, q: string)
    requires q != "" && q[0] == '/'
    ensures Parent(q).Some? && Parent(p + q) == Some(p + Parent(q).value) && IsSuffix(Parent(q).value)
    decreases |q|
  {
    var n := |q| - 1;
    assert (p + q)[..|p| + n] == p + q[..n];
    if q[n] != '/' {
      assert q[..n][0] == '/';
      ParentOfSuffix(p, q[..n]);
    }
  }

  /** Looking a pointer up in a subtree finds what the whole map finds, or
      nothing where the whole map goes on above the subtree's root. */
  lemma {:induction false} SubtreeSpan<S>(m: SourceMap<S>, p: string, q: string)
    requires IsSuffix(q)
    ensures
      Nearest(m.values, p + q) ==
      var below := Nearest(Subtree(m, p).values, q);
      if below.Some? then below else Nearest(m.values, p)
    decreases |q|
  {
    hide SubtreeSpans;
    hide Parent;
    SubtreeLookup(m.values, p, q);
    if p + q !in m.values {
      if q == "" {
        assert p + q == p;
        ParentOfRoot();
      } else {
        ParentOfSuffix(p, q);
        SubtreeSpan(m, p, Parent(q).value);
      }
    }
  }

  lemma ParentOfRoot()
    ensures Parent("") == None
  {}

  /** When the subtree's root is recorded the two lookups agree. */
  lemma RecordedSubtreeSpan<S>(m: SourceMap<S>, p: string, q: string)
    requires Contains(m, p) && IsSuffix(q)
    ensures Nearest(Subtree(m, p).values, q) == Nearest(m.values, p + q) && Nearest(m.values, p + q).Some?
  {
    hide SubtreeSpans;
    SubtreeSpan(m, p, q);
    NearestOfSuffix(m, p, q);
  }

  lemma {:induction false} NearestOfSuffix<S>(m: SourceMap<S>, p: string, q: string)
    requires Contains(m, p) && IsSuffix(q)
    ensures Nearest(Subtree(m, p).values, q).Some?
    decreases |q|
  {
    hide SubtreeSpans;
    hide Parent;
    SubtreeLookup(m.values, p, q);
    if q == "" {
      assert p + q == p;
    } else if q !in Subtree(m, p).values {
      ParentOfSuffix("", q);
      NearestOfSuffix(m, p, Parent(q).value);
    }
  }

  /** A subtree of a subtree is a subtree. */
  lemma SubtreeOfSubtree<S>(spans: map<string, S>, p: string, q: string)
    requires IsSuffix(q)
    ensures SubtreeSpans(SubtreeSpans(spans, p), q) == SubtreeSpans(spans, p + q)
  {
    hide SubtreeSpans;
    hide Parent;
    var a, b := SubtreeSpans(SubtreeSpans(spans, p), q), SubtreeSpans(spans, p + q);
    forall r
      ensures r in a <==> r in b
      ensures r in a ==> a[r] == b[r]
    {
      SubtreeLookup(SubtreeSpans(spans, p), q, r);
      SubtreeLookup(spans, p, q + r);
      SubtreeLookup(spans, p + q, r);
      assert p + (q + r) == p + q + r;
      assert q == "" ==> q + r == r;
    }
    assert a.Keys == b.Keys;
  }
}
