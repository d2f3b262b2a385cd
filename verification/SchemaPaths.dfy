/** The repository boundary that resolve_uri keeps in src/core/schema.rs, compared
    with the removal of dot segments in section 5.2.4 of RFC 3986. */
module SchemaPaths {
  import opened Pointers
  import opened Wrappers

  // ----- section 5.2.4 of RFC 3986, on the segments of a path -----

  /** The directory after walking some segments from it. */
  function Walked(dir: seq<string>, parts: seq<string>): seq<string>
    decreases |parts|
  {
    if parts == [] then dir
    else
      var next :=
        if parts[0] == "." then dir
        else if parts[0] == ".." then if dir == [] then [] else dir[..|dir| - 1]
        else dir + [parts[0]];
      Walked(next, parts[1..])
  }

  /** Some .. on the way has no directory left to remove. */
  predicate Escapes(dir: seq<string>, parts: seq<string>)
    decreases |parts|
  {
    parts != [] &&
    if parts[0] == "." then Escapes(dir, parts[1..])
    else if parts[0] == ".." then dir == [] || Escapes(dir[..|dir| - 1], parts[1..])
    else Escapes(dir + [parts[0]], parts[1..])
  }

  /** The segments between the first and the last slash of an absolute path. */
  function Directory(path: string): seq<string>
    requires path != "" && path[0] == '/'
  {
    SplitTwice(path);
    Split(path)[1..|Split(path)| - 1]
  }

  lemma SplitTwice(path: string)
    requires path != "" && path[0] == '/'
    ensures |Split(path)| >= 2 && Split(path)[0] == ""
  {}

  // ----- the depth that resolve_uri counts -----

  function NonEmpty(parts: seq<string>): nat {
    if parts == [] then 0 else NonEmpty(parts[..|parts| - 1]) + if parts[|parts| - 1] == "" then 0 else 1
  }

  function Depth(basePath: string): nat {
    var depth := NonEmpty(Split(basePath));
    if basePath != "" && basePath[|basePath| - 1] == '/' then depth
    else if depth == 0 then 0 else depth - 1
  }

  /** The depth after some segments, or nothing once it would fall below zero. */
  ghost function Descend(depth: nat, parts: seq<string>): Option<nat>
    decreases |parts|
  {
    if parts == [] then Some(depth)
    else if parts[0] == ".." then if depth == 0 then None else Descend(depth - 1, parts[1..])
    else if parts[0] == "" || parts[0] == "." then Descend(depth, parts[1..])
    else Descend(depth + 1, parts[1..])
  }

  datatype PathError = NotRelative | EscapesRepository

  method CheckPath(basePath: string, path: string) returns (result: Result<(), PathError>)
    ensures
      result ==
      if path != "" && path[0] == '/' then Err(NotRelative)
      else if Descend(Depth(basePath), Split(path)).None? then Err(EscapesRepository)
      else Ok(())
  {
    if path != "" && path[0] == '/' {
      return Err(NotRelative);
    }
    var depth := Depth(basePath);
    var parts := Split(path);
    for i := 0 to |parts|
      invariant Descend(Depth(basePath), parts) == Descend(depth, parts[i..])
    {
      var part := parts[i];
      assert parts[i..][1..] == parts[i + 1..];
      if part == ".." {
        if depth == 0 {
          return Err(EscapesRepository);
        }
        depth := depth - 1;
      } else if part != "" && part != "." {
        depth := depth + 1;
      }
    }
    result := Ok(());
  }

  // ----- the check keeps references inside -----

  lemma {:induction false} LastPiece(s: string)
    requires s != ""
    ensures Split(s)[|Split(s)| - 1] == "" <==> s[|s| - 1] == '/'
  {
    if |s| > 1 {
      LastPiece(s[1..]);
      var rest := Split(s[1..]);
      if s[0] != '/' && |rest| == 1 {
        SplitLength(s[1..]);
      }
    } else {
      assert s[1..] == "";
    }
  }

  lemma {:induction false} SplitLength(s: string)
    ensures |Split(s)| == 1 ==> Split(s)[0] == s && '/' !in s
  {
    if s != "" {
      SplitLength(s[1..]);
      if |Split(s)| == 1 {
        assert s == [s[0]] + s[1..];
      }
    }
  }

  lemma {:induction false} NonEmptyBound(parts: seq<string>)
    ensures NonEmpty(parts) <= |parts|
    ensures "" !in parts ==> NonEmpty(parts) == |parts|
    decreases |parts|
  {
    if parts != [] {
      NonEmptyBound(parts[..|parts| - 1]);
    }
  }

  lemma {:induction false} NonEmptyFirst(parts: seq<string>)
    requires parts != [] && parts[0] == ""
    ensures NonEmpty(parts) == NonEmpty(parts[1..])
    decreases |parts|
  {
    var n := |parts| - 1;
    if n == 0 {
      assert parts[..0] == [] && parts[1..] == [];
    } else {
      NonEmptyFirst(parts[..n]);
      assert parts[..n][1..] == parts[1..][..n - 1];
    }
  }

  /** The depth of an absolute base path counts the named segments of its
      directory. */
  lemma DepthCountsDirectory(basePath: string)
    requires basePath != "" && basePath[0] == '/'
    ensures Depth(basePath) == NonEmpty(Directory(basePath))
  {
    var pieces := Split(basePath);
    var n := |pieces| - 1;
    SplitTwice(basePath);
    LastPiece(basePath);
    NonEmptyFirst(pieces[..n]);
    assert pieces[..n][1..] == Directory(basePath);
  }

  /** A counted depth never exceeds the real one, so what the count accepts does
      not escape; without empty segments before the last the count is exact. */
  lemma {:induction false} DepthIsSafe(depth: nat, dir: seq<string>, parts: seq<string>)
    requires depth <= |dir|
    ensures Descend(depth, parts).Some? ==> !Escapes(dir, parts)
    ensures depth == |dir| && NamedBeforeLast(parts) ==> (Descend(depth, parts).Some? <==> !Escapes(dir, parts))
    decreases |parts|
  {
    if parts != [] {
      var part, rest := parts[0], parts[1..];
      assert forall i :: 0 <= i < |rest| ==> rest[i] == parts[i + 1];
      if part == "." {
        DepthIsSafe(depth, dir, rest);
      } else if part == ".." {
        if depth > 0 {
          DepthIsSafe(depth - 1, dir[..|dir| - 1], rest);
        }
      } else if part == "" {
        DepthIsSafe(depth, dir + [part], rest);
      } else {
        DepthIsSafe(depth + 1, dir + [part], rest);
      }
    }
  }

  /** Only the last segment may be empty, as in a path with a trailing slash or no
      path at all. */
  predicate NamedBeforeLast(parts: seq<string>) {
    forall i :: 0 <= i < |parts| - 1 ==> parts[i] != ""
  }

  /** A relative reference that passes the check never climbs out of the
      repository, and one whose segments before the last are named, under a base
      whose directory is, is refused only if it does. */
  lemma AcceptedStaysInside(basePath: string, path: string)
    requires basePath != "" && basePath[0] == '/'
    ensures Descend(Depth(basePath), Split(path)).Some? ==> !Escapes(Directory(basePath), Split(path))
    ensures "" !in Directory(basePath) && NamedBeforeLast(Split(path)) ==>
              (Descend(Depth(basePath), Split(path)).Some? <==> !Escapes(Directory(basePath), Split(path)))
  {
    DepthCountsDirectory(basePath);
    NonEmptyBound(Directory(basePath));
    DepthIsSafe(Depth(basePath), Directory(basePath), Split(path));
  }

  // ----- when a refusal is right -----

  function Empties(parts: seq<string>): nat {
    |parts| - NamedIn(parts)
  }

  function NamedIn(parts: seq<string>): (n: nat)
    ensures n <= |parts|
  {
    NonEmptyBound(parts);
    NonEmpty(parts)
  }

  lemma {:induction false} NoEmpties(parts: seq<string>)
    ensures Empties(parts) == 0 <==> "" !in parts
    decreases |parts|
  {
    NonEmptyBound(parts);
    if "" in parts {
      var n := |parts| - 1;
      NonEmptyBound(parts[..n]);
      if parts[n] != "" {
        var i :| 0 <= i < |parts| && parts[i] == "";
        assert parts[..n][i] == "";
        NoEmpties(parts[..n]);
      }
    }
  }

  /** What the count misses of the real depth is the number of empty segments, in
      the directory and on the way. */
  lemma {:induction false} CountMissesEmpties(depth: nat, dir: seq<string>, parts: seq<string>)
    requires depth <= |dir| && Descend(depth, parts).Some?
    ensures |Walked(dir, parts)| - Descend(depth, parts).value == |dir| - depth + Empties(parts)
    decreases |parts|
  {
    if parts != [] {
      var part, rest := parts[0], parts[1..];
      EmptiesFirst(parts);
      if part == "." {
        CountMissesEmpties(depth, dir, rest);
      } else if part == ".." {
        CountMissesEmpties(depth - 1, dir[..|dir| - 1], rest);
      } else if part == "" {
        CountMissesEmpties(depth, dir + [part], rest);
      } else {
        CountMissesEmpties(depth + 1, dir + [part], rest);
      }
    }
  }

  lemma {:induction false} EmptiesFirst(parts: seq<string>)
    requires parts != []
    ensures Empties(parts) == Empties(parts[1..]) + if parts[0] == "" then 1 else 0
    decreases |parts|
  {
    var n := |parts| - 1;
    if n == 0 {
      assert parts[..0] == [] && parts[1..] == [];
    } else {
      EmptiesFirst(parts[..n]);
      assert parts[..n][1..] == parts[1..][..n - 1];
    }
  }

  lemma {:induction false} DescendAppend(depth: nat, a: seq<string>, b: seq<string>)
    ensures Descend(depth, a + b) == if Descend(depth, a).Some? then Descend(Descend(depth, a).value, b) else None
    decreases |a|
  {
    if a == [] {
      assert a + b == b;
    } else {
      assert (a + b)[1..] == a[1..] + b;
      if a[0] == ".." {
        if depth > 0 {
          DescendAppend(depth - 1, a[1..], b);
        }
      } else {
        DescendAppend(if a[0] == "" || a[0] == "." then depth else depth + 1, a[1..], b);
      }
    }
  }

  lemma {:induction false} EscapesAppend(dir: seq<string>, a: seq<string>, b: seq<string>)
    ensures Escapes(dir, a + b) <==> Escapes(dir, a) || Escapes(Walked(dir, a), b)
    decreases |a|
  {
    if a == [] {
      assert a + b == b;
    } else {
      assert (a + b)[1..] == a[1..] + b;
      if a[0] == "." {
        EscapesAppend(dir, a[1..], b);
      } else if a[0] == ".." {
        if dir != [] {
          EscapesAppend(dir[..|dir| - 1], a[1..], b);
        }
      } else {
        EscapesAppend(dir + [a[0]], a[1..], b);
      }
    }
  }

  /** The position of the .. at which a path is refused. */
  lemma {:induction false} RefusalPoint(depth: nat, parts: seq<string>) returns (i: nat)
    requires Descend(depth, parts).None?
    ensures i < |parts| && parts[i] == ".." && Descend(depth, parts[..i]) == Some(0)
    decreases |parts|
  {
    var part, rest := parts[0], parts[1..];
    if part == ".." && depth == 0 {
      i := 0;
    } else {
      var next := if part == ".." then depth - 1 else if part == "" || part == "." then depth else depth + 1;
      var k := RefusalPoint(next, rest);
      i := k + 1;
      assert parts[..i][1..] == rest[..k];
    }
  }

  /** At the .. where a path is refused it really leaves the repository exactly
      when neither the base directory nor the path so far has an empty segment. */
  lemma RefusedRightly(basePath: string, path: string) returns (i: nat)
    requires basePath != "" && basePath[0] == '/' && Descend(Depth(basePath), Split(path)).None?
    ensures i < |Split(path)| && Split(path)[i] == ".." && Descend(Depth(basePath), Split(path)[..i]).Some?
    ensures
      Escapes(Directory(basePath), Split(path)[..i + 1]) <==> "" !in Directory(basePath) && "" !in Split(path)[..i]
  {
    var dir, depth := Directory(basePath), Depth(basePath);
    i := RefusalPoint(depth, Split(path));
    var before := Split(path)[..i];
    assert Split(path)[..i + 1] == before + [".."];
    DepthCountsDirectory(basePath);
    NonEmptyBound(dir);
    DepthIsSafe(depth, dir, before);
    CountMissesEmpties(depth, dir, before);
    EscapesAppend(dir, before, [".."]);
    OneUp(Walked(dir, before));
    NoEmpties(dir);
    NoEmpties(before);
  }

  lemma OneUp(dir: seq<string>)
    ensures Escapes(dir, [".."]) <==> dir == []
  {
    assert [".."][1..] == [];
  }

  function Ups(k: nat): seq<string> {
    seq(k, _ => "..")
  }

  lemma {:induction false} UpsExact(depth: nat, dir: seq<string>, k: nat)
    ensures Descend(depth, Ups(k)).Some? <==> k <= depth
    ensures Escapes(dir, Ups(k)) <==> k > |dir|
    decreases k
  {
    if k > 0 {
      assert Ups(k)[1..] == Ups(k - 1);
      UpsExact(if depth > 0 then depth - 1 else 0, if dir != [] then dir[..|dir| - 1] else [], k - 1);
    }
  }

  /** The verdict on a list of segments is right. */
  ghost predicate RightVerdict(basePath: string, parts: seq<string>)
    requires basePath != "" && basePath[0] == '/'
  {
    Descend(Depth(basePath), parts).Some? <==> !Escapes(Directory(basePath), parts)
  }

  /** Every climb from an accepted path is judged rightly exactly when neither the
      base directory nor the path has an empty segment. */
  lemma ClimbsAreJudgedRightly(basePath: string, parts: seq<string>)
    requires basePath != "" && basePath[0] == '/' && Descend(Depth(basePath), parts).Some?
    ensures (forall k: nat :: RightVerdict(basePath, parts + Ups(k))) <==> "" !in Directory(basePath) && "" !in parts
  {
    hide Escapes;
    hide Descend;
    var dir, depth := Directory(basePath), Depth(basePath);
    DepthCountsDirectory(basePath);
    NonEmptyBound(dir);
    DepthIsSafe(depth, dir, parts);
    CountMissesEmpties(depth, dir, parts);
    NoEmpties(dir);
    NoEmpties(parts);
    var counted, walked := Descend(depth, parts).value, Walked(dir, parts);
    forall k: nat
      ensures RightVerdict(basePath, parts + Ups(k)) <==> (k <= counted <==> k <= |walked|)
    {
      DescendAppend(depth, parts, Ups(k));
      EscapesAppend(dir, parts, Ups(k));
      UpsExact(counted, walked, k);
    }
    if counted != |walked| {
      assert !RightVerdict(basePath, parts + Ups(|walked|));
    }
  }

  // ----- a path that is refused although it stays inside -----

  lemma SplitSegment(t: string, s: string)
    requires '/' !in t
    ensures Split(t + "/" + s) == [t] + Split(s)
  {
    assert t + "/" + s == t + (['/'] + s);
    SplitPiece(t, ['/'] + s);
    assert (['/'] + s)[1..] == s;
    assert t + "" == t;
  }

  lemma SplitWhole(t: string)
    requires '/' !in t
    ensures Split(t) == [t]
  {
    SplitPiece(t, "");
    assert t + "" == t;
  }

  lemma WitnessBase(basePath: string)
    requires basePath == "/s/m"
    ensures Directory(basePath) == ["s"] && Depth(basePath) == 1
  {
    SplitWhole("m");
    SplitSegment("s", "m");
    SplitSegment("", "s/m");
    assert basePath == "" + "/" + ("s" + "/" + "m");
    assert Split(basePath) == ["", "s", "m"];
    DepthCountsDirectory(basePath);
    assert Directory(basePath) == ["s"] && ["s"][..0] == [];
  }

  lemma WitnessPath(path: string)
    requires path == "a//../../../x"
    ensures Split(path) == ["a", "", "..", "..", "..", "x"]
  {
    hide Split;
    SplitWhole("x");
    SplitSegment("..", "x");
    var one, two, three := ".." + "/" + "x", ".." + "/" + (".." + "/" + "x"),
                           ".." + "/" + (".." + "/" + (".." + "/" + "x"));
    SplitSegment("..", one);
    SplitSegment("..", two);
    SplitSegment("", three);
    SplitSegment("a", "" + "/" + three);
    assert path == "a" + "/" + ("" + "/" + three);
  }

  lemma WitnessUps(dir: seq<string>)
    requires dir == ["s", "a", ""]
    ensures var up := ["..", "..", "..", "x"]; Walked(dir, up) == ["x"] && !Escapes(dir, up) && Descend(2, up).None?
  {
    var up := ["..", "..", "..", "x"];
    assert up[1..] == ["..", "..", "x"] && up[1..][1..] == ["..", "x"] && up[1..][1..][1..] == ["x"]
      && ["x"][1..] == [];
    assert dir[..2] == ["s", "a"] && ["s", "a"][..1] == ["s"] && ["s"][..0] == [];
    assert Walked([], ["x"]) == ["x"] && !Escapes([], ["x"]) && Descend(0, ["..", "x"]).None?;
    assert Walked(["s"], ["..", "x"]) == ["x"] && !Escapes(["s"], ["..", "x"]) && Descend(1, ["..", "..", "x"]).None?;
  }

  /** Under /s/m the reference a//../../../x ends in x at the root, yet the count
      refuses its third .. because it takes no notice of the empty segment. */
  lemma RefusedThoughInside(basePath: string, path: string)
    requires basePath == "/s/m" && path == "a//../../../x"
    ensures Descend(Depth(basePath), Split(path)).None? && !Escapes(Directory(basePath), Split(path))
    ensures Walked(Directory(basePath), Split(path)) == ["x"]
  {
    hide Split;
    hide Directory;
    hide Depth;
    WitnessBase(basePath);
    WitnessPath(path);
    var up := ["..", "..", "..", "x"];
    WitnessUps(["s", "a", ""]);
    assert Split(path)[1..] == [""] + up && ([""] + up)[1..] == up;
    assert ["s"] + ["a"] == ["s", "a"] && ["s", "a"] + [""] == ["s", "a", ""];
  }

  /** What does not escape is found relative to the directory, whatever that is
      nested in. */
  lemma {:induction false} InsideIsRelative(outer: seq<string>, dir: seq<string>, parts: seq<string>)
    requires !Escapes(dir, parts)
    ensures Walked(outer + dir, parts) == outer + Walked(dir, parts)
    decreases |parts|
  {
    if parts != [] {
      var part := parts[0];
      if part == "." {
        InsideIsRelative(outer, dir, parts[1..]);
      } else if part == ".." {
        assert (outer + dir)[..|outer + dir| - 1] == outer + dir[..|dir| - 1];
        InsideIsRelative(outer, dir[..|dir| - 1], parts[1..]);
      } else {
        assert (outer + dir) + [part] == outer + (dir + [part]);
        InsideIsRelative(outer, dir + [part], parts[1..]);
      }
    }
  }
}
