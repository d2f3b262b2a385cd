/** Cartesian expansion of parameter axes from src/core/planning.rs. */
module AxisExpansion {
  import opened Integers
  import opened Keys
  import opened MixedRadix
  import opened Wrappers

  datatype Axis<V> = Value(value: V) | Grid(values: seq<V>)

  function Values<V>(axis: Axis<V>): seq<V> {
    match axis
    case Value(v) => [v]
    case Grid(vs) => vs
  }

  type Axes<V> = map<string, Axis<V>>

  type Parameters<V> = map<string, V>

  // ----- the k-th combination -----

  ghost predicate NamesIn<V>(names: seq<string>, axes: Axes<V>) {
    forall i :: 0 <= i < |names| ==> names[i] in axes
  }

  /** The number of values of each named axis. */
  ghost function Sizes<V>(names: seq<string>, axes: Axes<V>): (sizes: seq<nat>)
    requires NamesIn(names, axes)
    ensures |sizes| == |names| && forall i :: 0 <= i < |names| ==> sizes[i] == |Values(axes[names[i]])|
  {
    seq(|names|, i requires 0 <= i < |names| => |Values(axes[names[i]])|)
  }

  /** The combination that takes the chosen value of each axis. */
  ghost function Assign<V>(names: seq<string>, axes: Axes<V>, choice: seq<nat>): Parameters<V>
    requires NamesIn(names, axes) && IsChoice(Sizes(names, axes), choice)
  {
    if names == [] then map[]
    else
      var n := |names| - 1;
      Assign(names[..n], axes, choice[..n])[names[n] := Values(axes[names[n]])[choice[n]]]
  }

  ghost function Count<V>(names: seq<string>, axes: Axes<V>): nat
    requires NamesIn(names, axes)
  {
    Product(Sizes(names, axes))
  }

  /** The combination at index k: its mixed-radix digits choose the values. */
  ghost function Nth<V>(names: seq<string>, axes: Axes<V>, k: nat): Parameters<V>
    requires NamesIn(names, axes) && k < Count(names, axes)
  {
    Assign(names, axes, Digits(Sizes(names, axes), k))
  }

  ghost predicate IsExpansion<V>(names: seq<string>, axes: Axes<V>, combinations: seq<Parameters<V>>)
    requires NamesIn(names, axes)
  {
    |combinations| == Count(names, axes)
    && forall k :: 0 <= k < |combinations| ==> combinations[k] == Nth(names, axes, k)
  }

  method ExpandAxes<V>(axes: Axes<V>) returns (combinations: seq<Parameters<V>>, names: seq<string>)
    ensures names == KeysOf(axes.Keys) && NamesIn(names, axes)
    ensures IsExpansion(names, axes, combinations)
  {
    hide KeysOf;
    hide Lists;
    hide IsExpansion;
    names := SortKeys(axes.Keys);
    NamesAreKeys(names, axes);
    combinations := [map[]];
    EmptyExpansion(axes);
    for i := 0 to |names|
      invariant IsExpansion(names[..i], axes, combinations)
    {
      combinations := ExtendAll(names[..i], axes, combinations, names[i]);
      assert names[..i] + [names[i]] == names[..i + 1];
    }
    assert names[..|names|] == names;
  }

  lemma NamesAreKeys<V>(names: seq<string>, axes: Axes<V>)
    requires Lists(names, axes.Keys)
    ensures NamesIn(names, axes)
  {}

  lemma EmptyExpansion<V>(axes: Axes<V>)
    ensures IsExpansion<V>([], axes, [map[]])
  {}

  /** One round of the loop: every combination extended by every value. */
  method ExtendAll<V>(names: seq<string>, axes: Axes<V>, combinations: seq<Parameters<V>>, name: string)
    returns (extended: seq<Parameters<V>>)
    requires name in axes && NamesIn(names, axes) && IsExpansion(names, axes, combinations)
    ensures IsExpansion(names + [name], axes, extended)
  {
    hide Nth;
    hide Count;
    var values := Values(axes[name]);
    extended := [];
    ghost var product := Count(names + [name], axes);
    CountPush(names, axes, name);
    ghost var scaled := 0;
    for i := 0 to |combinations|
      invariant scaled == i * |values| && |extended| == scaled <= product
      invariant forall k :: 0 <= k < |extended| ==> extended[k] == Nth(names + [name], axes, k)
    {
      ScaleStrict(i, |combinations|, |values|);
      for j := 0 to |values|
        invariant |extended| == scaled + j <= product
        invariant forall k :: 0 <= k < |extended| ==> extended[k] == Nth(names + [name], axes, k)
      {
        NthPush(names, axes, name, i, j, |extended|, scaled);
        extended := extended + [combinations[i][name := values[j]]];
      }
      NextMultiple(i, |values|);
      scaled := scaled + |values|;
    }
  }

  lemma NextMultiple(i: nat, n: nat)
    ensures (i + 1) * n == i * n + n
  {}

  lemma SizesPush<V>(names: seq<string>, axes: Axes<V>, name: string)
    requires name in axes && NamesIn(names, axes)
    ensures Sizes(names + [name], axes) == Sizes(names, axes) + [|Values(axes[name])|]
  {}

  lemma CountPush<V>(names: seq<string>, axes: Axes<V>, name: string)
    requires name in axes && NamesIn(names, axes)
    ensures Count(names + [name], axes) == Count(names, axes) * |Values(axes[name])|
  {
    SizesPush(names, axes, name);
    ProductPush(Sizes(names, axes), |Values(axes[name])|);
  }

  lemma AssignPush<V>(names: seq<string>, axes: Axes<V>, name: string, choice: seq<nat>, j: nat)
    requires name in axes && NamesIn(names, axes) && IsChoice(Sizes(names, axes), choice) && j < |Values(axes[name])|
    ensures IsChoice(Sizes(names + [name], axes), choice + [j])
    ensures Assign(names + [name], axes, choice + [j]) == Assign(names, axes, choice)[name := Values(axes[name])[j]]
  {
    assert (names + [name])[..|names|] == names && (choice + [j])[..|names|] == choice;
  }

  lemma NthPush<V>(names: seq<string>, axes: Axes<V>, name: string, i: nat, j: nat, k: nat, scaled: nat)
    requires name in axes && NamesIn(names, axes)
    requires i < Count(names, axes) && j < |Values(axes[name])| && scaled == i * |Values(axes[name])| && k == scaled + j
    ensures k < Count(names + [name], axes)
    ensures Nth(names + [name], axes, k) == Nth(names, axes, i)[name := Values(axes[name])[j]]
  {
    hide Assign;
    hide Digits;
    hide Product;
    SizesPush(names, axes, name);
    DigitsPush(Sizes(names, axes), |Values(axes[name])|, i, j, k, scaled);
    AssignPush(names, axes, name, Digits(Sizes(names, axes), i), j);
  }

  lemma ChoiceFront<V>(names: seq<string>, axes: Axes<V>, choice: seq<nat>, n: nat)
    requires NamesIn(names, axes) && IsChoice(Sizes(names, axes), choice) && n <= |names|
    ensures NamesIn(names[..n], axes) && IsChoice(Sizes(names[..n], axes), choice[..n])
  {}

  lemma {:induction false} AssignedNames<V>(names: seq<string>, axes: Axes<V>, choice: seq<nat>)
    requires NamesIn(names, axes) && IsChoice(Sizes(names, axes), choice)
    ensures forall name :: name in Assign(names, axes, choice) <==> name in names
    decreases |names|
  {
    hide Values;
    if names != [] {
      var n := |names| - 1;
      ChoiceFront(names, axes, choice, n);
      AssignedNames(names[..n], axes, choice[..n]);
      assert forall name :: name in names <==> name in names[..n] || name == names[n];
    }
  }

  lemma {:induction false} AssignedValue<V>(names: seq<string>, axes: Axes<V>, choice: seq<nat>, i: nat)
    requires NamesIn(names, axes) && IsChoice(Sizes(names, axes), choice) && i < |names|
    requires forall i, j :: 0 <= i < j < |names| ==> names[i] != names[j]
    ensures names[i] in Assign(names, axes, choice)
    ensures Assign(names, axes, choice)[names[i]] == Values(axes[names[i]])[choice[i]]
    decreases |names|
  {
    hide Values;
    var n := |names| - 1;
    if i < n {
      ChoiceFront(names, axes, choice, n);
      AssignedValue(names[..n], axes, choice[..n], i);
    }
  }

  /** A combination assigns exactly the named axes, each its chosen value. */
  lemma AssignLookup<V>(names: seq<string>, axes: Axes<V>, choice: seq<nat>)
    requires NamesIn(names, axes) && IsChoice(Sizes(names, axes), choice)
    requires forall i, j :: 0 <= i < j < |names| ==> names[i] != names[j]
    ensures forall name :: name in Assign(names, axes, choice) <==> name in names
    ensures forall i :: 0 <= i < |names| ==> Assign(names, axes, choice)[names[i]] == Values(axes[names[i]])[choice[i]]
  {
    hide Assign;
    hide Values;
    AssignedNames(names, axes, choice);
    forall i | 0 <= i < |names|
      ensures Assign(names, axes, choice)[names[i]] == Values(axes[names[i]])[choice[i]]
    {
      AssignedValue(names, axes, choice, i);
    }
  }

  /** At index k the i-th name takes its value number k / stride mod size, the
      lexicographically first name being the most significant. */
  lemma NthIsMixedRadix<V>(axes: Axes<V>, k: nat, i: nat)
    requires
      var names := KeysOf(axes.Keys);
      NamesIn(names, axes) && k < Count(names, axes) && i < |names|
    ensures
      var names := KeysOf(axes.Keys);
      var sizes := Sizes(names, axes);
      && Nth(names, axes, k).Keys == axes.Keys
      && Stride(sizes, i) > 0 && sizes[i] > 0
      && Nth(names, axes, k)[names[i]] == Values(axes[names[i]])[k / Stride(sizes, i) % sizes[i]]
  {
    hide Assign;
    hide Digits;
    hide Stride;
    hide Product;
    var names := KeysOf(axes.Keys);
    var sizes := Sizes(names, axes);
    AscendingIsDistinct(names);
    AssignLookup(names, axes, Digits(sizes, k));
    DigitsAreMixedRadix(sizes, k, i);
    assert forall name :: name in axes.Keys <==> name in names;
  }

  /** Every choice of one value per axis, taken by position, is the combination
      of exactly one index. */
  lemma EveryCombinationOnce<V>(axes: Axes<V>, choice: seq<nat>) returns (k: nat)
    requires NamesIn(KeysOf(axes.Keys), axes) && IsChoice(Sizes(KeysOf(axes.Keys), axes), choice)
    ensures
      var names := KeysOf(axes.Keys);
      && k < Count(names, axes) && Nth(names, axes, k) == Assign(names, axes, choice)
      && forall m: nat :: m < Count(names, axes) && Digits(Sizes(names, axes), m) == choice ==> m == k
  {
    k := EveryChoiceOnce(Sizes(KeysOf(axes.Keys), axes), choice);
  }

  // ----- overlays and resolution -----

  /** Default grids, then the experiment's axes, then the case's axes. */
  function Overlaid<V>(grids: Axes<V>, base: Option<Axes<V>>, overlay: Option<Axes<V>>): Axes<V> {
    var extended := if base.Some? then grids + base.value else grids;
    if overlay.Some? then extended + overlay.value else extended
  }

  /** The first failure of a list of results, or all their values. */
  function Collected<T, E>(results: seq<Result<T, E>>): Result<seq<T>, E> {
    if results == [] then Ok([])
    else
      match results[0]
      case Err(e) => Err(e)
      case Ok(v) =>
        match Collected(results[1..])
        case Err(e) => Err(e)
        case Ok(vs) => Ok([v] + vs)
  }

  lemma {:induction false} CollectedMeans<T, E>(results: seq<Result<T, E>>)
    ensures
      match Collected(results)
      case Ok(vs) => |vs| == |results| && forall i :: 0 <= i < |results| ==> results[i] == Ok(vs[i])
      case Err(e) => exists i :: 0 <= i < |results| && results[i] == Err(e) && forall j :: 0 <= j < i ==> results[j].Ok?
  {
    if results != [] {
      CollectedMeans(results[1..]);
      assert forall i :: 0 < i < |results| ==> results[i] == results[1..][i - 1];
      if results[0].Ok? && Collected(results[1..]).Err? {
        var e := Collected(results[1..]).error;
        var i :| 0 <= i < |results[1..]| && results[1..][i] == Err(e) && forall j :: 0 <= j < i ==> results[1..][j].Ok?;
        assert results[i + 1] == Err(e) && forall j :: 0 <= j < i + 1 ==> results[j].Ok?;
      } else if results[0].Err? {
        assert results[0] == Err(results[0].error);
      }
    }
  }

  /** expand_resolved_parameters: the combinations of the overlaid axes, each
      resolved in order, failing with the first combination that does not. */
  method ExpandResolvedParameters<V, P, E>(grids: Axes<V>, base: Option<Axes<V>>, overlay: Option<Axes<V>>,
                                           resolve: Parameters<V> -> Result<P, E>)
    returns (result: Result<seq<P>, E>)
    ensures
      var axes := Overlaid(grids, base, overlay);
      var names := KeysOf(axes.Keys);
      NamesIn(names, axes) &&
      match result
      case Ok(resolved) =>
        |resolved| == Count(names, axes)
        && forall k :: 0 <= k < |resolved| ==> resolve(Nth(names, axes, k)) == Ok(resolved[k])
      case Err(e) =>
        exists k :: 0 <= k < Count(names, axes) && resolve(Nth(names, axes, k)) == Err(e) &&
                    forall j :: 0 <= j < k ==> resolve(Nth(names, axes, j)).Ok?
  {
    hide KeysOf;
    hide Nth;
    hide Count;
    var axes := grids;
    if base.Some? {
      axes := axes + base.value;
    }
    if overlay.Some? {
      axes := axes + overlay.value;
    }
    var supplied, names := ExpandAxes(axes);
    var results := seq(|supplied|, k requires 0 <= k < |supplied| => resolve(supplied[k]));
    result := Collected(results);
    CollectedMeans(results);
    if result.Err? {
      ghost var k :| 0 <= k < |results| && results[k] == Err(result.error) && forall j :: 0 <= j < k ==> results[j].Ok?;
      assert resolve(Nth(names, axes, k)) == Err(result.error);
      assert forall j :: 0 <= j < k ==> results[j] == resolve(Nth(names, axes, j));
    }
  }

  /** Which declaration an axis comes from after the overlays. */
  lemma OverlayWins<V>(grids: Axes<V>, base: Option<Axes<V>>, overlay: Option<Axes<V>>, name: string)
    ensures
      var axes := Overlaid(grids, base, overlay);
      if overlay.Some? && name in overlay.value then name in axes && axes[name] == overlay.value[name]
      else if base.Some? && name in base.value then name in axes && axes[name] == base.value[name]
      else if name in grids then name in axes && axes[name] == grids[name]
      else name !in axes
  {}

  /** A combination of overlaid axes assigns to each declared name one of the
      values of the declaration that wins, and nothing else. */
  lemma CombinationUsesWinningAxes<V>(grids: Axes<V>, base: Option<Axes<V>>, overlay: Option<Axes<V>>, k: nat,
                                      name: string)
    requires
      var axes := Overlaid(grids, base, overlay);
      NamesIn(KeysOf(axes.Keys), axes) && k < Count(KeysOf(axes.Keys), axes)
    ensures
      var axes := Overlaid(grids, base, overlay);
      var chosen := Nth(KeysOf(axes.Keys), axes, k);
      if overlay.Some? && name in overlay.value then name in chosen && chosen[name] in Values(overlay.value[name])
      else if base.Some? && name in base.value then name in chosen && chosen[name] in Values(base.value[name])
      else if name in grids then name in chosen && chosen[name] in Values(grids[name])
      else name !in chosen
  {
    hide Assign;
    hide Digits;
    hide Product;
    var axes := Overlaid(grids, base, overlay);
    var names := KeysOf(axes.Keys);
    AscendingIsDistinct(names);
    AssignLookup(names, axes, Digits(Sizes(names, axes), k));
    OverlayWins(grids, base, overlay, name);
    if name in axes {
      assert name in names;
      var i :| 0 <= i < |names| && names[i] == name;
      assert Nth(names, axes, k)[names[i]] == Values(axes[names[i]])[Digits(Sizes(names, axes), k)[i]];
    }
  }
}
