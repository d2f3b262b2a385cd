/** Candidate expansion and deduplication from src/core/planning.rs: the nested
    loops over datasets, problem parameters and implementations, and the map of
    keys already seen. Parameters are any type with a canonical encoding. */
module CandidateExpansion {
  import opened AxisExpansion
  import opened Integers
  import opened Wrappers

  datatype Source = Experiment | Case(name: string)

  datatype Dataset = Unit | Named(name: string)

  datatype DatasetChoice<P> = DatasetChoice(definition: Dataset, parameters: seq<P>)

  datatype ImplementationChoice<P> = ImplementationChoice(definition: string, environment: string, parameters: seq<P>)

  /** The resolved choices of one matrix member. */
  datatype Choices<P> = Choices(
    datasets: seq<DatasetChoice<P>>, problem: string, problems: seq<P>, implementations: seq<ImplementationChoice<P>>)

  datatype Candidate<P> = Candidate(
    source: Source, dataset: Dataset, datasetParameters: P, problem: string, problemParameters: P,
    implementation: string, environment: string, implementationParameters: P)

  datatype Key = Key(
    dataset: Dataset, datasetParameters: seq<nat>, problem: string, problemParameters: seq<nat>,
    implementation: string, implementationParameters: seq<nat>)

  function KeyOf<P>(encode: P -> seq<nat>, c: Candidate<P>): Key {
    Key(c.dataset, encode(c.datasetParameters), c.problem, encode(c.problemParameters), c.implementation,
        encode(c.implementationParameters))
  }

  // ----- the unrolled product -----

  function OfImplementation<P>(c: Candidate<P>, i: ImplementationChoice<P>): (list: seq<Candidate<P>>)
    ensures |list| == |i.parameters|
  {
    seq(|i.parameters|, k requires 0 <= k < |i.parameters| =>
      c.(implementation := i.definition, environment := i.environment, implementationParameters := i.parameters[k]))
  }

  function OfImplementations<P>(c: Candidate<P>, impls: seq<ImplementationChoice<P>>): seq<Candidate<P>> {
    if impls == [] then []
    else OfImplementations(c, impls[..|impls| - 1]) + OfImplementation(c, impls[|impls| - 1])
  }

  function OfProblems<P>(c: Candidate<P>, ps: seq<P>, impls: seq<ImplementationChoice<P>>): seq<Candidate<P>> {
    if ps == [] then []
    else OfProblems(c, ps[..|ps| - 1], impls) + OfImplementations(c.(problemParameters := ps[|ps| - 1]), impls)
  }

  function OfDataset<P>(c: Candidate<P>, ds: seq<P>, ps: seq<P>,
                        impls: seq<ImplementationChoice<P>>): seq<Candidate<P>> {
    if ds == [] then []
    else OfDataset(c, ds[..|ds| - 1], ps, impls) + OfProblems(c.(datasetParameters := ds[|ds| - 1]), ps, impls)
  }

  function OfDatasets<P>(c: Candidate<P>, ds: seq<DatasetChoice<P>>, ps: seq<P>,
                         impls: seq<ImplementationChoice<P>>): seq<Candidate<P>> {
    if ds == [] then []
    else
      OfDatasets(c, ds[..|ds| - 1], ps, impls) +
      OfDataset(c.(dataset := ds[|ds| - 1].definition), ds[|ds| - 1].parameters, ps, impls)
  }

  /** All candidates of one matrix member in planning order. The template only
      fixes what every candidate of the member shares. */
  function Unrolled<P>(source: Source, choices: Choices<P>, filler: P): seq<Candidate<P>> {
    OfDatasets(Candidate(source, Unit, filler, choices.problem, filler, "", "", filler),
               choices.datasets, choices.problems, choices.implementations)
  }

  /** c is one selection from the choices. */
  ghost predicate Selects<P(!new)>(source: Source, choices: Choices<P>, c: Candidate<P>) {
    && c.source == source && c.problem == choices.problem
    && (exists d :: d in choices.datasets && c.dataset == d.definition && c.datasetParameters in d.parameters)
    && c.problemParameters in choices.problems
    && (exists i :: i in choices.implementations && c.implementation == i.definition && c.environment == i.environment
                    && c.implementationParameters in i.parameters)
  }

  lemma {:induction false} ImplementationsMembers<P(!new)>(c: Candidate<P>, impls: seq<ImplementationChoice<P>>,
                                                           x: Candidate<P>)
    ensures
      x in OfImplementations(c, impls) <==>
      exists i ::
        && i in impls && x.implementationParameters in i.parameters
        && x == c.(implementation := i.definition, environment := i.environment,
                   implementationParameters := x.implementationParameters)
  {
    if impls != [] {
      var n := |impls| - 1;
      ImplementationsMembers(c, impls[..n], x);
      assert forall i :: i in impls <==> i in impls[..n] || i == impls[n];
      ImplementationMembers(c, impls[n], x);
    }
  }

  lemma ImplementationMembers<P>(c: Candidate<P>, i: ImplementationChoice<P>, x: Candidate<P>)
    ensures
      x in OfImplementation(c, i) <==>
      && x.implementationParameters in i.parameters
      && x == c.(implementation := i.definition, environment := i.environment,
                 implementationParameters := x.implementationParameters)
  {
    var list := OfImplementation(c, i);
    if x.implementationParameters in i.parameters {
      var k :| 0 <= k < |i.parameters| && i.parameters[k] == x.implementationParameters;
      assert list[k].implementationParameters == x.implementationParameters;
    }
  }

  lemma {:induction false} ProblemsMembers<P(!new)>(c: Candidate<P>, ps: seq<P>, impls: seq<ImplementationChoice<P>>,
                                                    x: Candidate<P>)
    ensures
      x in OfProblems(c, ps, impls) <==>
        x.problemParameters in ps && x in OfImplementations(c.(problemParameters := x.problemParameters), impls)
  {
    hide OfImplementations;
    if ps != [] {
      var n := |ps| - 1;
      ProblemsMembers(c, ps[..n], impls, x);
      assert x.problemParameters in ps <==> x.problemParameters in ps[..n] || x.problemParameters == ps[n];
      ImplementationsMembers(c.(problemParameters := ps[n]), impls, x);
    }
  }

  lemma {:induction false} DatasetMembers<P(!new)>(c: Candidate<P>, ds: seq<P>, ps: seq<P>,
                                                   impls: seq<ImplementationChoice<P>>, x: Candidate<P>)
    ensures
      x in OfDataset(c, ds, ps, impls) <==>
        x.datasetParameters in ds && x in OfProblems(c.(datasetParameters := x.datasetParameters), ps, impls)
  {
    hide OfProblems;
    hide OfImplementations;
    if ds != [] {
      var n := |ds| - 1;
      DatasetMembers(c, ds[..n], ps, impls, x);
      assert x.datasetParameters in ds <==> x.datasetParameters in ds[..n] || x.datasetParameters == ds[n];
      ProblemsMembers(c.(datasetParameters := ds[n]), ps, impls, x);
      ImplementationsMembers(c.(datasetParameters := ds[n], problemParameters := x.problemParameters), impls, x);
    }
  }

  lemma {:induction false} DatasetsMembers<P(!new)>(c: Candidate<P>, ds: seq<DatasetChoice<P>>, ps: seq<P>,
                                                    impls: seq<ImplementationChoice<P>>, x: Candidate<P>)
    ensures
      x in OfDatasets(c, ds, ps, impls) <==>
      exists d ::
        d in ds && x.dataset == d.definition && x in OfDataset(c.(dataset := x.dataset), d.parameters, ps, impls)
  {
    hide OfDataset;
    hide OfProblems;
    hide OfImplementations;
    if ds != [] {
      var n := |ds| - 1;
      DatasetsMembers(c, ds[..n], ps, impls, x);
      assert forall d :: d in ds <==> d in ds[..n] || d == ds[n];
      DatasetMembers(c.(dataset := ds[n].definition), ds[n].parameters, ps, impls, x);
      ProblemsMembers(c.(dataset := ds[n].definition, datasetParameters := x.datasetParameters), ps, impls, x);
      ImplementationsMembers(c.(dataset := ds[n].definition, datasetParameters := x.datasetParameters,
                                problemParameters := x.problemParameters), impls, x);
    }
  }

  /** The unrolled list holds exactly the selections. */
  lemma UnrolledIsProduct<P(!new)>(source: Source, choices: Choices<P>, filler: P, x: Candidate<P>)
    ensures x in Unrolled(source, choices, filler) <==> Selects(source, choices, x)
  {
    hide OfDatasets;
    hide OfDataset;
    hide OfProblems;
    hide OfImplementations;
    var c := Candidate(source, Unit, filler, choices.problem, filler, "", "", filler);
    DatasetsMembers(c, choices.datasets, choices.problems, choices.implementations, x);
    forall d | d in choices.datasets
      ensures
        x in OfDataset(c.(dataset := x.dataset), d.parameters, choices.problems, choices.implementations) <==>
        x.datasetParameters in d.parameters && x.problemParameters in choices.problems &&
        x in OfImplementations(c.(dataset := x.dataset, datasetParameters := x.datasetParameters,
                                  problemParameters := x.problemParameters), choices.implementations)
    {
      DatasetMembers(c.(dataset := x.dataset), d.parameters, choices.problems, choices.implementations, x);
      ProblemsMembers(c.(dataset := x.dataset, datasetParameters := x.datasetParameters), choices.problems,
                      choices.implementations, x);
    }
    ImplementationsMembers(c.(dataset := x.dataset, datasetParameters := x.datasetParameters,
                              problemParameters := x.problemParameters), choices.implementations, x);
  }

  // ----- the order of the product -----

  datatype DatasetPick<P> = DatasetPick(definition: Dataset, parameters: P)

  datatype ImplementationPick<P> = ImplementationPick(definition: string, environment: string, parameters: P)

  /** All dataset configurations, definition after definition. */
  ghost function DatasetPicks<P>(ds: seq<DatasetChoice<P>>): seq<DatasetPick<P>> {
    if ds == [] then []
    else DatasetPicks(ds[..|ds| - 1]) + PicksOf(ds[|ds| - 1].definition, ds[|ds| - 1].parameters)
  }

  ghost function PicksOf<P>(definition: Dataset, parameters: seq<P>): (r: seq<DatasetPick<P>>)
    ensures |r| == |parameters| && forall k :: 0 <= k < |r| ==> r[k] == DatasetPick(definition, parameters[k])
  {
    seq(|parameters|, k requires 0 <= k < |parameters| => DatasetPick(definition, parameters[k]))
  }

  /** All implementation configurations, definition after definition. */
  ghost function ImplementationPicks<P>(impls: seq<ImplementationChoice<P>>): seq<ImplementationPick<P>> {
    if impls == [] then []
    else
      var i := impls[|impls| - 1];
      ImplementationPicks(impls[..|impls| - 1]) +
      seq(|i.parameters|, k requires 0 <= k < |i.parameters| =>
        ImplementationPick(i.definition, i.environment, i.parameters[k]))
  }

  function WithDataset<P>(c: Candidate<P>, d: DatasetPick<P>): Candidate<P> {
    c.(dataset := d.definition, datasetParameters := d.parameters)
  }

  function WithImplementation<P>(c: Candidate<P>, i: ImplementationPick<P>): Candidate<P> {
    c.(implementation := i.definition, environment := i.environment, implementationParameters := i.parameters)
  }

  lemma {:induction false} ImplementationsInOrder<P>(c: Candidate<P>, impls: seq<ImplementationChoice<P>>)
    ensures |OfImplementations(c, impls)| == |ImplementationPicks(impls)|
    ensures forall k :: 0 <= k < |ImplementationPicks(impls)| ==>
              OfImplementations(c, impls)[k] == WithImplementation(c, ImplementationPicks(impls)[k])
  {
    if impls != [] {
      ImplementationsInOrder(c, impls[..|impls| - 1]);
    }
  }

  /** Where index k falls when one block follows n others of its size. */
  lemma AppendBlock<T>(list: seq<T>, block: seq<T>, n: nat, size: nat, k: nat)
    requires |list| == n * size && |block| == size && k < |list + block|
    ensures size > 0
    ensures k < |list| ==> k / size < n && (list + block)[k] == list[k]
    ensures k >= |list| ==> k / size == n && (list + block)[k] == block[k % size]
  {
    if k >= |list| {
      DivModUnique(k, size, n, k - |list|, |list|);
    } else if size > 0 && k / size >= n {
      ScaleUp(n, k / size, size);
    }
  }

  lemma Grown(n: nat, size: nat)
    ensures (n + 1) * size == n * size + size
  {}

  lemma {:induction false} ProblemsLength<P>(c: Candidate<P>, ps: seq<P>, impls: seq<ImplementationChoice<P>>)
    ensures |OfProblems(c, ps, impls)| == |ps| * |ImplementationPicks(impls)|
    decreases |ps|
  {
    hide OfImplementations;
    hide ImplementationPicks;
    if ps != [] {
      var n := |ps| - 1;
      ProblemsLength(c, ps[..n], impls);
      ImplementationsInOrder(c.(problemParameters := ps[n]), impls);
      Grown(n, |ImplementationPicks(impls)|);
    }
  }

  lemma {:induction false} ProblemInOrder<P>(c: Candidate<P>, ps: seq<P>, impls: seq<ImplementationChoice<P>>, k: nat)
    requires k < |OfProblems(c, ps, impls)|
    ensures IsProblemAt(c, ps, impls, k)
    decreases |ps|
  {
    hide OfImplementations;
    hide ImplementationPicks;
    var n := |ps| - 1;
    var list, block := OfProblems(c, ps[..n], impls), OfImplementations(c.(problemParameters := ps[n]), impls);
    ProblemsLength(c, ps[..n], impls);
    ImplementationsInOrder(c.(problemParameters := ps[n]), impls);
    AppendBlock(list, block, n, |ImplementationPicks(impls)|, k);
    if k < |list| {
      ProblemInOrder(c, ps[..n], impls, k);
    }
  }

  ghost predicate IsProblemAt<P>(c: Candidate<P>, ps: seq<P>, impls: seq<ImplementationChoice<P>>, k: nat)
    requires k < |OfProblems(c, ps, impls)|
  {
    var picks := ImplementationPicks(impls);
    && |picks| > 0 && k / |picks| < |ps|
    && OfProblems(c, ps, impls)[k] ==
       WithImplementation(c.(problemParameters := ps[k / |picks|]), picks[k % |picks|])
  }

  /** The block of one dataset configuration. */
  ghost function OfPick<P>(c: Candidate<P>, d: DatasetPick<P>, ps: seq<P>,
                           impls: seq<ImplementationChoice<P>>): seq<Candidate<P>> {
    OfProblems(WithDataset(c, d), ps, impls)
  }

  ghost function OfPicks<P>(c: Candidate<P>, ds: seq<DatasetPick<P>>, ps: seq<P>,
                            impls: seq<ImplementationChoice<P>>): seq<Candidate<P>> {
    if ds == [] then [] else OfPicks(c, ds[..|ds| - 1], ps, impls) + OfPick(c, ds[|ds| - 1], ps, impls)
  }

  lemma {:induction false} OfPicksAppend<P>(c: Candidate<P>, a: seq<DatasetPick<P>>, b: seq<DatasetPick<P>>, ps: seq<P>,
                                            impls: seq<ImplementationChoice<P>>)
    ensures OfPicks(c, a + b, ps, impls) == OfPicks(c, a, ps, impls) + OfPicks(c, b, ps, impls)
    decreases |b|
  {
    hide OfPick;
    if b == [] {
      assert a + b == a;
    } else {
      var n := |b| - 1;
      OfPicksAppend(c, a, b[..n], ps, impls);
      assert (a + b)[..|a| + n] == a + b[..n];
    }
  }

  lemma {:induction false} DatasetIsPicks<P>(c: Candidate<P>, definition: Dataset, ds: seq<P>, ps: seq<P>,
                                             impls: seq<ImplementationChoice<P>>)
    ensures OfDataset(c.(dataset := definition), ds, ps, impls) == OfPicks(c, PicksOf(definition, ds), ps, impls)
    decreases |ds|
  {
    hide OfProblems;
    if ds != [] {
      var n := |ds| - 1;
      DatasetIsPicks(c, definition, ds[..n], ps, impls);
      assert PicksOf(definition, ds)[..n] == PicksOf(definition, ds[..n]);
    }
  }

  lemma {:induction false} DatasetsArePicks<P>(c: Candidate<P>, ds: seq<DatasetChoice<P>>, ps: seq<P>,
                                               impls: seq<ImplementationChoice<P>>)
    ensures OfDatasets(c, ds, ps, impls) == OfPicks(c, DatasetPicks(ds), ps, impls)
  {
    hide OfDataset;
    hide OfPicks;
    if ds != [] {
      var n := |ds| - 1;
      DatasetsArePicks(c, ds[..n], ps, impls);
      DatasetIsPicks(c, ds[n].definition, ds[n].parameters, ps, impls);
      OfPicksAppend(c, DatasetPicks(ds[..n]), PicksOf(ds[n].definition, ds[n].parameters), ps, impls);
    } else {
      NoPicks(c, ps, impls);
    }
  }

  lemma NoPicks<P>(c: Candidate<P>, ps: seq<P>, impls: seq<ImplementationChoice<P>>)
    ensures OfPicks(c, [], ps, impls) == []
  {}

  /** Index k of the picks falls into block k / size, size being the number of
      candidates of one dataset configuration. */
  ghost predicate IsPickAt<P>(c: Candidate<P>, ds: seq<DatasetPick<P>>, ps: seq<P>, impls: seq<ImplementationChoice<P>>,
                              size: nat, k: nat)
    requires k < |OfPicks(c, ds, ps, impls)|
  {
    && size > 0 && k / size < |ds| && k % size < |OfPick(c, ds[k / size], ps, impls)|
    && OfPicks(c, ds, ps, impls)[k] == OfPick(c, ds[k / size], ps, impls)[k % size]
  }

  /** The number of candidates of one dataset configuration. */
  ghost function BlockSize<P>(ps: seq<P>, impls: seq<ImplementationChoice<P>>): nat {
    |ps| * |ImplementationPicks(impls)|
  }

  lemma {:induction false} PicksLength<P>(c: Candidate<P>, ds: seq<DatasetPick<P>>, ps: seq<P>,
                                          impls: seq<ImplementationChoice<P>>, size: nat)
    requires size == BlockSize(ps, impls)
    ensures |OfPicks(c, ds, ps, impls)| == |ds| * size
    decreases |ds|
  {
    hide OfPick;
    hide BlockSize;
    if ds != [] {
      PicksLength(c, ds[..|ds| - 1], ps, impls, size);
      PickSize(c, ds[|ds| - 1], ps, impls);
      Grown(|ds| - 1, size);
    }
  }

  lemma {:induction false} PickInOrder<P>(c: Candidate<P>, ds: seq<DatasetPick<P>>, ps: seq<P>,
                                          impls: seq<ImplementationChoice<P>>, size: nat, k: nat)
    requires size == BlockSize(ps, impls)
    requires k < |OfPicks(c, ds, ps, impls)|
    ensures IsPickAt(c, ds, ps, impls, size, k)
    decreases |ds|
  {
    hide OfPick;
    hide BlockSize;
    var n := |ds| - 1;
    var list := OfPicks(c, ds[..n], ps, impls);
    PicksLength(c, ds[..n], ps, impls, size);
    PickSize(c, ds[n], ps, impls);
    AppendBlock(list, OfPick(c, ds[n], ps, impls), n, size, k);
    if k < |list| {
      PickInOrder(c, ds[..n], ps, impls, size, k);
    }
  }

  lemma PickSize<P>(c: Candidate<P>, d: DatasetPick<P>, ps: seq<P>, impls: seq<ImplementationChoice<P>>)
    ensures |OfPick(c, d, ps, impls)| == BlockSize(ps, impls)
  {
    hide OfProblems;
    ProblemsLength(WithDataset(c, d), ps, impls);
  }

  /** c is what the digits of k select, the dataset configuration most significant
      and the implementation configuration least. */
  ghost predicate IsSelectionAt<P(!new)>(source: Source, choices: Choices<P>, k: nat, c: Candidate<P>) {
    hide BlockSize;
    hide DatasetPicks;
    hide ImplementationPicks;
    var ds, ps := DatasetPicks(choices.datasets), choices.problems;
    var impls, size := ImplementationPicks(choices.implementations), BlockSize(ps, choices.implementations);
    && size > 0 && |impls| > 0 && k / size < |ds| && k % size / |impls| < |ps|
    && var d, i := ds[k / size], impls[k % size % |impls|];
       c == Candidate(source, d.definition, d.parameters, choices.problem, ps[k % size / |impls|],
                      i.definition, i.environment, i.parameters)
  }

  /** The unrolled list in planning order: its length is the product of the numbers
      of dataset, problem and implementation configurations, and index k holds the
      selection with its mixed-radix digits. */
  lemma UnrolledInOrder<P(!new)>(source: Source, choices: Choices<P>, filler: P)
    ensures
      |Unrolled(source, choices, filler)| ==
      |DatasetPicks(choices.datasets)| * (|choices.problems| * |ImplementationPicks(choices.implementations)|)
    ensures forall k :: 0 <= k < |Unrolled(source, choices, filler)| ==>
              IsSelectionAt(source, choices, k, Unrolled(source, choices, filler)[k])
  {
    hide OfDatasets;
    hide OfPicks;
    hide DatasetPicks;
    hide ImplementationPicks;
    hide IsPickAt;
    hide IsSelectionAt;
    var c := Candidate(source, Unit, filler, choices.problem, filler, "", "", filler);
    var size := BlockSize(choices.problems, choices.implementations);
    DatasetsArePicks(c, choices.datasets, choices.problems, choices.implementations);
    PicksLength(c, DatasetPicks(choices.datasets), choices.problems, choices.implementations, size);
    forall k | 0 <= k < |Unrolled(source, choices, filler)|
      ensures IsSelectionAt(source, choices, k, Unrolled(source, choices, filler)[k])
    {
      SelectionInOrder(source, choices, c, size, k);
    }
  }

  lemma SelectionInOrder<P(!new)>(source: Source, choices: Choices<P>, c: Candidate<P>, size: nat, k: nat)
    requires size == BlockSize(choices.problems, choices.implementations)
    requires c.source == source && c.problem == choices.problem
    requires k < |OfPicks(c, DatasetPicks(choices.datasets), choices.problems, choices.implementations)|
    ensures
      IsSelectionAt(source, choices, k,
                    OfPicks(c, DatasetPicks(choices.datasets), choices.problems, choices.implementations)[k])
  {
    hide OfPicks;
    hide OfProblems;
    hide DatasetPicks;
    hide ImplementationPicks;
    hide BlockSize;
    PickInOrder(c, DatasetPicks(choices.datasets), choices.problems, choices.implementations, size, k);
    var d := WithDataset(c, DatasetPicks(choices.datasets)[k / size]);
    ProblemInOrder(d, choices.problems, choices.implementations, k % size);
  }

  // ----- insertion -----

  datatype Duplicate<P> = Duplicate(firstSource: Source, candidate: Candidate<P>)

  datatype State<P> = State(candidates: seq<Candidate<P>>, seen: map<Key, Source>)

  function InsertOne<P>(encode: P -> seq<nat>, s: State<P>, c: Candidate<P>): Result<State<P>, Duplicate<P>> {
    var key := KeyOf(encode, c);
    if key in s.seen then Err(Duplicate(s.seen[key], c))
    else Ok(State(s.candidates + [c], s.seen[key := c.source]))
  }

  function InsertAll<P>(encode: P -> seq<nat>, s: State<P>, list: seq<Candidate<P>>): Result<State<P>, Duplicate<P>>
    decreases |list|
  {
    if list == [] then Ok(s)
    else
      match InsertOne(encode, s, list[0])
      case Err(d) => Err(d)
      case Ok(t) => InsertAll(encode, t, list[1..])
  }

  lemma {:induction false} InsertAllAppend<P>(encode: P -> seq<nat>, s: State<P>, a: seq<Candidate<P>>,
                                              b: seq<Candidate<P>>)
    ensures
      InsertAll(encode, s, a + b) ==
      match InsertAll(encode, s, a)
      case Err(d) => Err(d)
      case Ok(t) => InsertAll(encode, t, b)
    decreases |a|
  {
    hide InsertOne;
    if a == [] {
      assert a + b == b;
    } else {
      assert (a + b)[1..] == a[1..] + b;
      var first := InsertOne(encode, s, a[0]);
      if first.Ok? {
        InsertAllAppend(encode, first.value, a[1..], b);
      }
    }
  }

  lemma InsertAllSingle<P>(encode: P -> seq<nat>, s: State<P>, c: Candidate<P>)
    ensures InsertAll(encode, s, [c]) == InsertOne(encode, s, c)
  {
    hide InsertOne;
    assert [c][1..] == [];
  }

  ghost predicate DistinctKeys<P>(encode: P -> seq<nat>, list: seq<Candidate<P>>) {
    forall i, j :: 0 <= i < j < |list| ==> KeyOf(encode, list[i]) != KeyOf(encode, list[j])
  }

  /** The state records exactly the listed candidates. */
  ghost predicate Records<P>(encode: P -> seq<nat>, s: State<P>, list: seq<Candidate<P>>) {
    && s.candidates == list && DistinctKeys(encode, list)
    && (forall i :: 0 <= i < |list| ==>
          KeyOf(encode, list[i]) in s.seen && s.seen[KeyOf(encode, list[i])] == list[i].source)
    && (forall key :: key in s.seen ==> exists i :: 0 <= i < |list| && KeyOf(encode, list[i]) == key)
  }

  /** list[at] is the first candidate to repeat a key, first used by list[from]. */
  ghost predicate FirstRepeat<P>(encode: P -> seq<nat>, list: seq<Candidate<P>>, from: nat, at: nat) {
    from < at < |list| && DistinctKeys(encode, list[..at]) && KeyOf(encode, list[from]) == KeyOf(encode, list[at])
  }

  lemma InsertOneRecords<P>(encode: P -> seq<nat>, s: State<P>, list: seq<Candidate<P>>, c: Candidate<P>)
    requires Records(encode, s, list)
    ensures
      match InsertOne(encode, s, c)
      case Ok(t) => Records(encode, t, list + [c])
      case Err(d) =>
        d.candidate == c
        && exists from ::
             0 <= from < |list| && KeyOf(encode, list[from]) == KeyOf(encode, c) && d.firstSource == list[from].source
  {
    hide KeyOf;
    var key := KeyOf(encode, c);
    if key !in s.seen {
      var t := State(s.candidates + [c], s.seen[key := c.source]);
      forall k | k in t.seen
        ensures exists i :: 0 <= i < |list + [c]| && KeyOf(encode, (list + [c])[i]) == k
      {
        if k == key {
          assert (list + [c])[|list|] == c;
        } else {
          var i :| 0 <= i < |list| && KeyOf(encode, list[i]) == k;
          assert (list + [c])[i] == list[i];
        }
      }
    }
  }

  /** Inserting a whole list succeeds exactly when its keys are distinct, and
      otherwise reports the first repeat with the source that came first. */
  lemma {:induction false} InsertAllMeans<P>(encode: P -> seq<nat>, s: State<P>, before: seq<Candidate<P>>,
                                             list: seq<Candidate<P>>)
    requires Records(encode, s, before)
    ensures
      match InsertAll(encode, s, list)
      case Ok(t) => Records(encode, t, before + list)
      case Err(d) =>
        exists from: nat, at: nat ::
          FirstRepeat(encode, before + list, from, at)
          && d == Duplicate((before + list)[from].source, (before + list)[at])
    decreases |list|
  {
    hide KeyOf;
    hide InsertOne;
    hide DistinctKeys;
    if list == [] {
      assert before + list == before;
    } else {
      InsertOneRecords(encode, s, before, list[0]);
      var first := InsertOne(encode, s, list[0]);
      assert before + [list[0]] + list[1..] == before + list;
      if first.Ok? {
        InsertAllMeans(encode, first.value, before + [list[0]], list[1..]);
      } else {
        var from: nat :| 0 <= from < |before| && KeyOf(encode, before[from]) == KeyOf(encode, list[0])
                         && first.error.firstSource == before[from].source;
        assert (before + list)[..|before|] == before;
        assert FirstRepeat(encode, before + list, from, |before|);
      }
    }
  }

  /** What became of the attempt to insert the listed candidates. */
  predicate Inserted<P(==)>(encode: P -> seq<nat>, before: State<P>, list: seq<Candidate<P>>,
                            failure: Option<Duplicate<P>>, after: State<P>) {
    match InsertAll(encode, before, list)
    case Ok(t) => failure == None && after == t
    case Err(d) => failure == Some(d)
  }

  /** The growing candidate list and the map of seen keys. */
  class Expansion<P> {
    var candidates: seq<Candidate<P>>
    var seen: map<Key, Source>

    constructor ()
      ensures Contents() == State([], map[])
    {
      candidates := [];
      seen := map[];
    }

    function Contents(): State<P>
      reads this
    {
      State(candidates, seen)
    }

    method InsertCandidate(encode: P -> seq<nat>, c: Candidate<P>) returns (failure: Option<Duplicate<P>>)
      modifies this
      ensures Inserted(encode, old(Contents()), [c], failure, Contents())
    {
      InsertAllSingle(encode, Contents(), c);
      var key := KeyOf(encode, c);
      if key in seen {
        return Some(Duplicate(seen[key], c));
      }
      seen := seen[key := c.source];
      candidates := candidates + [c];
      return None;
    }

    method InsertImplementation(encode: P -> seq<nat>, c: Candidate<P>, i: ImplementationChoice<P>)
      returns (failure: Option<Duplicate<P>>)
      modifies this
      ensures Inserted(encode, old(Contents()), OfImplementation(c, i), failure, Contents())
    {
      hide InsertAll;
      hide OfImplementation;
      ghost var start := Contents();
      ghost var list := OfImplementation(c, i);
      StartEmpty(encode, start);
      for k := 0 to |i.parameters|
        invariant InsertAll(encode, start, list[..k]) == Ok(Contents())
      {
        var next := c.(implementation := i.definition, environment := i.environment,
                       implementationParameters := i.parameters[k]);
        ImplementationAt(c, i, k);
        assert list[..k + 1] == list[..k] + [next];
        assert list == list[..k + 1] + list[k + 1..];
        InsertAllAppend(encode, start, list[..k], [next]);
        InsertAllAppend(encode, start, list[..k + 1], list[k + 1..]);
        failure := InsertCandidate(encode, next);
        if failure.Some? {
          return;
        }
      }
      assert list[..|list|] == list;
      failure := None;
    }

    method InsertImplementations(encode: P -> seq<nat>, c: Candidate<P>, impls: seq<ImplementationChoice<P>>)
      returns (failure: Option<Duplicate<P>>)
      modifies this
      ensures Inserted(encode, old(Contents()), OfImplementations(c, impls), failure, Contents())
    {
      hide InsertAll;
      hide OfImplementation;
      ghost var start := Contents();
      StartEmpty(encode, start);
      for k := 0 to |impls|
        invariant InsertAll(encode, start, OfImplementations(c, impls[..k])) == Ok(Contents())
      {
        assert impls[..k + 1][..k] == impls[..k];
        InsertAllAppend(encode, start, OfImplementations(c, impls[..k]), OfImplementation(c, impls[k]));
        failure := InsertImplementation(encode, c, impls[k]);
        if failure.Some? {
          FailureOfImplementations(encode, start, c, impls, k + 1);
          return;
        }
      }
      assert impls[..|impls|] == impls;
      failure := None;
    }

    method InsertProblems(encode: P -> seq<nat>, c: Candidate<P>, ps: seq<P>, impls: seq<ImplementationChoice<P>>)
      returns (failure: Option<Duplicate<P>>)
      modifies this
      ensures Inserted(encode, old(Contents()), OfProblems(c, ps, impls), failure, Contents())
    {
      hide InsertAll;
      hide OfImplementations;
      ghost var start := Contents();
      StartEmpty(encode, start);
      for k := 0 to |ps|
        invariant InsertAll(encode, start, OfProblems(c, ps[..k], impls)) == Ok(Contents())
      {
        assert ps[..k + 1][..k] == ps[..k];
        InsertAllAppend(encode, start, OfProblems(c, ps[..k], impls),
                        OfImplementations(c.(problemParameters := ps[k]), impls));
        failure := InsertImplementations(encode, c.(problemParameters := ps[k]), impls);
        if failure.Some? {
          FailureOfProblems(encode, start, c, ps, impls, k + 1);
          return;
        }
      }
      assert ps[..|ps|] == ps;
      failure := None;
    }

    method InsertDataset(encode: P -> seq<nat>, c: Candidate<P>, ds: seq<P>, ps: seq<P>,
                         impls: seq<ImplementationChoice<P>>) returns (failure: Option<Duplicate<P>>)
      modifies this
      ensures Inserted(encode, old(Contents()), OfDataset(c, ds, ps, impls), failure, Contents())
    {
      hide InsertAll;
      hide OfProblems;
      ghost var start := Contents();
      StartEmpty(encode, start);
      for k := 0 to |ds|
        invariant InsertAll(encode, start, OfDataset(c, ds[..k], ps, impls)) == Ok(Contents())
      {
        assert ds[..k + 1][..k] == ds[..k];
        InsertAllAppend(encode, start, OfDataset(c, ds[..k], ps, impls),
                        OfProblems(c.(datasetParameters := ds[k]), ps, impls));
        failure := InsertProblems(encode, c.(datasetParameters := ds[k]), ps, impls);
        if failure.Some? {
          FailureOfDataset(encode, start, c, ds, ps, impls, k + 1);
          return;
        }
      }
      assert ds[..|ds|] == ds;
      failure := None;
    }

    method InsertDatasets(encode: P -> seq<nat>, c: Candidate<P>, ds: seq<DatasetChoice<P>>, ps: seq<P>,
                          impls: seq<ImplementationChoice<P>>) returns (failure: Option<Duplicate<P>>)
      modifies this
      ensures Inserted(encode, old(Contents()), OfDatasets(c, ds, ps, impls), failure, Contents())
    {
      hide InsertAll;
      hide OfDataset;
      ghost var start := Contents();
      StartEmpty(encode, start);
      for k := 0 to |ds|
        invariant InsertAll(encode, start, OfDatasets(c, ds[..k], ps, impls)) == Ok(Contents())
      {
        assert ds[..k + 1][..k] == ds[..k];
        InsertAllAppend(encode, start, OfDatasets(c, ds[..k], ps, impls),
                        OfDataset(c.(dataset := ds[k].definition), ds[k].parameters, ps, impls));
        failure := InsertDataset(encode, c.(dataset := ds[k].definition), ds[k].parameters, ps, impls);
        if failure.Some? {
          FailureOfDatasets(encode, start, c, ds, ps, impls, k + 1);
          return;
        }
      }
      assert ds[..|ds|] == ds;
      failure := None;
    }

    /** The insertions of expand_source, once its parameters are resolved. */
    method InsertSource(encode: P -> seq<nat>, source: Source, choices: Choices<P>, filler: P)
      returns (failure: Option<Duplicate<P>>)
      modifies this
      ensures Inserted(encode, old(Contents()), Unrolled(source, choices, filler), failure, Contents())
    {
      hide InsertAll;
      hide OfDatasets;
      failure := InsertDatasets(encode, Candidate(source, Unit, filler, choices.problem, filler, "", "", filler),
                                choices.datasets, choices.problems, choices.implementations);
    }
  }

  lemma StartEmpty<P>(encode: P -> seq<nat>, s: State<P>)
    ensures InsertAll(encode, s, []) == Ok(s)
  {}

  lemma ImplementationAt<P>(c: Candidate<P>, i: ImplementationChoice<P>, k: nat)
    requires k < |i.parameters|
    ensures
      OfImplementation(c, i)[k] ==
      c.(implementation := i.definition, environment := i.environment, implementationParameters := i.parameters[k])
  {}

  /** A failure inside a prefix of the loops is the failure of the whole list. */
  lemma {:induction false} FailureOfImplementations<P>(encode: P -> seq<nat>, s: State<P>, c: Candidate<P>,
                                                       impls: seq<ImplementationChoice<P>>, k: nat)
    requires k <= |impls| && InsertAll(encode, s, OfImplementations(c, impls[..k])).Err?
    ensures InsertAll(encode, s, OfImplementations(c, impls)) == InsertAll(encode, s, OfImplementations(c, impls[..k]))
    decreases |impls|
  {
    hide InsertAll;
    hide OfImplementation;
    if k == |impls| {
      assert impls[..k] == impls;
    } else {
      var n := |impls| - 1;
      assert impls[..n][..k] == impls[..k];
      FailureOfImplementations(encode, s, c, impls[..n], k);
      InsertAllAppend(encode, s, OfImplementations(c, impls[..n]), OfImplementation(c, impls[n]));
    }
  }

  lemma {:induction false} FailureOfProblems<P>(encode: P -> seq<nat>, s: State<P>, c: Candidate<P>, ps: seq<P>,
                                                impls: seq<ImplementationChoice<P>>, k: nat)
    requires k <= |ps| && InsertAll(encode, s, OfProblems(c, ps[..k], impls)).Err?
    ensures InsertAll(encode, s, OfProblems(c, ps, impls)) == InsertAll(encode, s, OfProblems(c, ps[..k], impls))
    decreases |ps|
  {
    hide InsertAll;
    hide OfImplementations;
    if k == |ps| {
      assert ps[..k] == ps;
    } else {
      var n := |ps| - 1;
      assert ps[..n][..k] == ps[..k];
      FailureOfProblems(encode, s, c, ps[..n], impls, k);
      InsertAllAppend(encode, s, OfProblems(c, ps[..n], impls),
                      OfImplementations(c.(problemParameters := ps[n]), impls));
    }
  }

  lemma {:induction false} FailureOfDataset<P>(encode: P -> seq<nat>, s: State<P>, c: Candidate<P>, ds: seq<P>,
                                               ps: seq<P>, impls: seq<ImplementationChoice<P>>, k: nat)
    requires k <= |ds| && InsertAll(encode, s, OfDataset(c, ds[..k], ps, impls)).Err?
    ensures InsertAll(encode, s, OfDataset(c, ds, ps, impls)) == InsertAll(encode, s, OfDataset(c, ds[..k], ps, impls))
    decreases |ds|
  {
    hide InsertAll;
    hide OfProblems;
    if k == |ds| {
      assert ds[..k] == ds;
    } else {
      var n := |ds| - 1;
      assert ds[..n][..k] == ds[..k];
      FailureOfDataset(encode, s, c, ds[..n], ps, impls, k);
      InsertAllAppend(encode, s, OfDataset(c, ds[..n], ps, impls),
                      OfProblems(c.(datasetParameters := ds[n]), ps, impls));
    }
  }

  lemma {:induction false} FailureOfDatasets<P>(encode: P -> seq<nat>, s: State<P>, c: Candidate<P>,
                                                ds: seq<DatasetChoice<P>>, ps: seq<P>,
                                                impls: seq<ImplementationChoice<P>>, k: nat)
    requires k <= |ds| && InsertAll(encode, s, OfDatasets(c, ds[..k], ps, impls)).Err?
    ensures
      InsertAll(encode, s, OfDatasets(c, ds, ps, impls)) == InsertAll(encode, s, OfDatasets(c, ds[..k], ps, impls))
    decreases |ds|
  {
    hide InsertAll;
    hide OfDataset;
    if k == |ds| {
      assert ds[..k] == ds;
    } else {
      var n := |ds| - 1;
      assert ds[..n][..k] == ds[..k];
      FailureOfDatasets(encode, s, c, ds[..n], ps, impls, k);
      InsertAllAppend(encode, s, OfDatasets(c, ds[..n], ps, impls),
                      OfDataset(c.(dataset := ds[n].definition), ds[n].parameters, ps, impls));
    }
  }

  // ----- the whole experiment -----

  /** The parameter expansions of one matrix member, in the order they are
      resolved: the problem, the datasets, the implementations. */
  datatype Resolution<P, E> = Resolution(
    problem: string, problems: Result<seq<P>, E>,
    datasets: seq<Result<DatasetChoice<P>, E>>, implementations: seq<Result<ImplementationChoice<P>, E>>)

  /** The first failure among the expansions, or the resolved choices. */
  function Resolve<P, E>(r: Resolution<P, E>): Result<Choices<P>, E> {
    match r.problems
    case Err(e) => Err(e)
    case Ok(problems) =>
      match Collected(r.datasets)
      case Err(e) => Err(e)
      case Ok(datasets) =>
        match Collected(r.implementations)
        case Err(e) => Err(e)
        case Ok(implementations) => Ok(Choices(datasets, r.problem, problems, implementations))
  }

  datatype Failure<P, E> = Unresolved(error: E) | Repeated(duplicate: Duplicate<P>)

  /** The matrix members of an experiment. */
  function Sources(cases: seq<string>): (sources: seq<Source>)
    ensures cases == [] ==> sources == [Experiment]
    ensures cases != [] ==> |sources| == |cases|
    ensures forall i :: 0 <= i < |cases| ==> sources[i] == Case(cases[i])
  {
    if cases == [] then [Experiment] else seq(|cases|, i requires 0 <= i < |cases| => Case(cases[i]))
  }

  ghost predicate AllResolved<P, E>(sources: seq<Source>, resolutions: Source -> Resolution<P, E>) {
    forall i :: 0 <= i < |sources| ==> Resolve(resolutions(sources[i])).Ok?
  }

  /** The candidates of several members, one member after the other. */
  ghost function UnrolledAll<P, E>(sources: seq<Source>, resolutions: Source -> Resolution<P, E>,
                                   filler: P): seq<Candidate<P>>
    requires AllResolved(sources, resolutions)
  {
    if sources == [] then []
    else
      var n := |sources| - 1;
      assert forall i :: 0 <= i < n ==> sources[..n][i] == sources[i];
      UnrolledAll(sources[..n], resolutions, filler) +
      Unrolled(sources[n], Resolve(resolutions(sources[n])).value, filler)
  }

  /** What expand_experiment returns: every member resolves and all unrolled keys
      are distinct; or some member is the first not to resolve, the keys before
      it being distinct; or the first repeated key, with its earliest source. */
  ghost predicate Expands<P(!new), E>(sources: seq<Source>, resolutions: Source -> Resolution<P, E>,
                                      encode: P -> seq<nat>, filler: P, result: Result<State<P>, Failure<P, E>>) {
    match result
    case Ok(s) => AllResolved(sources, resolutions) && Records(encode, s, UnrolledAll(sources, resolutions, filler))
    case Err(Unresolved(e)) =>
      exists k :: 0 <= k < |sources| && UnresolvedAt(sources, resolutions, encode, filler, k, e)
    case Err(Repeated(d)) =>
      exists k :: 0 < k <= |sources| && RepeatedBy(sources, resolutions, encode, filler, k, d)
  }

  ghost predicate UnresolvedAt<P, E>(sources: seq<Source>, resolutions: Source -> Resolution<P, E>,
                                     encode: P -> seq<nat>, filler: P, k: nat, e: E)
    requires k < |sources|
  {
    && AllResolved(sources[..k], resolutions) && Resolve(resolutions(sources[k])) == Err(e)
    && DistinctKeys(encode, UnrolledAll(sources[..k], resolutions, filler))
  }

  ghost predicate RepeatedBy<P(!new), E>(sources: seq<Source>, resolutions: Source -> Resolution<P, E>,
                                         encode: P -> seq<nat>, filler: P, k: nat, d: Duplicate<P>)
    requires 0 < k <= |sources|
  {
    && AllResolved(sources[..k], resolutions)
    && DistinctKeys(encode, UnrolledAll(sources[..k - 1], resolutions, filler))
    && var list := UnrolledAll(sources[..k], resolutions, filler);
       exists from: nat, at: nat :: FirstRepeat(encode, list, from, at) && d == Duplicate(list[from].source, list[at])
  }

  method ExpandExperiment<P(!new), E>(cases: seq<string>, resolutions: Source -> Resolution<P, E>,
                                      encode: P -> seq<nat>, filler: P)
    returns (result: Result<State<P>, Failure<P, E>>)
    ensures Expands(Sources(cases), resolutions, encode, filler, result)
  {
    hide Unrolled;
    hide Resolve;
    hide Records;
    hide InsertAll;
    var sources := Sources(cases);
    var expansion := new Expansion<P>();
    NothingRecorded(encode);
    for k := 0 to |sources|
      invariant AllResolved(sources[..k], resolutions)
      invariant Records(encode, expansion.Contents(), UnrolledAll(sources[..k], resolutions, filler))
    {
      var choices := Resolve(resolutions(sources[k]));
      RecordsDistinct(encode, expansion.Contents(), UnrolledAll(sources[..k], resolutions, filler));
      if choices.Err? {
        assert UnresolvedAt(sources, resolutions, encode, filler, k, choices.error);
        return Err(Unresolved(choices.error));
      }
      NextMember(sources, resolutions, filler, k);
      InsertAllMeans(encode, expansion.Contents(), UnrolledAll(sources[..k], resolutions, filler),
                     Unrolled(sources[k], choices.value, filler));
      var failure := expansion.InsertSource(encode, sources[k], choices.value, filler);
      if failure.Some? {
        assert sources[..k + 1 - 1] == sources[..k];
        assert RepeatedBy(sources, resolutions, encode, filler, k + 1, failure.value);
        return Err(Repeated(failure.value));
      }
    }
    assert sources[..|sources|] == sources;
    return Ok(expansion.Contents());
  }

  lemma NothingRecorded<P>(encode: P -> seq<nat>)
    ensures Records(encode, State([], map[]), [])
  {}

  lemma RecordsDistinct<P>(encode: P -> seq<nat>, s: State<P>, list: seq<Candidate<P>>)
    requires Records(encode, s, list)
    ensures DistinctKeys(encode, list)
  {}

  lemma NextMember<P, E>(sources: seq<Source>, resolutions: Source -> Resolution<P, E>, filler: P, k: nat)
    requires k < |sources| && AllResolved(sources[..k], resolutions) && Resolve(resolutions(sources[k])).Ok?
    ensures AllResolved(sources[..k + 1], resolutions)
    ensures
      UnrolledAll(sources[..k + 1], resolutions, filler) ==
      UnrolledAll(sources[..k], resolutions, filler) +
      Unrolled(sources[k], Resolve(resolutions(sources[k])).value, filler)
  {
    hide Resolve;
    hide Unrolled;
    assert forall i :: 0 <= i < k ==> sources[..k + 1][i] == sources[..k][i];
    assert sources[..k + 1][..k] == sources[..k];
  }

  /** The expansion succeeds exactly when every member resolves and all unrolled
      candidates have distinct keys; the candidates are then the unrolled list
      and the seen keys exactly theirs. */
  lemma SucceedsWhenDistinct<P(!new), E>(sources: seq<Source>, resolutions: Source -> Resolution<P, E>,
                                         encode: P -> seq<nat>, filler: P, result: Result<State<P>, Failure<P, E>>)
    requires Expands(sources, resolutions, encode, filler, result)
    ensures
      result.Ok? <==>
      AllResolved(sources, resolutions) && DistinctKeys(encode, UnrolledAll(sources, resolutions, filler))
    ensures result.Ok? ==>
      && result.value.candidates == UnrolledAll(sources, resolutions, filler)
      && forall key :: key in result.value.seen <==> exists c :: c in result.value.candidates && KeyOf(encode, c) == key
  {
    hide KeyOf;
    hide Resolve;
    hide Unrolled;
    hide UnrolledAll;
    if result.Ok? {
      var s := result.value;
      forall c | c in s.candidates
        ensures KeyOf(encode, c) in s.seen
      {
        var i :| 0 <= i < |s.candidates| && s.candidates[i] == c;
      }
    } else if AllResolved(sources, resolutions) {
      if result.error.Repeated? {
        var k :| 0 < k <= |sources| && RepeatedBy(sources, resolutions, encode, filler, k, result.error.duplicate);
        var list := UnrolledAll(sources[..k], resolutions, filler);
        var from: nat, at: nat :| FirstRepeat(encode, list, from, at)
                                  && result.error.duplicate == Duplicate(list[from].source, list[at]);
        PrefixOfAll(sources, resolutions, filler, k);
        var all := UnrolledAll(sources, resolutions, filler);
        assert all[from] == list[from] && all[at] == list[at];
      }
    }
  }

  lemma {:induction false} PrefixOfAll<P, E>(sources: seq<Source>, resolutions: Source -> Resolution<P, E>,
                                             filler: P, k: nat)
    requires k <= |sources| && AllResolved(sources, resolutions)
    ensures
      AllResolved(sources[..k], resolutions)
      && UnrolledAll(sources[..k], resolutions, filler) <= UnrolledAll(sources, resolutions, filler)
    decreases |sources|
  {
    hide Resolve;
    hide Unrolled;
    if k == |sources| {
      assert sources[..k] == sources;
    } else {
      var n := |sources| - 1;
      assert sources[..n][..k] == sources[..k];
      assert forall i :: 0 <= i < n ==> sources[..n][i] == sources[i];
      PrefixOfAll(sources[..n], resolutions, filler, k);
    }
  }

  // ----- which candidates are duplicates -----

  /** The candidates are the same configuration: the same dataset, problem and
      implementation with parameters that encode alike. Their sources and
      environments do not matter. */
  ghost predicate SameConfiguration<P>(encode: P -> seq<nat>, a: Candidate<P>, b: Candidate<P>) {
    && a.dataset == b.dataset && encode(a.datasetParameters) == encode(b.datasetParameters)
    && a.problem == b.problem && encode(a.problemParameters) == encode(b.problemParameters)
    && a.implementation == b.implementation
    && encode(a.implementationParameters) == encode(b.implementationParameters)
  }

  lemma KeyMeans<P>(encode: P -> seq<nat>, a: Candidate<P>, b: Candidate<P>)
    ensures KeyOf(encode, a) == KeyOf(encode, b) <==> SameConfiguration(encode, a, b)
  {}

  /** Under an injective encoding duplicates have the very same parameters, and two
      candidates that differ only in source or environment are duplicates. */
  lemma DuplicatesMean<P(!new)>(encode: P -> seq<nat>, a: Candidate<P>, b: Candidate<P>)
    requires forall p, q :: encode(p) == encode(q) ==> p == q
    ensures SameConfiguration(encode, a, b) <==> b == a.(source := b.source, environment := b.environment)
  {}

  ghost predicate NoRepeats<P>(encode: P -> seq<nat>, list: seq<Candidate<P>>) {
    forall i, j :: 0 <= i < j < |list| ==> !SameConfiguration(encode, list[i], list[j])
  }

  lemma DistinctMeans<P>(encode: P -> seq<nat>, list: seq<Candidate<P>>)
    ensures DistinctKeys(encode, list) <==> NoRepeats(encode, list)
  {
    hide KeyOf;
    hide SameConfiguration;
    forall i, j | 0 <= i < j < |list|
      ensures KeyOf(encode, list[i]) == KeyOf(encode, list[j]) <==> SameConfiguration(encode, list[i], list[j])
    {
      KeyMeans(encode, list[i], list[j]);
    }
  }

  /** The expansion succeeds exactly when every member resolves and no two of the
      unrolled candidates are the same configuration. Otherwise, if every member
      resolves, the duplicate is the first candidate that repeats a configuration,
      with the source of the one it repeats. */
  lemma SucceedsWithoutRepeats<P(!new), E>(sources: seq<Source>, resolutions: Source -> Resolution<P, E>,
                                           encode: P -> seq<nat>, filler: P, result: Result<State<P>, Failure<P, E>>)
    requires Expands(sources, resolutions, encode, filler, result) && AllResolved(sources, resolutions)
    ensures
      var list := UnrolledAll(sources, resolutions, filler);
      && (result.Ok? <==> NoRepeats(encode, list))
      && (result.Ok? ==> result.value.candidates == list)
      && (result.Err? ==> result.error.Repeated? && exists from: nat, at: nat ::
            && from < at < |list| && NoRepeats(encode, list[..at]) && SameConfiguration(encode, list[from], list[at])
            && result.error.duplicate == Duplicate(list[from].source, list[at]))
  {
    hide KeyOf;
    hide Resolve;
    hide Unrolled;
    hide UnrolledAll;
    hide DistinctKeys;
    hide NoRepeats;
    var all := UnrolledAll(sources, resolutions, filler);
    SucceedsWhenDistinct(sources, resolutions, encode, filler, result);
    DistinctMeans(encode, all);
    if result.Err? {
      NotUnresolved(sources, resolutions, encode, filler, result);
      var k :| 0 < k <= |sources| && RepeatedBy(sources, resolutions, encode, filler, k, result.error.duplicate);
      var list := UnrolledAll(sources[..k], resolutions, filler);
      var from: nat, at: nat :| FirstRepeat(encode, list, from, at)
                                && result.error.duplicate == Duplicate(list[from].source, list[at]);
      PrefixOfAll(sources, resolutions, filler, k);
      assert all[from] == list[from] && all[at] == list[at] && all[..at] == list[..at];
      DistinctMeans(encode, all[..at]);
      KeyMeans(encode, all[from], all[at]);
    }
  }

  lemma NotUnresolved<P(!new), E>(sources: seq<Source>, resolutions: Source -> Resolution<P, E>,
                                  encode: P -> seq<nat>, filler: P, result: Result<State<P>, Failure<P, E>>)
    requires Expands(sources, resolutions, encode, filler, result) && AllResolved(sources, resolutions) && result.Err?
    ensures result.error.Repeated?
  {
    hide Resolve;
    hide UnrolledAll;
    hide DistinctKeys;
  }

  // ----- which expansion fails first -----

  /** Expansions fail in the order problem, datasets, implementations, and within a
      list the first failing definition decides. */
  lemma ResolveMeans<P, E>(r: Resolution<P, E>, e: E)
    ensures
      Resolve(r) == Err(e) <==>
      || r.problems == Err(e)
      || (r.problems.Ok? && exists i :: FailsFirst(r.datasets, i, e))
      || (r.problems.Ok? && (forall k :: 0 <= k < |r.datasets| ==> r.datasets[k].Ok?)
          && exists i :: FailsFirst(r.implementations, i, e))
    ensures Resolve(r).Ok? ==>
      && Resolve(r).value.problem == r.problem && Ok(Resolve(r).value.problems) == r.problems
      && |Resolve(r).value.datasets| == |r.datasets| && |Resolve(r).value.implementations| == |r.implementations|
      && (forall k :: 0 <= k < |r.datasets| ==> r.datasets[k] == Ok(Resolve(r).value.datasets[k]))
      && forall k :: 0 <= k < |r.implementations| ==> r.implementations[k] == Ok(Resolve(r).value.implementations[k])
  {
    hide Collected;
    CollectedFails(r.datasets, e);
    CollectedFails(r.implementations, e);
    CollectedMeans(r.datasets);
    CollectedMeans(r.implementations);
  }

  lemma CollectedFails<T, E>(results: seq<Result<T, E>>, e: E)
    ensures Collected(results) == Err(e) <==> exists i :: FailsFirst(results, i, e)
    ensures Collected(results).Ok? <==> forall k :: 0 <= k < |results| ==> results[k].Ok?
  {
    CollectedMeans(results);
    if Collected(results).Err? {
      var i :| 0 <= i < |results| && results[i] == Err(Collected(results).error)
               && forall j :: 0 <= j < i ==> results[j].Ok?;
      assert FailsFirst(results, i, Collected(results).error);
      if k :| FailsFirst(results, k, e) {
        assert k == i;
      }
    }
  }

  ghost predicate FailsFirst<T, E>(results: seq<Result<T, E>>, i: int, e: E) {
    && 0 <= i < |results| && results[i] == Err(e)
    && forall k :: 0 <= k < i ==> results[k].Ok?
  }
}
