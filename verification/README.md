# Verified model of Metewand

Metewand is a benchmark runner. These Dafny modules model its planning,
encoding and protocol code and the numeric solvers of its examples, and prove
what that code is for. `dafny verify dfyconfig.toml` checks everything.

## What is modelled

**Numeric solvers** (over `real`). Isotonic regression by pooling
(`Isotonic`) is the projection onto nondecreasing sequences and its only
minimiser. On it rest two solvers: the sorted proximal step of the clustered
lasso, which `ClusteredLasso` proves optimal over *all* vectors for the
evaluator's pairwise penalty, and the slope solver (`Slope`), which finds a
global minimiser of the evaluator's sorted-weights objective.
`ProximalGradient` follows the whole solver loop: each step never raises the
objective, a fixed point is exactly a global minimiser, and after k steps the
gap to any competitor is at most that competitor's distance bound over k.
`Intercepts` proves soft thresholding optimal when the centred columns are
orthogonal. `LeastSquares` proves the descent of gradient and coordinate
descent, their convergence bounds, and that the evaluator's gradient metric is
zero exactly at a minimiser. `Vectors`, `Matrices`, `Permutations` and
`Rearrangement` hold the algebra.

**Worker protocol.** `Framing` specifies the frames of a byte stream without
mentioning how it is cut, and proves the reader against it for every chunking;
`ResponseCorrelator` accepts exactly the first matching response.

**Planner.** `AxisExpansion` (with `MixedRadix`, `Keys`) enumerates parameter
combinations, `CandidateExpansion` unrolls and deduplicates candidates,
`SlotPlanning` and `ControlSchedules` lay out observation and attempt slots,
`AttemptPriorities` derives the priorities of attempts, `Scheduling` orders them,
and `CheckSchedules` answers checkpoint queries in checked 64-bit arithmetic.

**Documents.** `Canonical` and `Documents` define the canonical JSON domain and
the two readers that enter it, and `RepeatedKeys` compares what they report;
`Pointers`, `MetricRows` and `CsvTables` flatten and export metrics without loss;
`Parameters` and `ParameterSources` merge parameters and trace a failing value
back to where it was authored, through `SourceMaps`, `SourceNodes`,
`InlineContracts` and `SourceLines`; `SchemaUris` and `SchemaPaths` normalise
schema references, and `SchemaPositions` says what that does at each place;
`Timestamps` and `RecordIds` are the textual forms of instants and identities, and
`Inspection` collects the identities in a record. `Wrappers`, `Integers`,
`Searching`, `Json` and `Lexicographic` are shared.

Methods stand for code that changes state in loops and are tied to a
specification function or property; lemmas prove what the repository promises
about those functions. Objects iterate in ascending key order, as serde_json's
maps do without its `preserve_order` feature.

## Preconditions

- Solvers: matrices are rectangular and nonempty, penalties are nonnegative;
  `Intercepts.Solve` needs nonconstant columns and `ProximalGradient` a matrix
  that is not all zero, since the code divides by their norms.
- `SlotPlanning.PlanSpecification`: a streaming or buffered profile has a
  positive bound, which `ProfilePolicy::validate` enforces
  (src/core/profile.rs:102-105).
- `CheckSchedules.NextAfterIsLeast`, `CheckSchedules.Enumerate`: the schedule has
  passed its validation.
- Scheduling: digests have 32 bytes and counters fit 64 bits, as their types say.
- `Canonical.NormalizeValue` takes the numbers that serde_json can hold.
- `ParameterSources.Locate`: the reported path is a printed pointer, as the schema
  validator and `escape_pointer` write it (src/core/schema.rs:225-248).
- `ParameterSources.LocatedIsAuthored` and `LocatedDefault`: each origin's map
  records exactly the pointers of the authored value, which
  `SourceNodes.CollectDocument` and `ParameterSources.ParsedDocumentRecords`
  establish for parsed documents; the authored numbers are in the canonical domain,
  as the manifest reader requires, but need not be in canonical form.
- `ParameterSources.LocatedMissing`: the declaration's map is that of a node: either
  the one that `SourceNodes.CollectDocument` leaves for a whole document
  (`InlineContracts.DocumentIsMapOf`), or the part of it that an inline problem
  contract gets (`InlineContracts.InlineContract`), whose empty pointer may also
  have a key.
- `Framing.FrameReader`: no chunk is empty, since an empty buffer means the end of
  the input.

## Points worth knowing

- `Scheduling`: the slot identity closes the sort key, so the randomised order
  does not depend on the input order even when hash priorities collide.
- Refused documents: the canonical reader refuses repeated keys and numbers outside
  its domain, the frame reader only repeated keys. The canonical reader looks at a
  value before its key, the frame reader at a key before its value, so for a
  document with repeated keys they may name different violations
  (`RepeatedKeys.ReasonsDiffer`). They name the same one exactly when all numbers
  before the repeat that the canonical reader meets first are in the domain and the
  repeats that the two meet first have the same key (`RepeatedKeys.ReportsAgree`).
- `SchemaPaths`: the depth check counts only named segments, so it can refuse a path
  that stays inside, such as `a//../../../x` under `/s/m`
  (`SchemaPaths.RefusedThoughInside`). At the `..` where a path is refused it really
  leaves the repository exactly when neither the base directory nor the path so far
  has an empty segment (`SchemaPaths.RefusedRightly`).
- `ParameterSources`: a failure of the whole parameter object never falls back to the
  declaration in a parsed document, since the document's root is always recorded and
  the lookup goes upwards (`ParameterSources.LocatedWhole`).
- `ParameterSources`: definitions with compact `parameters` and definitions with a
  `parameter-schema` are both covered; a namespace without axes need not be authored.

## Model

| member | source | states |
|---|---|---|
| Isotonic.Pool | examples/workflow-smoke/solver.py:8-19 | the result is nondecreasing, keeps length and sum, is the projection of the input, beats every nondecreasing sequence by the squared distance between them, and takes at most n merges |
| Isotonic.FitIsOptimal | examples/workflow-smoke/solver.py:8-19 | the projection has no nondecreasing competitor with a smaller sum of squares |
| Isotonic.FitIsUnique | examples/workflow-smoke/solver.py:8-19 | any nondecreasing sequence that does as well is the fit itself |
| Isotonic.MergeBlocks | examples/workflow-smoke/solver.py:12-18 | merging two out-of-order blocks keeps the invariant that every prefix of a block averages at least the block mean |
| Isotonic.AbelBound | examples/workflow-smoke/solver.py:12-19 | when prefixes average at least m, the deviations from m along a nondecreasing vector are bounded by their total times its last entry |
| ClusteredLasso.PairsOfSorted | examples/workflow-smoke/evaluator.py:27-31 | on a sorted vector the evaluator's explicit pairs sum to the rank weights the solver shifts by |
| ClusteredLasso.SortedStepBeats | examples/workflow-smoke/solver.py:61-68 | pooling the shifted point and soft thresholding beats every nondecreasing competitor in the penalised distance |
| ClusteredLasso.OrderIsIrrelevant | examples/workflow-smoke/solver.py:61-68 | permuting the point and a competitor alike leaves the penalised distance unchanged |
| ClusteredLasso.SortedStepIsProx | examples/workflow-smoke/solver.py:61-68 | for a sorted point the step minimises over all vectors, sorted or not |
| ClusteredLasso.ArgSort | examples/workflow-smoke/solver.py:61 | the order is a permutation that sorts the point |
| ClusteredLasso.ProxStep | examples/workflow-smoke/solver.py:61-68 | sorting, pooling, thresholding and scattering back minimise the penalised distance over all vectors |
| ProximalGradient.PenaltyConvex | examples/workflow-smoke/evaluator.py:26-31 | the evaluator's penalty is convex |
| ProximalGradient.ProxIsSubgradient | examples/workflow-smoke/solver.py:61-68 | the step's displacement is a subgradient of the penalty |
| ProximalGradient.StepInequality | examples/workflow-smoke/solver.py:49-72 | one step's objective against any competitor is bounded by the change of distance to it |
| ProximalGradient.StepDescends | examples/workflow-smoke/solver.py:52-72 | a step lowers the full objective by at least half the Frobenius bound times its squared length |
| ProximalGradient.FixedPointIsOptimal | examples/workflow-smoke/solver.py:69-71 | a step leaves coefficients unchanged exactly when they minimise the full objective |
| ProximalGradient.GainedStep | examples/workflow-smoke/solver.py:52-72 | every step extends the bound of the objective gap over the number of steps |
| ProximalGradient.SmallStepIsNearOptimal | examples/workflow-smoke/solver.py:69-71 | a step that moves no coefficient by as much as the tolerance ends within Frobenius bound times tolerance times (1-norm distance plus half the dimension times tolerance) of any competitor |
| ProximalGradient.Solve | examples/workflow-smoke/solver.py:46-72 | the loop ends within 2000 steps or within the tolerance, with the gap to every competitor bounded by its square norm over the steps taken, and after an early stop also by the tolerance |
| Slope.SortedMagnitudesDescend | examples/workflow-smoke/evaluator.py:24 | the sorted magnitudes descend and are exactly the magnitudes of the coefficients |
| Slope.SortedStepBeats | examples/workflow-smoke/solver.py:42-46 | on folded sorted data pooling and clipping beats every sorted competitor |
| Slope.Solve | examples/workflow-smoke/solver.py:40-46 | the coefficients minimise the evaluator's objective over every vector |
| Intercepts.LossSeparates | examples/workflow-smoke/solver.py:25-39 | the loss is the loss on centred data plus what the intercept misses |
| Intercepts.CoefficientsAreOptimal | examples/workflow-smoke/solver.py:29-35 | with orthogonal centred columns the thresholded coefficients have the least penalised loss |
| Intercepts.SolutionIsOptimal | examples/workflow-smoke/solver.py:36-39 | coefficients and intercept minimise the evaluator's objective over all coefficients and intercepts |
| Intercepts.Solve | examples/workflow-smoke/solver.py:25-39 | each coefficient solves its thresholded equation, the intercept goes through the means, and both are optimal for orthogonal centred columns |
| Rearrangement.SwapBringsCloser | examples/workflow-smoke/solver.py:61-68 | swapping an inversion brings a vector no farther from a point that ascends there |
| Rearrangement.SwapsUndoPermutation | examples/workflow-smoke/solver.py:66-68 | adjacent swaps undo any permutation, so scattering is a rearrangement |
| LeastSquares.GradientDescent | examples/least-squares/benchmark.py:19-34 | computes the iterate of k full gradient steps, never worse than zero coefficients |
| LeastSquares.StepDescends | examples/least-squares/benchmark.py:26-33 | one step lowers the squared residual by at least step times n times the squared gradient |
| LeastSquares.RunBound | examples/least-squares/benchmark.py:28-33 | over a whole run the guaranteed descents stay within the squared norm of the targets |
| LeastSquares.BestGradient | examples/least-squares/benchmark.py:28-33 | some iterate has a squared gradient at most the average the run allows |
| LeastSquares.VanishingGradientIsOptimal | examples/least-squares/benchmark.py:61-77 | zero gradient implies a global minimum |
| LeastSquares.MinimiserHasVanishingGradient | examples/least-squares/benchmark.py:61-77 | a global minimum has zero gradient |
| LeastSquares.EvaluatorCertifiesOptimality | examples/least-squares/benchmark.py:66-76 | the reported largest gradient entry is zero exactly at the minimisers |
| LeastSquares.CoordinateDescent | examples/least-squares/benchmark.py:37-50 | the incrementally kept residual equals the fresh one, so the array holds the sweeps defined with fresh residuals, never worse than zero coefficients |
| LeastSquares.CoordinateUpdateIsExact | examples/least-squares/benchmark.py:45-49 | one update lowers the squared residual by exactly norm times delta squared and zeroes its own gradient entry |
| LeastSquares.SweepRunIsExact | examples/least-squares/benchmark.py:43-49 | over any number of sweeps the sum of norm times delta squared is exactly what the squared residual has lost |
| LeastSquares.SweepRunDescends | examples/least-squares/benchmark.py:43-49 | no number of sweeps ends above the squared norm of the targets |
| LeastSquares.BestSweep | examples/least-squares/benchmark.py:43-49 | some sweep of a run lowers the squared residual by at most the average the run allows |
| LeastSquares.FixedSweepIsOptimal | examples/least-squares/benchmark.py:43-49 | a sweep leaves coefficients unchanged exactly when they are a global minimum |
| Matrices.FrobeniusBound | examples/least-squares/benchmark.py:26-27 | the squared Frobenius norm bounds the growth of X v |
| Matrices.Adjoint | examples/least-squares/benchmark.py:29-32 | column sums are the transpose of the row sums |
| Framing.LinesReassemble | src/protocol/framing.rs:52-91 | the lines, each with its newline, followed by the unread tail give back the stream |
| Framing.LinesAreUnique | src/protocol/framing.rs:52-91 | no other list of fitting lines reassembles the stream with that end |
| Framing.FrameReader.ReadLine | src/protocol/framing.rs:52-91 | returns the next line of the remaining stream within the inclusive 1 MiB limit, whatever the chunks, and consumes exactly it |
| Framing.FrameReader.ReadFrame | src/protocol/framing.rs:44-50 | clean end, the decoded line, or the failure of that line |
| Framing.FrameReader.ReadFrames | src/protocol/framing.rs:44-103 | repeated reading gives the values of the leading lines that decode, and the end that the rest of the stream explains |
| Framing.FramesMean | src/protocol/framing.rs:44-103 | a run has these values and this end exactly when the stream is lines that decode to them followed by nothing, a partial line, a mebibyte without newline, or a line with a byte order mark or that does not decode |
| Framing.CompareChunkings | src/protocol/framing.rs:52-91 | two ways of cutting one stream give the same frames and end |
| Framing.ResponseCorrelator.Accept | src/protocol/framing.rs:255-278 | answers by the pending id and clears it exactly on acceptance |
| Framing.FirstMatchIsAccepted | src/protocol/framing.rs:238-283 | over any run of responses exactly the first that names the request is accepted |
| Framing.ResponseCorrelator.AcceptAll | src/protocol/framing.rs:238-283 | repeated acceptance gives the answers of the whole list, and the request stays pending until a response names it |
| Framing.NothingPending | src/protocol/framing.rs:255-278 | with nothing pending every identified response is extra |
| Scheduling.DeriveBlockPriority | src/core/scheduling.rs:45-62 | the successive updates hash exactly the block's message |
| Scheduling.MessageInjective | src/core/scheduling.rs:45-62 | different blocks or seeds hash different messages |
| Scheduling.MessageLayout | src/core/scheduling.rs:46-62 | the 265 bytes hashed for a block field by field, with domain, seed, tag, spelled identities and counters at fixed places |
| Scheduling.KeyInjective | src/core/scheduling.rs:79-88 | equal sort keys belong to equal slots even when priorities collide |
| Scheduling.ScheduleSlots | src/core/scheduling.rs:72-91 | sequential order is the input order; a randomised one lists every index once, each slot before the next in dispatch order, equal slots in input order |
| Scheduling.ScheduleOrder | src/core/scheduling.rs:72-88 | in a randomised schedule block hashes ascend; equal hashes are decided by dataset, problem, repetition and measurement index in turn; inside one block round, slot priority and slot identity decide in turn |
| Scheduling.KeyMeans | src/core/scheduling.rs:79-88 | the sort key orders two slots exactly as dispatch compares them field by field |
| Scheduling.BigEndianOrder | src/core/scheduling.rs:56-59 | the big-endian bytes of a larger counter are lexicographically larger |
| Scheduling.InputOrderIsIrrelevant | src/core/scheduling.rs:64-91 | the randomised schedule depends only on the collection of slots |
| Scheduling.SelectionIsSubsequence | src/core/scheduling.rs:64-91 | scheduling a selection gives that part of the full schedule in the same order |
| Scheduling.BlocksAreContiguous | src/core/scheduling.rs:64-91 | a block occupies one contiguous run with nondecreasing observation rounds |
| MixedRadix.EveryChoiceOnce | src/core/planning.rs:1114-1139 | every choice of one value per axis has exactly one index |
| MixedRadix.DigitsAreMixedRadix | src/core/planning.rs:1114-1139 | each digit is the index over its stride, modulo the axis size |
| MixedRadix.StrideIsProduct | src/core/planning.rs:1039-1067 | the stride of a place is the product of the sizes after it, so that the last place varies fastest |
| Keys.ListingUnique | src/core/planning.rs:1088-1097 | the ascending listing of a key set is unique |
| AxisExpansion.ExpandAxes | src/core/planning.rs:1114-1139 | the number of combinations is the product of axis sizes and the k-th is the mixed-radix decoding of k |
| AxisExpansion.NthIsMixedRadix | src/core/planning.rs:1114-1139 | combination k assigns every axis its digit of k, the first name being most significant |
| AxisExpansion.EveryCombinationOnce | src/core/planning.rs:1114-1139 | every choice of values is the combination of exactly one index |
| AxisExpansion.CombinationUsesWinningAxes | src/core/planning.rs:1085-1112 | each name of a combination has a value of the declaration that wins |
| AxisExpansion.ExpandResolvedParameters | src/core/planning.rs:1077-1112 | all combinations resolved in order, or the first resolution failure |
| AxisExpansion.CollectedMeans | src/core/planning.rs:1099-1112 | collecting results gives all values in order, or the first failure |
| CandidateExpansion.UnrolledIsProduct | src/core/planning.rs:911-1070 | the unrolled candidates are exactly the choices of dataset, problem and implementation parameters |
| CandidateExpansion.UnrolledInOrder | src/core/planning.rs:1039-1067 | there are as many candidates as dataset, problem and implementation configurations multiplied, and index k holds the selection with the mixed-radix digits of k, the dataset most significant |
| CandidateExpansion.InsertAllMeans | src/core/planning.rs:1153-1184 | inserting a list succeeds exactly with distinct keys and otherwise names the first repeat and its earliest source |
| CandidateExpansion.Expansion.InsertCandidate | src/core/planning.rs:1153-1184 | one candidate is appended and its key recorded, or the earlier source of its key is reported |
| CandidateExpansion.Expansion.InsertSource | src/core/planning.rs:911-1070 | the nested loops insert the unrolled candidates in order |
| CandidateExpansion.ExpandExperiment | src/core/planning.rs:869-910 | either the recorded product over all cases, or the first unresolved member, or the first repeated key |
| CandidateExpansion.SucceedsWhenDistinct | src/core/planning.rs:869-1070 | the expansion succeeds exactly when all members resolve and all keys are distinct, and then seen holds exactly their keys |
| CandidateExpansion.SucceedsWithoutRepeats | src/core/planning.rs:1153-1184 | when all members resolve, the expansion succeeds exactly when no two candidates agree in dataset, problem, implementation and all encoded parameters; otherwise the first repeat is reported with the source it repeats |
| CandidateExpansion.DuplicatesMean | src/core/planning.rs:1159-1166 | under an injective encoding the duplicates of a candidate are the candidates that differ at most in source or environment |
| CandidateExpansion.ResolveMeans | src/core/planning.rs:921-1037 | expansions fail in the order problem, datasets, implementations, each list with its first failure, and success keeps every resolved list |
| ControlSchedules.Expand | src/core/profile.rs:673-735 | a schedule expands exactly when its count, prefix and values are admissible; control k holds the closed-form term in canonical form; otherwise the error names the count, the field, the first bad listed control, the missing generation or the first unsafe value |
| ControlSchedules.GeneratedMeans | src/core/profile.rs:729-735 | generated values begin at the start and go on by the step or the ratio |
| SlotPlanning.PlanSpecification | src/core/planning.rs:527-615 | repetitions times bound observation slots or an overflow error; attempts are the warm-ups followed by one per repetition, or one per slot when fresh, each with its derived priority |
| SlotPlanning.FreshSlotsAreAGrid | src/core/planning.rs:573-596 | every pair of repetition and schedule index has exactly one fresh slot |
| SlotPlanning.MeasuredBlocks | src/core/profile.rs:426-431 | a measured attempt owns the first slot of one block, and measurement_index maps exactly that block back to it |
| SlotPlanning.RolesAreDistinct | src/core/planning.rs:598-615 | no two planned attempts have the same role |
| SlotPlanning.PlanWithoutProfile | src/core/planning.rs:562-627 | after the warm-ups each repetition has one observation and one measured attempt for it |
| SlotPlanning.PlanWithBound | src/core/planning.rs:562-627 | a streaming or buffered plan has bound observations for each measured attempt, which stands for the first of them |
| SlotPlanning.PlanFresh | src/core/planning.rs:548-627 | a fresh plan goes through all controls in each repetition, with an attempt for each observation |
| AttemptPriorities.DeriveAttemptPriority | src/core/planning.rs:271-297 | the successive updates feed exactly the message of the role |
| AttemptPriorities.AttemptLayout | src/core/planning.rs:271-297 | domain, seed and role fields stand at fixed places in the message |
| AttemptPriorities.WarmupLayout | src/core/planning.rs:282-288 | a warm-up hashes its tag, the spelled specification and the big-endian index |
| AttemptPriorities.MeasuredLayout | src/core/planning.rs:289-293 | a measured attempt hashes its tag and the spelled observation slot |
| AttemptPriorities.AttemptMessageInjective | src/core/planning.rs:271-297 | equal messages come from equal seeds and equal roles, and those of warm-ups from one specification, so no warm-up hashes the message of a measured attempt |
| AttemptPriorities.AttemptsAreNotBlocks | src/core/planning.rs:271-297 | an attempt and a comparison block never hash one message, although they share the domain and the seed |
| AttemptPriorities.PlannedMessagesDiffer | src/core/planning.rs:597-627 | any two attempts of a plan hash different messages |
| CheckSchedules.NextAfterIsLeast | src/core/profile.rs:540-567 | next_after is the least safe included index above the previous one, and absent exactly when there is none, despite checked arithmetic |
| CheckSchedules.Enumerate | src/core/profile.rs:549-567 | iterating lists exactly the safe included indices in increasing order and stops |
| CheckSchedules.DecodeGeometric | src/core/profile.rs:450-518 | accepts exactly the declarations whose exact index list is increasing and safe, in at most 54 rounds, and otherwise names the fault: parameters, an unsafe term, overflow, or the list as a whole |
| CheckSchedules.ValidateMeans | src/core/profile.rs:522-538 | valid are the positive safe intervals from a safe start and the nonempty increasing lists of safe indices |
| CheckSchedules.IncludesMeans | src/core/profile.rs:540-547 | a periodic schedule includes its start plus any number of intervals, a listed one what it lists |
| CheckSchedules.ThresholdsMean | src/core/profile.rs:122-131 | valid thresholds end at the target and get strictly more demanding in their direction |
| CheckSchedules.ReachesMeans | src/core/profile.rs:163-169 | an at-most threshold is reached from below, an at-least one from above, both at equality |
| CheckSchedules.LateTermsAreUnsafe | src/core/profile.rs:481-515 | with a ratio of at least two every term from index 53 on is unsafe |
| CheckSchedules.ReachedThresholdsArePrefix | src/core/profile.rs:119-133 | for validated thresholds, reaching one implies reaching all before it |
| Searching.PartitionPointSplits | src/core/profile.rs:560-566 | the partition point separates the elements at most the key from the larger ones |
| Searching.BinarySearchFinds | src/core/profile.rs:545 | on an increasing list the search finds exactly its members |
| Timestamps.Timestamp | src/core/run_documents.rs:134-180 | the printed fields are valid, read back from the text in decimal, and recompute the same seconds and nanoseconds; it fails exactly before the epoch or from 253402300800 seconds on |
| Timestamps.FormatReads | src/core/run_documents.rs:168-177 | the text has thirty characters that read as the fields in decimal between the separators of RFC 3339 |
| Timestamps.YearAndDay | src/core/run_documents.rs:134-165 | the year loop finds the year and the day within it |
| Timestamps.MonthAndDay | src/core/run_documents.rs:148-166 | the month loop stays within the table and finds month and day |
| Timestamps.CivilIsUnique | src/core/run_documents.rs:134-180 | an instant has only one calendar reading |
| Timestamps.FieldOrderIsTimeOrder | src/core/run_documents.rs:134-180 | comparing the fields in turn compares the instants |
| Timestamps.TextOrderIsTimeOrder | src/core/run_documents.rs:167-178 | the byte order of the texts is the order of the instants |
| RecordIds.HexLoop | src/core/identity.rs:230-238 | the loop writes two lowercase digits for every byte |
| RecordIds.Parse | src/core/identity.rs:182-228 | accepts exactly the spellings of its kind and returns the digest that prints as the text |
| RecordIds.ReadBack | src/core/identity.rs:176-228 | a printed identity parses back under its own kind and fails under any other |
| RecordIds.SpellingsAreDisjoint | src/core/identity.rs:176-180 | distinct kinds or digests never share a spelling |
| RecordIds.InspectionAcceptsPrinted | src/core/inspection.rs:82-125 | inspection accepts a printed identity exactly when its kind is a lowercase word |
| RecordIds.PrintedIdsAreInspectable | src/core/identity.rs:421-458 | every declared kind prints identities that inspection accepts |
| RecordIds.InspectionMeans | src/core/inspection.rs:83-125 | accepted are exactly the run-store words, the spellings of any lowercase kind, and logical candidates behind the unconditional mark |
| Inspection.ReferencedIds | src/core/inspection.rs:128-145 | the identities among the strings of a record, each once, in byte order |
| Inspection.RefersIffPointed | src/core/inspection.rs:128-145 | an identity is collected exactly when some pointer into the record evaluates to it |
| Canonical.NormalizeNumberMeans | src/core/canonical.rs:255-304 | a number is accepted unless it is not finite or an unsafe integer, keeps what it denotes, and is fixed exactly when canonical |
| Canonical.NumberForms | src/core/canonical.rs:255-302 | safe integers stay, a binary64 safe integer becomes that integer, negative zero becomes zero, and any other finite value stays a float |
| Canonical.NumberFaults | src/core/canonical.rs:255-302 | unsafe integers are refused with the integer, infinities and NaN with the value |
| Canonical.NormalizeValue | src/core/canonical.rs:238-253 | accepts exactly the trees of the domain, returns their normal form, and otherwise reports the first violation in key order |
| Canonical.NormalIsCanonical | src/core/canonical.rs:238-304 | the normal form is canonical and means the same |
| Canonical.CanonicalIffFixed | src/core/canonical.rs:110-120 | canonical trees are exactly the fixed points of normalisation |
| Canonical.NormalFormsDecideMeaning | src/core/canonical.rs:238-304 | two accepted trees have one normal form exactly when they mean the same |
| Documents.Visit | src/core/canonical.rs:141-236 | accepts exactly documents without repeated keys whose tree is in the domain, returns its normal form, and otherwise the first violation in document order |
| Documents.VisitUnique | src/protocol/framing.rs:151-228 | accepts exactly documents without repeated keys and with finite numbers and returns their tree |
| Documents.RejectedIsNotAccepted | src/protocol/framing.rs:210-227 | a reported violation is really there |
| Documents.BothEntries | src/core/canonical.rs:40-82 | the direct reader and the tree normaliser accept the same documents with the same canonical result |
| RepeatedKeys.RejectionIsUnique | src/core/canonical.rs:208-236 | a document has one violation that a reader reports |
| RepeatedKeys.RefusalsDiffer | src/protocol/framing.rs:210-227 | the frame reader accepts exactly the text documents without repeated keys, the canonical one those whose numbers are in the domain besides |
| RepeatedKeys.ReportsAgree | src/core/canonical.rs:220-236 | on a text document with repeated keys the frame reader reports the repeat met first before values, and both readers name the same violation exactly when the numbers before the canonical reader's repeat are in the domain and both repeats have one key |
| RepeatedKeys.ReasonsDiffer | src/protocol/framing.rs:210-227 | a repeated key with an unsafe integer, or with another repeat inside its value, is refused for different reasons |
| Pointers.UnescapeEscape | src/core/yaml.rs:66-68 | decoding undoes escaping for every key, and the escape is a reference token |
| Pointers.EscapeUnescape | src/core/parameter_source.rs:138 | every reference token is the escape of what it decodes to |
| Pointers.EscapeSequences | src/core/yaml.rs:66-68 | a slash is written `~1` and a tilde `~0`, every other character as it is |
| Pointers.ParsePrint | src/core/export.rs:213-225 | printing a list of keys and parsing it gives the list back |
| Pointers.IndexShow | src/core/parameter_source.rs:158-164 | an index written into a pointer is found again and needs no escaping |
| MetricRows.RowList.Visit | src/core/export.rs:214-224 | appends one row for every leaf below the pointer |
| MetricRows.MetricValues | src/core/export.rs:213-230 | the rows of a nonempty object are its leaves; anything else has none |
| MetricRows.RowsAreLossless | src/core/export.rs:212-230 | every pointer evaluates to its value, the key lists come in order with none a prefix of another, and the object is rebuilt from its rows |
| MetricRows.RowsIdentify | src/core/export.rs:212-230 | objects with the same rows are equal |
| CsvTables.CellReadsBack | src/core/export.rs:232-240 | a cell is read back unchanged by the grammar of RFC 4180 |
| CsvTables.TableReadsBack | src/runtime/export.rs:679-711 | any table of nonempty rows survives the export |
| Parameters.MergeObjects | src/core/parameters.rs:321-332 | the in-place merge computes the recursive merge |
| Parameters.Provenance | src/core/parameters.rs:321-332 | the merged value at every path is the supplied one, the merge of both, the default, or absent, with the exact condition for each |
| Parameters.AttributionIsSound | src/core/parameter_source.rs:140-173 | supplied-then-default attribution of a merged pointer is right |
| Parameters.MergeIsIdempotent | src/core/parameters.rs:321-332 | merging the same parameters again changes nothing |
| Parameters.MergeIsCanonical | src/core/parameters.rs:256-282 | merging canonical trees gives a canonical tree |
| Parameters.ResolveParameters | src/core/parameters.rs:256-282 | the error for each ill-formed root, otherwise the validated merge; the canonical-domain error cannot occur for canonical inputs |
| SourceMaps.Span | src/core/yaml.rs:31-39 | the loop finds the nearest recorded pointer above |
| SourceMaps.NearestIsLongest | src/core/yaml.rs:31-39 | that is the longest recorded ancestor, absent exactly when none is recorded |
| SourceMaps.SubtreeLookup | src/core/yaml.rs:48-63 | a subtree holds exactly the pointers below, made relative |
| SourceMaps.SubtreeSpan | src/core/yaml.rs:31-63 | the whole map finds what the subtree finds, or else what it finds for the subtree's root |
| SourceMaps.RecordedSubtreeSpan | src/core/yaml.rs:31-63 | when the root is recorded both lookups agree |
| SourceMaps.SubtreeOfSubtree | src/core/yaml.rs:48-63 | a subtree of a subtree is a subtree |
| SourceLines.SourceLines.constructor | src/core/yaml.rs:421-431 | one pass records exactly the line starts of the text |
| SourceLines.SourceLines.Position | src/core/yaml.rs:433-437 | line and column equal rescanning the text and recover the clamped offset |
| SourceLines.SourceLines.Span | src/core/yaml.rs:439-461 | the span of a location, saturating, with its end not before its start |
| SourceLines.RescanOnLine | src/core/yaml.rs:421-437 | an offset between two line starts is on that line, counted from its start |
| SourceLines.RescanIsMonotone | src/core/yaml.rs:433-437 | later offsets have later positions |
| SourceNodes.Collector.CollectSpans | src/core/yaml.rs:144-172 | the traversal adds exactly the locations of the nodes below a pointer, and of their keys |
| SourceNodes.CollectDocument | src/core/yaml.rs:104-106 | the source map of a document records exactly the pointers that evaluate in it, each with the location of its own node, and exactly the members of its mappings, each with the location of its own key |
| SourceNodes.LocatedIffEvaluates | src/core/yaml.rs:195-206 | a path has a node exactly when it evaluates in the JSON form of the document |
| SourceNodes.KeyOfMember | src/core/yaml.rs:156-164 | a path has a located key exactly when its parent evaluates to an object that holds its last token |
| SourceNodes.NodeBelow | src/core/yaml.rs:144-172 | what lies below a node has the same locations seen from the node and from the document |
| ParameterSources.Locate | src/core/parameter_source.rs:115-186 | the text manipulation follows the keys of the reported pointer |
| ParameterSources.ParsedDocumentRecords | src/core/parameter_source.rs:37-113 | an origin in a parsed document records all of its authored part, or nothing where there is none |
| ParameterSources.NormalWalk | src/core/manifest.rs:1730-1760 | following a path in a normalised document gives the normal form of what the path gives in the authored one |
| ParameterSources.WinnerHasTheAxis | src/core/parameter_source.rs:143-151 | the origin chosen is the one whose axis wins the overlay |
| ParameterSources.LocatedIsAuthored | src/core/parameter_source.rs:140-166 | for any combination, any supplied path and any kind of parameter declaration, the located span is recorded, and the value authored there has the value at that path as its normal form and means the same |
| ParameterSources.LocatedDefault | src/core/parameter_source.rs:167-174 | a failing value that was not supplied is the default's, and its recorded span is found among declared parameters or in the defaults object, where the authored value normalises to the one that failed |
| ParameterSources.LocatedMissing | src/core/parameter_source.rs:175-185 | a value neither supplied nor defaulted is located at the key of its declared field, for an undeclared name at the declared parameters, and without them at the parameter schema |
| ParameterSources.LocatedWhole | src/core/parameter_source.rs:126-135 | a failure of the whole object is located at the experiment's parameters, or else at the deepest authored node around them |
| ParameterSources.LocatedWholeUnrecorded | src/core/parameter_source.rs:130-134 | the declaration is the answer exactly when nothing at or above the experiment's parameters is recorded |
| ParameterSources.AxisForms | src/core/manifest.rs:1730-1760 | an axis is read from a bare scalar, from `{value: v}` or from `{grid: [...]}` with a nonempty list, and from nothing else |
| InlineContracts.SubtreeIsMapOf | src/core/yaml.rs:48-63 | the part of a node's map below an inner node is that node's own map, apart from its own key |
| InlineContracts.InlineContract | src/core/manifest.rs:66-80 | an inline contract gets exactly the map of the contract member, or of the problem where there is none |
| InlineContracts.LocatedAlike | src/core/parameter_source.rs:115-186 | origins that record every pointer alike give every attribution alike |
| InlineContracts.InlineLocatesAlike | src/core/parameter_source.rs:46-53 | every attribution through an inline contract's own map is the one through the manifest's map at the contract's pointer |
| SchemaUris.SchemaResources.Normalize | src/core/schema.rs:412-472 | succeeds exactly when every reached URI resolves, rewrites the document as specified and adds exactly the URIs it mentions; a failure is the message of the first `$id` or reference reached that does not resolve |
| SchemaUris.LiteralsDoNotMatter | src/core/schema.rs:337-341 | documents that differ only in literal data resolve alike and mention the same URIs |
| SchemaUris.NormalizedIsFixed | src/core/schema.rs:412-472 | normalising a normalised document changes neither it nor its URIs, when resolution fixes its own outputs |
| SchemaPositions.CollectResources | src/core/schema.rs:354-372 | the collected references are exactly the resolutions of the references reached, each cut at its first `#`; the identifiers are exactly the document's URI and the resolved `$id` strings |
| SchemaPositions.ReferencesMean | src/core/schema.rs:433-443 | a URI is mentioned as a reference exactly when it is the cut resolution of a `$ref` or `$dynamicRef` at some place reached |
| SchemaPositions.IdentifiersMean | src/core/schema.rs:425-432 | a URI is mentioned as an identifier exactly when an `$id` reached resolves to it |
| SchemaPositions.NormalizedAt | src/core/schema.rs:412-472 | at every place of the document the normalised one holds the normal form of the schema there, under the base of that place |
| SchemaPositions.NormalizedObject | src/core/schema.rs:425-443 | a schema object keeps its keys; its `$id` and its references become the resolved ones, except references that start with `#` |
| SchemaPositions.KeywordsLead | src/core/schema.rs:444-471 | which keywords lead to subschemas, and whether they hold one, a list or named ones |
| SchemaPaths.CheckPath | src/core/schema.rs:374-410 | refuses absolute paths and paths whose counted depth falls below zero |
| SchemaPaths.AcceptedStaysInside | src/core/schema.rs:374-410 | an accepted reference never climbs above the repository root, and with named segments before the last only climbing ones are refused |
| SchemaPaths.RefusedRightly | src/core/schema.rs:374-410 | at the segment where a path is refused it really climbs out exactly when neither the base directory nor the path so far has an empty segment |
| SchemaPaths.ClimbsAreJudgedRightly | src/core/schema.rs:374-410 | every number of further climbs from an accepted path is judged rightly exactly when neither the base directory nor the path has an empty segment |
| SchemaPaths.CountMissesEmpties | src/core/schema.rs:374-410 | the counted depth falls short of the real one by the number of empty segments |
| SchemaPaths.RefusedThoughInside | src/core/schema.rs:374-410 | a reference that stays inside and is refused |
| SchemaPaths.InsideIsRelative | src/core/schema.rs:374-410 | a reference that stays inside resolves relative to its directory, wherever that is |

## Left out

- Floating-point rounding in the solvers and in control schedules: values are reals, and the finiteness branches of control schedules cannot be taken.
- SHA-256, RFC 8785 serialisation, serde, jsonschema, fluent_uri and the YAML decoder: digests, encodings, validation and URI resolution are parameters; `Documents` starts from the events a deserialiser reports.
- I/O errors of the reader and the memory limits of `try_reserve`.
- In-place rewriting of JSON trees (`merge_objects`, `normalize_schema_uris`): trees are values, so aliasing is not captured; the sets, lists and tables they fill are class fields.
- Identities of planned records: a record stands for its own identity, which its hash is taken to preserve.
- `expand_experiment` receives the resolved choices of every case; how definitions are looked up is not modelled.
- `sort_by_cached_key` is modelled as an insertion sort by key.
- The YAML scalar and tag rules (`integer_spelling`, `numeric_string_fallback`).
- Associativity of the parameter merge: it does not hold when a scalar stands between two objects.
- The manifest, run store, worker processes, archives, caches, traces and command-line rendering.
- Generation of random problem data and the remaining evaluator metrics.
- CandidateExpansion.ExpandExperiment: does not model definition lookup or the encoding errors of the candidate key, which come from the manifest and the serialiser.
- ControlSchedules.Expand: does not model binary64 rounding or the non-finite branch, because its values are reals.
- SlotPlanning.PlanSpecification: does not model the identities and seed of the specification record, which only name it.
- SchemaUris.NormalizedIsFixed: takes stability of resolution as a hypothesis, because the URI library is a parameter.
