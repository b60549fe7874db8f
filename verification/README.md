# EstimNetDirected core in Dafny

This project models the core of EstimNetDirected. EstimNetDirected estimates
exponential random graph models (ERGMs) by the Equilibrium Expectation (EE)
method. The model covers five pieces, each as one module:

- **`Digraph`** (`digraph.dfy`): the directed graph store of `src/digraph.h`.
  - The store has nodes `0..n-1`, forward and reversed arc lists, out- and in-degree counters, the arc count, and three n x n two-path count matrices (mixed, in and out).
  - The store is concrete. The invariant `Valid` ties it to an abstract arc set `Arcs(g)`.
  - `InsertArc` and `RemoveArc` update every view incrementally. Removal takes the arc out of a list by swap-remove.
  - Their contracts say which arc set results and that `Valid` is kept.
- **`IfdSampler`** (`ifd_sampler.dfy`): the Improved Fixed Density sampler of `src/ifdSampler.c`.
  - The sampler is an explicit-state transition system. One proposal is `Step`, a run of proposals is `Run`, and `IfdSampler` is the whole call, including the auxiliary-parameter update.
  - Randomness becomes an oracle: each `Proposal` carries the candidate pair and the outcome of `urand() < exp(total)`.
  - The rejection-sampling `do ... while` loops become the predicate `Legal`, which is their exit condition.
  - The file's possible-arc arithmetic (`arcCorrection`) is modelled separately, with `log` as a parameter.
- **`EquilibriumExpectation`** (`ee.dfy`): from `src/equilibriumExpectation.c`.
  - The parameter updates of Algorithm S and Algorithm EE, under both the default rule and the Borisenko rule.
  - The accumulation and rescaling of D0.
  - The degeneracy gate in `ee_estimate`.
  - The option checks in `do_estimation`.
  - Algorithm S is also shown driving the IFD sampler model with moves switched off.
- **`ChangeStatsUndirected`** (`change_stats_undirected.dfy`): `changeEdge`, `changeAltStars`, `changeAltTwoPaths`, `changeAltKTriangles` and `changeActivity` from `src/changeStatisticsUndirected.c`.
  - Each is tied to a reference statistic, or to a sum over a node set that does not depend on list order.
- **`PajekConvert`** (`pajek.dfy`): `convert_estimnetdirected_to_pajek_format` and `flatten` from `scripts/extractcEERGM2subgraphs.py`.
  - Python's raising of an exception is the `Raised` outcome.

Two helper modules support these. `Numeric` (`numeric.dfy`) holds options, C double division with its infinities and NaN, powers, vector sums and 32-bit wrap-around. `Text` (`text.dfy`) holds the whitespace of Python 2 byte strings (C's `isspace`), `rstrip`, `strip`, `split`, `join`, `lower`, `int()` and `str()`.

Reals are exact. The floating-point results the code depends on are modelled by `Float`, which is `Finite`, `PosInf`, `NegInf` or `NaN`:
- `Dmean = sampler_m / D0`, which is infinite or NaN when D0 is 0;
- the acceptance rate `accepted / sampler_m`;
- the overload-warning quotient.

Three behaviours of the code are easy to misread. The model follows the code in each:
- The default Algorithm EE step has the sign of `-dzA` (`(dzA < 0 ? 1 : -1)` at `src/equilibriumExpectation.c:373`). A parameter whose accumulated statistics ran above the observed values is lowered.
- The degeneracy gate tests `isinf` only (`src/equilibriumExpectation.c:592`). A NaN `Dmean` passes the gate. NaN arises when `sampler_m` is 0 and D0 is 0.
- `do_estimation` ignores the code `ee_estimate` returns and returns 0 after estimating (`src/equilibriumExpectation.c:817-849`). A degenerate model is therefore not reported through its return value.

## Model

| member | source | states |
|---|---|---|
| Digraph.EncodeBinary | src/digraph.h:43-45 | a binary value is stored as 0, 1 or BIN_NA; missing maps to BIN_NA and true to 1 |
| Digraph.DecodeBinary | src/digraph.h:43-45 | reading a stored binary value back and storing it again gives the same number (round trip) |
| Digraph.EncodeCategorical | src/digraph.h:48-50 | a category is stored as itself, missing as CAT_NA |
| Digraph.DecodeCategorical | src/digraph.h:48-50 | decode then encode is the identity on valid categorical values |
| Digraph.SentinelsOutsideValueRanges | src/digraph.h:21-22 | the -1 sentinels decode as missing, and every other valid value decodes as present, so missing is never confused with 0 |
| Digraph.ArcsMembership | src/digraph.h:69 | isArc(i, j) holds exactly when (i, j) is in the arc set the lists describe |
| Digraph.Empty | src/digraph.h:72 | a freshly allocated graph on n nodes satisfies the store invariant and has no arcs |
| Digraph.MixInsertAt | src/digraph.h:36 | adding arc i->j raises the mixed two-path count of (a, b) by exactly the number of new paths a->i->j=b or a=i->j->b |
| Digraph.InInsertAt | src/digraph.h:37 | the same for in-two-paths a->v<-b |
| Digraph.OutInsertAt | src/digraph.h:38 | the same for out-two-paths a<-v->b |
| Digraph.TwoPathCountsAfterInsert | src/digraph.h:76 | the incremental matrix update for an added arc gives the counts of the new arc set, for all three kinds and all pairs |
| Digraph.DeltasIgnoreToggledArc | src/digraph.h:76 | the update deltas do not look at the toggled arc, so the same deltas serve insertion and removal |
| Digraph.SwapRemove | src/digraph.h:71 | swap-removing x from a duplicate-free list leaves exactly the other elements, still duplicate-free, one shorter |
| Digraph.InsertedArcs | src/digraph.h:70 | after appending i->j to the lists the arc set is the old one plus (i, j), and no other arc changes |
| Digraph.InsertedLists | src/digraph.h:29-34 | after insertion the lists stay in range and duplicate-free, the degrees equal the list lengths, and the forward and reversed lists mirror each other |
| Digraph.InsertedCounted | src/digraph.h:28-34 | after insertion num_arcs equals the number of arcs, the sum of out-degrees and the sum of in-degrees |
| Digraph.InsertedTwoPaths | src/digraph.h:36-38 | after insertion every two-path matrix entry counts the intermediate nodes of its kind of path |
| Digraph.InsertArc | src/digraph.h:70 | insertArc keeps the store invariant and makes isArc(i, j) true; every other arc's membership is unchanged and num_arcs grows by one |
| Digraph.RemovedArcs | src/digraph.h:71 | after swap-removal from both lists the arc set is the old one minus (i, j) |
| Digraph.RemovedLists | src/digraph.h:29-34 | after removal the lists stay in range and duplicate-free, the degrees equal the list lengths, and the lists stay mirrored |
| Digraph.RemovedCounted | src/digraph.h:28-34 | after removal num_arcs equals the arc count and both degree sums |
| Digraph.RemovedTwoPaths | src/digraph.h:76 | subtracting the deltas of a present arc gives the two-path counts of the arc set without it |
| Digraph.RemoveArc | src/digraph.h:71 | removeArc keeps the store invariant and makes isArc(i, j) false; every other arc's membership is unchanged and num_arcs falls by one |
| Digraph.DegreesAreDerived | src/digraph.h:29-34 | every degree counter equals the number of arcs at that node in the arc set |
| Digraph.SameArcsSameViews | src/digraph.h:9-13 | two valid stores with the same arc set have equal counters, degrees and matrices, and their lists hold the same nodes |
| Digraph.Reinstated | src/ifdSampler.c:398-406 | removing a present arc and inserting it again restores the arc set |
| Digraph.RemoveThenReinsertRestores | src/ifdSampler.c:396-407 | an undone tentative delete restores num_arcs, both degree vectors and all three matrices exactly |
| IfdSampler.Start | src/ifdSampler.c:227-229 | on entry the counters and both accumulators are zero, and the flag carries over from the previous call |
| IfdSampler.Step | src/ifdSampler.c:333-407 | One proposal: keeps the store valid; counts one more move, a delete exactly when the move is a delete; counts an acceptance exactly when accepted; with an accepted, committed move, removes or adds exactly (i, j); otherwise the arc set is unchanged; leaves the flag flipped exactly when accepted. |
| IfdSampler.StepAccumulates | src/ifdSampler.c:387-395 | a rejected proposal leaves both accumulators alone; an accepted delete adds its statistics to delChangeStats only, and an accepted add to addChangeStats only |
| IfdSampler.CitationForcesAdd | src/ifdSampler.c:276-279 | Under citation with no last-term arc, a pending delete is made as an add. The flag ends up set exactly when that add is accepted. |
| IfdSampler.Moved | src/ifdSampler.c:362-386 | the store after a proposal keeps the invariant; its arc set is unchanged unless committed, and otherwise loses or gains exactly (i, j) |
| IfdSampler.Run | src/ifdSampler.c:231-408 | a run of m legal proposals makes Ndel + Nadd grow by m and accepted by at most m; with performMove off the arc set is unchanged |
| IfdSampler.LegalAllows | src/ifdSampler.c:246-325 | a candidate the selection loops can return satisfies the regime's toggle rules |
| IfdSampler.StepArcs | src/ifdSampler.c:333-407 | the arc set after a legal proposal is unchanged, or the legal arc removed, or the legal arc added |
| IfdSampler.ToggleKeepsFixed | src/ifdSampler.c:246-304 | ties the regime fixes are never toggled: outer-wave ties under snowball, ties not sent from the last term under citation |
| IfdSampler.ToggleKeepsIrreflexive | src/ifdSampler.c:318-324 | without allowLoops an add never creates a loop |
| IfdSampler.ToggleKeepsNoReciprocated | src/ifdSampler.c:318-325 | with forbidReciprocity an add never creates a reciprocated pair |
| IfdSampler.ToggleKeepsWavesAdjacent | src/ifdSampler.c:264-271 | snowball adds join nodes at most one wave apart, so ties stay between the same or adjacent waves |
| IfdSampler.ToggleKeepsWaveLinks | src/ifdSampler.c:246-255 | a snowball delete never removes a node's last tie to its preceding wave |
| IfdSampler.StepKeepsConstraints | src/ifdSampler.c:231-327 | one legal proposal keeps the fixed ties and every structural rule the regime imposes |
| IfdSampler.RunKeepsConstraints | src/ifdSampler.c:231-408 | a whole run of legal proposals keeps the fixed ties and every structural rule the regime imposes |
| IfdSampler.StepRestoresStore | src/ifdSampler.c:374-407 | a rejected proposal, or any proposal with performMove off, restores the arc set, num_arcs, both degree vectors and all three matrices |
| IfdSampler.AuxStep | src/ifdSampler.c:411 | the step K(Ndel-Nadd)^2/(Ndel+Nadd)^2 lies in [0, K] for K >= 0, is 0 when Ndel = Nadd, and is positive when K > 0 and they differ |
| IfdSampler.UpdateAux | src/ifdSampler.c:411-418 | the auxiliary parameter falls (by at most K) when Ndel > Nadd, rises (by at most K) when Ndel < Nadd, and is unchanged when they are equal |
| IfdSampler.AuxStepAsWritten | src/ifdSampler.c:411 | the quotient as written is finite exactly when the 32-bit product (Ndel+Nadd)*(Ndel+Nadd) is not zero |
| IfdSampler.AuxAsWrittenAgreesBelowOverflow | src/ifdSampler.c:411 | up to 46340 proposals the update as written equals the exact update |
| IfdSampler.AuxAsWrittenRisesWhenDeletesDominate | src/ifdSampler.c:411-418 | for Ndel = 30000, Nadd = 20000 and K = 1, the exact update lowers the parameter but the update as written raises it |
| IfdSampler.Warns | src/ifdSampler.c:420-424 | the warning fires exactly when there was a proposal and abs(Ndel-Nadd) > 0.8 (Ndel+Nadd) |
| IfdSampler.IfdSampler | src/ifdSampler.c:195-430 | After a call of m proposals: dzArc = Ndel - Nadd lies in [-m, m]; the acceptance rate is finite exactly when m > 0, and then lies in [0, 1]; with m = 0 the rate is NaN and the auxiliary parameter is unchanged; the parameter moves against dzArc by at most K; with performMove off the arc set is unchanged; the warning fires exactly when abs(dzArc) > 0.8 m; Ndel + Nadd = m and dzArc = Ndel - Nadd; up to 46340 proposals the auxiliary parameter equals what the C expression at line 411 computes. |
| IfdSampler.MaxTermSenderDyads | src/ifdSampler.c:100 | the corrected count: M(N-1)/2 with an exact product and truncating division, the largest r with 2r <= M(N-1) |
| IfdSampler.MaxTermSenderDyadsAsWritten | src/ifdSampler.c:100 | the count as written: the largest r with 2r at most M(N-1) reduced modulo 2^32 |
| IfdSampler.MaxTermDyadsAgreeBelowOverflow | src/ifdSampler.c:100 | while M(N-1) < 2^32 the count as written equals the exact count |
| IfdSampler.MaxTermDyadsAsWrittenUndercount | src/ifdSampler.c:100 | with M = N = 70000 the count as written is 302481352 against the exact 2449965000, so 10^9 arcs exceed the former and fit the latter |
| IfdSampler.ArcCorrectionArgument | src/ifdSampler.c:91-128 | the argument of the log is non-negative exactly when the arcs present do not exceed the possible arcs of the regime in force |
| IfdSampler.CountWithinPossible | src/ifdSampler.c:106-120 | An arc set within the n x n pairs that obeys the loop and reciprocity rules has at most the possible count of arcs. That count is n(n-1), or n^2 with loops. With reciprocity forbidden it is half the non-loop pairs, plus n when loops are allowed. |
| IfdSampler.ArcCountWithinPossible | src/ifdSampler.c:106-120 | a valid graph that obeys the loop and reciprocity rules has no more arcs than the possible count |
| IfdSampler.RunStaysWithinPossibleArcs | src/ifdSampler.c:106-127 | after any run of legal proposals the unconstrained argument of the log is still non-negative |
| EquilibriumExpectation.SStep | src/equilibriumExpectation.c:168-178 | the S step is 0 when add+del is 0 or add = del; for ACA > 0 it is positive exactly when del > add; it is at most ACA in size for non-negative statistics |
| EquilibriumExpectation.EEStep | src/equilibriumExpectation.c:372-373 | the default EE step is 0 when dzA is 0; for D0, ACA > 0 it is positive exactly when dzA < 0 |
| EquilibriumExpectation.BorisenkoStep | src/equilibriumExpectation.c:368-370 | the Borisenko step has size learningRate max(abs(theta), minTheta); for positive learningRate and minTheta it is never 0 and is positive exactly when dzA < 0 |
| EquilibriumExpectation.SAndEEAgree | src/equilibriumExpectation.c:364-373 | From dzA = 0, the S step and the default EE step move a parameter the same way. S uses del - add and EE uses add - del, with opposite sign conventions. |
| EquilibriumExpectation.RescaleArgument | src/equilibriumExpectation.c:398-405 | the argument of sqrt times sd equals compC max(abs(mean), 0.1), and it is positive when compC is |
| EquilibriumExpectation.RescaleD0 | src/equilibriumExpectation.c:398-406 | D0 is unchanged when sd <= 1e-10; otherwise a positive (or non-negative) D0 stays positive (or non-negative) when compC > 0 and sqrt maps positives to positives |
| EquilibriumExpectation.RescaleUsesFlooredMagnitude | src/equilibriumExpectation.c:398-399 | the rescaling depends on the mean only through its magnitude, floored at 0.1 |
| EquilibriumExpectation.SIteration | src/equilibriumExpectation.c:167-181 | one S iteration never lowers D0, leaves it unchanged exactly when del = add, and leaves theta unchanged when add+del is 0 |
| EquilibriumExpectation.SLoop | src/equilibriumExpectation.c:124-183 | from D0 = 0, D0 stays non-negative and is 0 exactly when every call had del = add for that parameter |
| EquilibriumExpectation.SD0Grows | src/equilibriumExpectation.c:174 | D0 after any prefix of the calls is at most D0 after all of them |
| EquilibriumExpectation.AlgorithmS | src/equilibriumExpectation.c:132-185 | Theta starts at 0. No Dmean entry is -inf. A Dmean entry is: +inf exactly when sampler_m > 0 and every call was balanced for that parameter; NaN exactly when sampler_m = 0 and every call was balanced; positive otherwise when sampler_m > 0. |
| EquilibriumExpectation.Gate | src/equilibriumExpectation.c:591-597 | the gate is 1 exactly when some Dmean entry is infinite, and 0 otherwise |
| EquilibriumExpectation.GateMeaning | src/equilibriumExpectation.c:590-599 | after Algorithm S the gate fires exactly when sampler_m > 0 and some parameter was balanced in every call; with sampler_m = 0 it never fires |
| EquilibriumExpectation.EEIteration | src/equilibriumExpectation.c:364-381 | dzA takes in add - del. Each parameter then moves: under the default rule, not at all when dzA is 0, and up exactly when dzA < 0 (for D0, ACA > 0); under Borisenko, up exactly when dzA < 0. |
| EquilibriumExpectation.EEInner | src/equilibriumExpectation.c:309-387 | the inner loop leaves D0 alone, records theta after each iteration, and adds the running total of add-del to dzA |
| EquilibriumExpectation.EEOuter | src/equilibriumExpectation.c:308-408 | dzA accumulates across the inner loop. D0 is untouched under Borisenko. Under the default rule: D0 is unchanged wherever the trajectory's sd is at most 1e-10; D0 keeps its sign when compC > 0. |
| EquilibriumExpectation.EELoop | src/equilibriumExpectation.c:308-411 | dzA is never reset across outer iterations; D0 is untouched under Borisenko and keeps its sign under the default rule |
| EquilibriumExpectation.AlgorithmEE | src/equilibriumExpectation.c:282-411 | with dzA zeroed once at the start, its final value is the total add-del over all calls; a positive D0 stays positive under the default rule |
| EquilibriumExpectation.BorisenkoInnerIgnoresD0 | src/equilibriumExpectation.c:368-370 | under the Borisenko rule the inner trajectory, theta and dzA do not depend on D0 |
| EquilibriumExpectation.BorisenkoLoopIgnoresD0 | src/equilibriumExpectation.c:388 | under the Borisenko rule the whole loop's theta and dzA do not depend on D0 |
| EquilibriumExpectation.BorisenkoIgnoresD0 | src/equilibriumExpectation.c:581-582 | the Borisenko estimates do not depend on the D0 handed over from Algorithm S |
| EquilibriumExpectation.EeEstimate | src/equilibriumExpectation.c:561-620 | ee_estimate returns 1 exactly when sampler_m > 0 and some parameter was balanced in every Algorithm S call, that is when its Dmean is infinite. Algorithm EE then does not run. Otherwise it returns 0, and: the NaN start arises exactly under the default rule with sampler_m = 0 and a balanced parameter; Algorithm EE's final dzA is the total add - del over its calls; under the default rule with sampler_m > 0 and compC > 0, every final D0 is positive. |
| EquilibriumExpectation.SamplerCalls | src/equilibriumExpectation.c:134-150 | successive sampler calls keep the store valid, give one outcome per call of the right width, and leave the arc set unchanged when moves are off |
| EquilibriumExpectation.AlgorithmSOverIfd | src/equilibriumExpectation.c:129-185 | Algorithm S over the IFD sampler: calls it with moves off, so the arc set is unchanged; starts theta at 0; gates exactly when sampler_m > 0 and some parameter was balanced in every call. |
| EquilibriumExpectation.ArcParamIndex | src/equilibriumExpectation.c:737-746 | the index found is the first structural parameter named Arc ignoring case; none is found exactly when no name matches |
| EquilibriumExpectation.DoEstimation | src/equilibriumExpectation.c:655-850 | The result is 0 exactly when every check passes, and otherwise -1 with nothing estimated. It is -1 in particular: when the IFD sampler is combined with an Arc parameter; when conditional estimation has no zone file; when conditional estimation has max_zone < 1. When it is 0, the estimate is passed through whatever ee_estimate returned. |
| EquilibriumExpectation.RefusalOrder | src/equilibriumExpectation.c:655-798 | an earlier failed check masks later ones: an unreadable arc list is always the reason reported, and no refusal occurs exactly when every check passes |
| ChangeStatsUndirected.AddEdge | src/changeStatisticsUndirected.c:7-10 | adding edge i -- j keeps the undirected store valid, raises both degrees by one and adds exactly that edge in both directions |
| ChangeStatsUndirected.EdgeChange | src/changeStatisticsUndirected.c:82-87 | changeEdge is half the growth of the degree sum when an edge is added, that is the growth of the edge count |
| ChangeStatsUndirected.ChangeAltStars | src/changeStatisticsUndirected.c:92-99 | changeAltStars lies in [0, 2 lambda) and is 0 when both degrees are 0 |
| ChangeStatsUndirected.AltStarsChange | src/changeStatisticsUndirected.c:92-99 | changeAltStars is the growth of the alternating k-star statistic when the edge is added, and its negation when it is deleted again |
| ChangeStatsUndirected.ChangeAltTwoPaths | src/changeStatisticsUndirected.c:105-130 | changeAltTwoPaths is 0 when i = j. Otherwise: it lies between 0 and deg(i) + deg(j); it is positive exactly when i or j has a neighbour other than i and j. |
| ChangeStatsUndirected.AltTwoPathsFacts | src/changeStatisticsUndirected.c:116-121 | the loop over one list is between 0 and that degree, and positive exactly when the node has a neighbour other than i and j |
| ChangeStatsUndirected.AltTwoPathsOverNeighbours | src/changeStatisticsUndirected.c:116-127 | the two loops equal sums over the neighbour sets, so the result does not depend on list order |
| ChangeStatsUndirected.AltTwoPathsDependsOnEdgesOnly | src/changeStatisticsUndirected.c:105-130 | two stores holding the same edges give the same changeAltTwoPaths |
| ChangeStatsUndirected.AltKTrianglesFrom | src/changeStatisticsUndirected.c:152-161 | with a the larger-degree end, the statistic is non-negative and positive exactly when a and b have a common neighbour |
| ChangeStatsUndirected.ChangeAltKTriangles | src/changeStatisticsUndirected.c:136-162 | changeAltKTriangles is 0 when i = j; otherwise it is non-negative and positive exactly when the two-path count of i and j is positive |
| ChangeStatsUndirected.AltKTrianglesOverCommon | src/changeStatisticsUndirected.c:152-160 | the loop plus the closing term equals a sum over the common neighbours of a and b, so list order is irrelevant |
| ChangeStatsUndirected.AltKTrianglesSymmetric | src/changeStatisticsUndirected.c:146-150 | the degree swap only picks which list to scan: changeAltKTriangles(i, j) = changeAltKTriangles(j, i) |
| ChangeStatsUndirected.ChangeActivity | src/changeStatisticsUndirected.c:171-179 | For valid binary values the result is 0, 1 or 2. It is 0 exactly when neither end has the attribute set, and 2 exactly when both do. A missing value counts as 0. |
| ChangeStatsUndirected.ActivityChange | src/changeStatisticsUndirected.c:171-177 | changeActivity is the growth of the activity statistic when edge i -- j is added, and does not depend on isDelete |
| PajekConvert.Flatten | scripts/extractcEERGM2subgraphs.py:149-153 | the flattened list's length is the sum of the sublist lengths |
| PajekConvert.FlattenIndex | scripts/extractcEERGM2subgraphs.py:153 | element k of sublist i sits at the sublist's offset plus k, so order is preserved |
| PajekConvert.FlattenAppend | scripts/extractcEERGM2subgraphs.py:153 | flattening a concatenation concatenates the flattenings |
| PajekConvert.ParseEach | scripts/extractcEERGM2subgraphs.py:139 | a successful parse of the tokens gives one value per token |
| PajekConvert.ParseEachMeaning | scripts/extractcEERGM2subgraphs.py:139 | parsing succeeds exactly when every token parses, and then yields their values in order |
| PajekConvert.Min | scripts/extractcEERGM2subgraphs.py:140 | min() of a non-empty list is an element of it and at most every element |
| PajekConvert.Max | scripts/extractcEERGM2subgraphs.py:140 | max() of a non-empty list is an element of it and at least every element |
| PajekConvert.RangeTest | scripts/extractcEERGM2subgraphs.py:140-141 | the min/max test flags exactly the lists holding a node number outside 1..N |
| PajekConvert.Convert | scripts/extractcEERGM2subgraphs.py:131-146 | The conversion: raises on empty input; refuses (-1, nothing written) exactly when the "*vertices" test fails, or when the "*arcs" test fails after a readable count; converts only when both header tests pass, the vertex count parses and at least one arc token parses; converts whenever those conditions hold; flags out-of-range node numbers exactly when a node lies outside 1..N, and still converts. |
| PajekConvert.OutputLines | scripts/extractcEERGM2subgraphs.py:142-145 | read back as lines, the output is the header, the names 1..N, then the lines of the input from its second line on |
| PajekConvert.HeaderRoundTrip | scripts/extractcEERGM2subgraphs.py:132-135 | the header written passes the conversion's own "*vertices" test and re-reads as the same vertex count |
| PajekConvert.OutputFirstLine | scripts/extractcEERGM2subgraphs.py:142 | the first output line is "*Vertices N" |
| PajekConvert.OutputVertexLine | scripts/extractcEERGM2subgraphs.py:143 | output line k, for 1 <= k <= N, is str(k) |
| PajekConvert.OutputListsVertices | scripts/extractcEERGM2subgraphs.py:142-144 | the output's first line re-reads as N, and its lines 1..N re-read as the numbers 1..N |
| PajekConvert.ConvertedListsVertices | scripts/extractcEERGM2subgraphs.py:135-144 | a converted file starts with a header that re-reads as the input's vertex count, followed by the lines 1..N |
| PajekConvert.BlankArcLineRaises | scripts/extractcEERGM2subgraphs.py:139 | a blank line after "*Arcs" makes int('') raise, so nothing is written |
| Text.Lower | scripts/extractcEERGM2subgraphs.py:132 | lower() keeps the length, leaves no upper-case ASCII letter, maps each upper-case letter to its lower-case one and keeps every other character |
| Text.LowerIdempotent | src/equilibriumExpectation.c:739 | folding twice is folding once, so a name matches its own lower-case form ignoring case |
| Text.RStrip | scripts/extractcEERGM2subgraphs.py:136 | rstrip() of a byte string returns the longest prefix that does not end in C `isspace` whitespace, and only such whitespace is dropped |
| Text.LStrip | scripts/extractcEERGM2subgraphs.py:135 | the leading strip inside int() returns the longest suffix that does not start with C `isspace` whitespace, and only such whitespace is dropped |
| Text.Split | scripts/extractcEERGM2subgraphs.py:132 | split(c) gives at least one part, and no part contains c |
| Text.JoinSplit | scripts/extractcEERGM2subgraphs.py:143 | joining the parts of a split with the separator restores the string |
| Text.SplitJoin | scripts/extractcEERGM2subgraphs.py:143 | splitting a join of parts free of the separator gives the parts back |
| Text.ParseDigits | scripts/extractcEERGM2subgraphs.py:135 | a digit string has a value exactly when it is non-empty and all ASCII digits |
| Text.ShowNat | scripts/extractcEERGM2subgraphs.py:142 | str() of a natural number is non-empty, all digits, and has no leading zero |
| Text.ParseShowInt | scripts/extractcEERGM2subgraphs.py:142 | int(str(x)) == x for every integer |

## Left out

- Random numbers and the `exp(total)` acceptance test are oracle inputs carried by each `Proposal`. The rejection-sampling loops are not modelled as loops. Their exit conditions are the precondition `Legal`, so nothing is said about how often they repeat or whether they end.
- IfdSampler.Legal: a delete move is modelled only when its arc pool is non-empty, because every delete must name an existing arc. The unconstrained branch (`src/ifdSampler.c:309-311`) and the snowball branch (`src/ifdSampler.c:247-249`) draw from an empty pool with no guard; `int_urand(0)` is not part of this model. Only the citation branch forces an add in that case (`src/ifdSampler.c:276-279`). The case arises only when the graph starts with no arcs (or no inner arcs), since the flag flips only on acceptance.
- The order of the arc pools (`allarcs`, `allinnerarcs`, `all_maxtermsender_arcs`) and their swap-remove is not modelled. Only arc sets are tracked through the sampler, and the store's own lists are modelled with swap-remove.
- The bodies of `insertArc`, `removeArc` and `updateTwoPathsMatrices` are not part of this model; `src/digraph.h` gives only their declarations. Two-path counts are defined over an intermediate node distinct from both ends, with 0 on the diagonal.
- `calcChangeStats`, the directed change statistic functions and `basicSampler` are not part of this model. The change statistics are a function parameter of the sampler.
- `log` in `arcCorrection`, `sqrt` in the D0 rescaling and `mean_and_sd` are function parameters. Where a sign fact is needed, sqrt is assumed to map positives to positives and sd to be non-negative, as the code's `assert(theta_sd >= 0)` demands.
- The inner dyad count `num_graph_inner_dyads`, `num_graph_dyads` and `num_arcs_or_edges` are not part of this model. The inner dyad count is a parameter, and the other two are stated through the arc set and `PossibleArcs`.
- Floating-point rounding is not modelled; reals are exact. Only the infinities and NaN of C division, the `isinf` test and the `0/0` comparisons are kept.
- EquilibriumExpectation.EeEstimate: when the default rule would start Algorithm EE from a NaN D0 (sampler_m = 0 with a balanced parameter), the run stops at `NaNStart`. The model does not follow the NaN arithmetic that the code goes on to do.
- Algorithm EE is driven by the outcomes of its sampler calls (the add and delete statistic vectors of each call), not by re-running the sampler. Only Algorithm S is shown composed with the IFD sampler model.
- `ifd_aux_param - arc_correction_val` is only printed, and is not modelled. File and console output, headers, `fflush`, timing, `MEMUSAGE_DEBUG_PRINT` and the `TWOPATH_HASHTABLES` variant are left out. So are the `DOUBLE_APPROX_EQ` warnings in `do_estimation`, which change no result.
- `ARC_PARAM_STR` is defined outside the files modelled here. It is taken to be "Arc".
- The loading in `do_estimation` is not modelled. Loading the graph, attributes and zones and building attribute indices are represented by booleans saying whether each step succeeded.
- Integer widths: `Ndel`, `Nadd`, `accepted` and the store's counters are unbounded in the model. Two products are modelled with their C widths, as Findings: the `int` product in the auxiliary-parameter step and the `uint_t` product M(N-1) of the citation dyad count. C's signed overflow is undefined; the model takes two's-complement wrap-around. `uint_t` is taken to be a 32-bit `unsigned int`; its typedef and the declaration of `num_maxterm_nodes` are not part of this model.
- IfdSampler.IfdSampler: the auxiliary parameter it returns comes from the corrected update `UpdateAux`. Above 46340 proposals the code's wrapped denominator can give a different value (see Findings); the contract ties the two only up to 46340 proposals.
- IfdSampler.ArcCorrectionArgument: the citation branch uses the corrected dyad count `MaxTermSenderDyads`. Once M(N-1) reaches 2^32 the code's wrapped count is smaller (see Findings).
- The script runs under Python 2 on byte strings, so `rstrip()`, `strip()` and `int()` treat only C's `isspace` characters as whitespace, and `lower()` folds ASCII letters only. Each character of a model string stands for one byte. `int()` is modelled for an optional sign and decimal digits between such whitespace; its other accepted forms are not modelled.
- The input file is given as its list of lines with their line ends (what `readlines()` returns). Opening the files is not modelled.
- The conversion's list of node numbers goes through `set()` before min and max. Order and duplicates do not change min or max, so the model takes them over the parsed list directly.
- The undirected graph store is modelled only as far as the change statistics read it: degrees, adjacency lists and common-neighbour counts. Edge insertion (`AddEdge`) serves as the reference for the statistic changes, and edge removal is not modelled.
- ChangeStatsUndirected.ChangeAltTwoPaths: it is tied to a sum over neighbour sets and bounded. It is not proved to equal the change in a global alternating two-path statistic, because no such statistic is defined in the source.
- ChangeStatsUndirected.ChangeAltKTriangles: it is tied to a sum over common neighbours, and its sign and symmetry are proved. It is not proved to equal the change in a global alternating k-triangle statistic, for the same reason.
- `POW_LOOKUP` is exact exponentiation `Pow`. Its lookup table and that table's range are not modelled.
- Continuous attributes, attribute names, `density`, `dump_digraph_arclist`, `print_data_summary`, `free_digraph` and the digraph loader are left out. They change no modelled result.
- Citation-mode and snowball bookkeeping (`num_maxtermsender_arcs`, `prev_wave_degree`, `num_inner_arcs`) are derived from the arc set, not stored. The wave degree counts arcs to the preceding wave, ignoring direction.

## Findings

| source | as written | input that shows it | evidently intended | confidence | as-written member | corrected member |
|---|---|---|---|---|---|---|
| src/ifdSampler.c:411 | `(Ndel+Nadd)*(Ndel+Nadd)` is a product of two `int`s, so it wraps (or is undefined) once Ndel + Nadd exceeds 46340; the wrapped denominator can be negative and the step then changes sign | sampler_m = 50000 with Ndel = 30000, Nadd = 20000, K = 1: the product wraps to -1794967296, so the step is negative and the parameter rises although deletions dominate | the exact square (Ndel+Nadd)^2, computed in double, so that the step lies in [0, K] and the parameter falls when Ndel > Nadd | high (not executed) | IfdSampler.AuxAsWrittenRisesWhenDeletesDominate | IfdSampler.UpdateAux |
| src/ifdSampler.c:100 | `g->num_maxterm_nodes*(g->num_nodes-1)/2` is computed in unsigned integer arithmetic before conversion to double, so the product wraps modulo 2^32 once M(N-1) reaches 2^32 | M = N = 70000: M(N-1) = 4899930000 wraps to 604962704, so the count is 302481352 instead of 2449965000, and a graph with 10^9 last-term-sender arcs gets a negative log argument | the exact M(N-1)/2 with truncating halving, computed in a 64-bit unsigned type | medium (not executed; assumes `uint_t` is a 32-bit `unsigned int`) | IfdSampler.MaxTermDyadsAsWrittenUndercount | IfdSampler.MaxTermSenderDyads |
