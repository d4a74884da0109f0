# MCLP heuristics in Dafny

A model of the solver core of a Maximal Covering Location Problem tool. The
tool picks `p` facility sites among candidate sites so that the demand
covered by the sites is as large as possible. A demand node counts as
covered when some chosen site, or a site already in place, lies within the
distance or travel-time threshold.

The core is `heuristics.py`. The model follows its three stages and the
structures they share.

- **Builders** (`builders.dfy`). `build_coverage_map` groups the
  within-threshold distance rows by origin and adds self-coverage.
  `build_sparse_structures` turns a coverage map into the candidate × node
  0/1 matrix, the demand vector and the initial-coverage vector.
  `build_sparse_matrix_from_df` builds the same matrix straight from the
  distance rows. The matrix is built the way scipy does it: COO coordinates,
  with duplicate entries summed. The model then proves that every entry is
  0 or 1, and that both matrix builders give the same matrix.
- **Coverage model and objective** (`coverage_model.dfy`, `objective.dfy`,
  `vectors.dfy`). These define the coverage-count vector of a selection of
  matrix rows and `calculate_z`, the demand of the nodes whose count is
  positive. `calculate_z` is proved equal to "the demand of the nodes that
  are pre-covered or covered by a listed, known candidate", whatever the
  order or repetition of the list.
- **Greedy constructor** (`greedy.dfy`). `greedy_heuristic` is an imperative
  loop over a `bool` availability array. It is proved to return exactly the
  picks of a functional reference run. That run is characterised as the
  unique sequence in which each pick is the first argmax of the masked
  gains and is positive, stopping after `p` picks or at the first
  non-positive gain. The picks are distinct, at most `p`, and Z strictly
  increases along them.
- **Swap deltas and local search** (`swap_delta.dfy`, `local_search.dfy`).
  The incremental `potential_gains - loss + recoveries` of a swap is proved
  equal to the change of Z. The incremental update of the potential gains is
  proved equal to recomputing them. `local_search` works in place on a
  selection array and a pool array. It keeps coverage, gains and Z
  consistent with the selection, never lowers Z, and keeps the selection and
  pool a partition of the candidate rows. When it stops before `max_iter`
  on a duplicate-free input under strategy "first" or "best", no single
  swap improves Z.
- **Shake and VNS** (`shake.dfy`, `oracle.dfy`, `vns.dfy`).
  `get_random_neighbor` swaps `k` members for `k` outside candidates and
  keeps a duplicate-free solution's size. `vns` is a nested loop. The model
  proves that the incumbent Z never decreases and equals `calculate_z` of
  the returned solution. It also proves the `k` schedule of every outer
  iteration: 1, then reset to 1 on acceptance or otherwise incremented,
  ending with a rejected `k_max`. Finally it proves why the loop stopped.

Randomness is an oracle. `rng(t)` is the `t`-th draw, and every operation
threads a draw counter. The wall clock is an oracle too: `timeUp(i)` says
whether the time budget is spent when outer iteration `i` starts.

Edge cases of the code that the model keeps as they are:

- `greedy_heuristic` with no candidate row and `p >= 1` calls `np.argmax`
  on an empty array, which raises. The model returns `Failure(EmptyArgMax)`.
- `p <= 0` and `k_max <= 0` are not rejected: `p <= 0` gives an empty
  greedy run and `k_max <= 0` an empty inner VNS loop, and the model does
  the same.
- A strategy other than "first" or "best" goes through the best-improvement
  scan but never applies the move. The sweep therefore ends after one
  iteration with the solution unchanged.
- In `vns`, `current_z == best_z` holds throughout. The `else: k = 1`
  branch (heuristics.py:563-564) is therefore dead, and the model proves
  that every accepted move improves the incumbent.

## Model

| member | source | states |
|---|---|---|
| Builders.BuildCoverageMap | heuristics.py:12-35 | the map built by grouping and the self-coverage loop is exactly the grouped within-threshold destinations plus each candidate covering itself |
| Builders.CoverageMapWithoutCandidates | heuristics.py:25-33 | with no candidate list, or an empty one, the result is the plain group-by of the within-threshold rows |
| Builders.CoverageMapStep | heuristics.py:30-33 | one more candidate `j` creates `coverage[j]` if missing and adds `j` to it, leaving the other keys alone |
| Builders.CoverageMapKeys | heuristics.py:25-33 | an id is a key iff it is the origin of a within-threshold row or a listed candidate |
| Builders.CoverageMapCovers | heuristics.py:18-33 | `d` is in `coverage[o]` iff some within-threshold row goes from `o` to `d`, or `o` is a candidate and `d == o`; the threshold is distance or time as `use_km` selects |
| Builders.DemandVector | heuristics.py:67-70 | position `node_to_idx[n]` holds `demand_dict[n]`, and 0 for nodes without demand |
| Builders.InitialCoverage | heuristics.py:73-77 | position `node_to_idx[n]` is 1 exactly for pre-covered nodes, otherwise 0 |
| Builders.AppendCovered | heuristics.py:58-63 | appending the known covered nodes of one candidate adds exactly one coordinate per known covered node of that row |
| Builders.MapCoo | heuristics.py:54-63 | each (candidate, node) coordinate occurs once if the node is in the candidate's coverage set and zero times otherwise |
| Builders.BuildSparseStructures | heuristics.py:37-79 | the five structures are valid; the indices enumerate the lists; the matrix is the coverage relation; demand and initial coverage come from the dictionaries; every summed COO entry is 0 or 1 |
| Builders.CooCountSnoc | heuristics.py:65 | one appended coordinate adds one to the summed entry it names and nothing elsewhere |
| Builders.CooCountConcat | heuristics.py:119-125 | concatenating two coordinate lists adds their summed entries |
| Builders.FilteredCooCount | heuristics.py:95-106 | the filtered rows give a coordinate for (candidate `i`, node `n`) iff some within-threshold row goes between them |
| Builders.SelfCoordinates | heuristics.py:111-116 | exactly one self-coverage coordinate for each candidate that is also a demand node, and none otherwise |
| Builders.DfMatrixOfCoo | heuristics.py:119-127 | the entries that are non-zero after summing the filtered and self coordinates form the threshold relation plus the diagonal of candidates that are nodes |
| Builders.BuildSparseMatrixFromDf | heuristics.py:81-141 | valid structures whose matrix is that relation, with demand and initial coverage as in the dictionary builder |
| Builders.BuildersAgree | heuristics.py:95-127 | building from the distance rows gives the same matrix as building the coverage map with candidates and then the matrix |
| Builders.SelfCoverage | heuristics.py:108-116 | a candidate that is also a demand node covers itself in both builders |
| Builders.DroppedRowIrrelevant | heuristics.py:95-103 | a row outside the threshold, or with an origin or destination outside the lists, does not change the matrix |
| Builders.DemandAt | heuristics.py:130-133 | the demand at a node's index is its weight in `demand_dict`, else 0 |
| Builders.InitAt | heuristics.py:135-139 | the initial coverage at a node's index is 1 iff the node is pre-covered |
| CoverageModel.IndexMap | heuristics.py:43-44 | `{c: i for i, c in enumerate(ids)}` maps each listed id to its position and every key back to the id at that position |
| CoverageModel.Invert | heuristics.py:234 | `{v: k for k, v in cand_to_idx.items()}` is the inverse of the index on both sides |
| CoverageModel.RowOfInjective | heuristics.py:43 | distinct candidate ids have distinct rows |
| CoverageModel.HitsPositive | heuristics.py:153-155 | the rows-sum part of a node's coverage count is positive iff some selected row covers the node |
| CoverageModel.HitsUpdate | heuristics.py:357 | a swap changes a node's count by minus the removed row's entry plus the added row's entry |
| CoverageModel.CoverageAppend | heuristics.py:223-224 | adding a candidate adds its row to the coverage vector |
| CoverageModel.CoverageSwap | heuristics.py:413 | replacing a selected row gives `coverage - rem_row + add_row` |
| CoverageModel.CoverageNonNegative | heuristics.py:155 | coverage counts are never negative |
| CoverageModel.CoverageEmpty | heuristics.py:169 | the coverage of no selection is the initial coverage |
| CoverageModel.Coverage | heuristics.py:153-155 | `initial_coverage + cov_matrix[sol].sum(axis=0)`: one count per node; CoverageModel.HitsPositive and CoverageNonNegative state its meaning |
| CoverageModel.ZOf | heuristics.py:157-158 | `np.sum(demand_vector[coverage > 0])`; Objective.CalculateZIsCoveredDemand states its meaning for a selection |
| CoverageModel.PotentialGains | heuristics.py:286-289 | `cov_matrix @ uncovered_demand`: one gain per candidate row; CoverageModel.AddRowGain states that it is the Z increase of adding that row |
| CoverageModel.AddRowGain | heuristics.py:194-227 | Z after adding candidate `c` is Z plus `c`'s potential gain (`current_z += best_gain` is exact) |
| CoverageModel.ZAtMostPositiveDemand | heuristics.py:158 | Z never exceeds the sum of the positive demands |
| CoverageModel.ZWithinTotalDemand | heuristics.py:158 | with non-negative demand, Z lies between 0 and the total demand |
| Objective.KnownIndices | heuristics.py:148 | the rows of the known ids, at most one per listed id |
| Objective.KnownIndicesMembers | heuristics.py:148 | a row is in the list iff some listed id is a known candidate with that row |
| Objective.IndicesOf | heuristics.py:245 | when every id is known, one row per id and all in range |
| Objective.IdsOf | heuristics.py:444-445 | one known id per row, whose row is that row |
| Objective.CalculateZ | heuristics.py:143-158 | `calculate_z`; Objective.CalculateZIsCoveredDemand and CalculateZSetSemantics state its meaning |
| Objective.CalculateZIsCoveredDemand | heuristics.py:143-158 | `calculate_z` is the demand of the nodes pre-covered or covered by some known listed candidate, unknown ids ignored |
| Objective.CalculateZSetSemantics | heuristics.py:148-158 | two lists with the same known candidates have the same Z, regardless of order and repetition |
| Objective.CalculateZInitialOnly | heuristics.py:149-151 | with no known candidate Z is the demand of the pre-covered nodes |
| Objective.CalculateZOfKnown | heuristics.py:148-158 | for all-known lists, Z is the Z of their rows |
| Objective.IdsOfRoundTrip | heuristics.py:444-445 | converting rows to ids and back returns the rows and keeps Z |
| Objective.IndicesOfRoundTrip | heuristics.py:245 | converting known ids to rows and back returns the ids |
| Objective.CalculateZBounds | heuristics.py:158 | Z is at most the positive demand and, for non-negative demand, within 0 and the total demand |
| Objective.IdsOfNoDup | heuristics.py:444-445 | distinct rows give distinct ids |
| Objective.IndicesOfNoDup | heuristics.py:245 | distinct known ids give distinct rows |
| Vectors.ArgMax | heuristics.py:209 | `np.argmax`: a position of the maximum, and the first one |
| Vectors.ArgMaxUnique | heuristics.py:209 | that position is unique |
| Oracle.Choice | heuristics.py:338-382 | `np.random.choice` returns a member of its argument |
| Oracle.Sample | heuristics.py:456-457 | `random.sample(xs, k)` returns `k` elements drawn without replacement (sub-multiset) |
| Oracle.Shuffle | heuristics.py:300 | `np.random.shuffle` keeps the length; Oracle.ShufflePermutes states that it permutes |
| Oracle.ShufflePermutes | heuristics.py:300 | `np.random.shuffle` permutes its argument |
| Oracle.SampleMembers | heuristics.py:456-457 | every sampled element is in the sampled list |
| Shake.Without | heuristics.py:453 | set difference on lists: exactly the members of `xs` not in `ys` |
| Shake.NeighborMembers | heuristics.py:450-459 | every member of the neighbour was in the solution or is a candidate |
| Shake.Insert | heuristics.py:458-459 | adding one id to a strictly ascending list keeps it strictly ascending with that member added |
| Shake.SortedSet | heuristics.py:459 | `sorted(list(set(xs)))` is strictly ascending with the members of `xs` |
| Shake.Available | heuristics.py:453 | `candidates_set - set(solution)`: ascending, and exactly the candidates outside the solution |
| Shake.RandomNeighbor | heuristics.py:450-459 | unchanged when either side is shorter than `k`; otherwise ascending, `2k` draws, and exactly the members not removed plus the added candidates |
| Shake.KeptSize | heuristics.py:458 | removing `k` distinct members of a duplicate-free list leaves `|s| - k` distinct members |
| Shake.SwappedSize | heuristics.py:456-458 | the kept members and the added candidates are disjoint and together as many as the solution |
| Shake.NeighborSize | heuristics.py:450-459 | the neighbour of a duplicate-free solution is duplicate-free and of the same size |
| SwapDelta.Loss | heuristics.py:310-311 | the demand covered only by row `r`; SwapDelta.SwapDeltaIsZChange states its role in the delta |
| SwapDelta.Recoveries | heuristics.py:313-315 | `cov_matrix @ unique_demand_vector`: one value per candidate row; SwapDelta.SwapDeltaIsZChange states its role in the delta |
| SwapDelta.PoolDeltas | heuristics.py:318-321 | one delta per pool position; LocalSearch.PoolDeltasExact states that each is the Z change of that swap |
| SwapDelta.UpdatedGains | heuristics.py:404-421 | one gain per candidate row; SwapDelta.SwapKeepsGains states that it equals the recomputed potential gains |
| SwapDelta.SwapDeltaIsZChange | heuristics.py:305-321 | the incremental delta of swapping row `i` for `a` equals Z after the swap minus Z before |
| SwapDelta.SwapKeepsGains | heuristics.py:404-421 | the incremental update of `potential_gains` equals recomputing them for the new selection |
| SwapDelta.CoverageAtLeastRow | heuristics.py:310 | every node a selected row covers has a coverage count of at least 1 |
| Greedy.MaskedGains | heuristics.py:194-206 | the potential gains after the picks so far, with the picked rows at -1 |
| Greedy.GreedyFrom | heuristics.py:191-219 | the reference run from a prefix of picks: row indices in range; Greedy.GreedyFromUnfold, GreedyFromExtends and GreedyFromLegal state its meaning |
| Greedy.GreedyPicks | heuristics.py:160-219 | the reference run from no pick; Greedy.GreedyPicksIsRun and GreedyRunUnique state its meaning |
| Greedy.GreedyFromUnfold | heuristics.py:191-219 | one step of the reference run: stop at a non-positive best masked gain, else append its argmax |
| Greedy.GreedyFromExtends | heuristics.py:191-218 | the run extends the chosen prefix by at most `steps` picks |
| Greedy.GreedyFromSaturates | heuristics.py:212-215 | a run that stops early ends where no available candidate has a positive gain |
| Greedy.GreedyFromLegal | heuristics.py:203-219 | every pick of the run is the first argmax of the masked gains and positive |
| Greedy.GreedyPicksIsRun | heuristics.py:160-237 | the reference picks are a greedy run: legal picks, at most `p`, saturated when short |
| Greedy.GreedyRunEnd | heuristics.py:212-215 | a saturated selection stays as it is |
| Greedy.GreedyRunNext | heuristics.py:217-219 | a legal pick advances the run by one |
| Greedy.GreedyRunUnique | heuristics.py:191-219 | any greedy run is the reference run |
| Greedy.GreedyStepGain | heuristics.py:203-227 | a legal pick is new and raises Z by its masked gain |
| Greedy.GreedyRunProperties | heuristics.py:191-227 | a greedy run has distinct picks, at most `p`, strictly increasing Z, each Z at most the positive demand |
| Greedy.PrefixZAppend | heuristics.py:227 | the running Z after one more pick appends the new Z |
| Greedy.RunningZOfIds | heuristics.py:229-235 | the running Z of the returned ids is the running Z of the picked rows |
| Greedy.GreedyAccept | heuristics.py:217-227 | accepting the argmax keeps the loop on the reference run and updates coverage, Z and the trace |
| Greedy.GreedyStop | heuristics.py:212-215 | a non-positive best gain ends the run at the current selection |
| Greedy.GreedyPick | heuristics.py:192-227 | one loop step: masks with `available`, picks the argmax, and either stops at the reference run or extends it with coverage and Z updated |
| Greedy.GreedyHeuristic | heuristics.py:160-237 | fails exactly when there is no candidate row and `p > 0`; otherwise returns the ids of the reference run and the Z after each pick |
| Greedy.GreedySolution | heuristics.py:160-237 | the greedy solution is duplicate-free and at most `p` long; Z strictly increases along it and stays within the demand bounds |
| LocalSearch.SolutionIndices | heuristics.py:245 | succeeds iff every id is known, giving their rows; otherwise fails with the first unknown id (the `KeyError`) |
| LocalSearch.RangeMembers | heuristics.py:298 | its members are exactly `0..n-1` |
| LocalSearch.PoolOf | heuristics.py:246-251 | the pool is duplicate-free and holds exactly the rows not in the selection |
| LocalSearch.Positives | heuristics.py:335 | `np.where(pool_deltas > 0)` holds exactly the positions with a positive delta |
| LocalSearch.Ties | heuristics.py:381 | `np.where(pool_deltas == m)` holds exactly the positions equal to `m` |
| LocalSearch.PoolDeltasExact | heuristics.py:305-321 | in a consistent state each pool delta is the Z gain of that swap |
| LocalSearch.NoPositiveDeltaIsOptimal | heuristics.py:292-394 | no positive pool delta means no swap improves Z |
| LocalSearch.FirstImprovement | heuristics.py:305-371 | the first row in the shuffled order with a positive delta is swapped with a random positive pool position; all earlier rows have none; no move means no row has one |
| LocalSearch.FirstSweep | heuristics.py:298-371 | strategy "first": `|sol|` shuffle draws plus one choice draw; a move has a positive exact delta; no move means no positive delta anywhere |
| LocalSearch.BestImprovement | heuristics.py:373-394 | the move has the largest delta over all rows, in the first row reaching it; on `np.argmax` it is the first position; no move means no positive delta |
| LocalSearch.BestStep | heuristics.py:374-394 | one row keeps the best-so-far invariant: the best delta bounds all rows seen and strictly exceeds those before the move's row |
| LocalSearch.RowBest | heuristics.py:376-394 | a row beats `best_delta` iff its maximum exceeds it; the position is `np.argmax`, or the tie chosen by the draw |
| LocalSearch.ApplySwap | heuristics.py:396-421 | swaps the two array cells and keeps coverage, gains and Z consistent, with Z raised by the delta |
| LocalSearch.SwapMultiset | heuristics.py:414-415 | a swap keeps the joint multiset of selection and pool |
| LocalSearch.PartitionInit | heuristics.py:246-251 | a duplicate-free selection and its pool hold each row exactly once |
| LocalSearch.OptimumOfIds | heuristics.py:443-447 | a swap-optimal partition gives a locally optimal id solution: no single exchange with an outside candidate has higher `calculate_z` |
| LocalSearch.Sweep | heuristics.py:292-423 | one sweep: either one improving swap with Z raised by its delta, or nothing; consistency and the partition are kept; no applied move under "first"/"best" means a local optimum |
| LocalSearch.Improve | heuristics.py:292-424 | the sweep loop keeps consistency and the partition and never lowers Z; stopping before `max_iter` under "first"/"best" leaves no positive delta |
| LocalSearch.LocalSearch | heuristics.py:239-447 | fails iff an id is unknown; otherwise same length, Z equals `calculate_z` and is at least the input's; distinct ids stay distinct; unchanged when `max_iter <= 0` or the strategy is unknown; locally optimal when stopped early |
| LocalSearch.SearchOutcome | heuristics.py:443-447 | the returned Z is `calculate_z` of the returned ids, and the initial Z is that of the input |
| LocalSearch.SearchNoDup | heuristics.py:443-447 | for a duplicate-free input the returned ids are distinct and every row is once in the selection or the pool |
| Vns.ScheduleStep | heuristics.py:528-566 | one inner step extends a legal `k` schedule: acceptance resets `k` to 1, rejection increments it |
| Vns.ImprovesStep | heuristics.py:553-561 | a schedule improves iff an earlier step or the new one was accepted |
| Vns.ScheduleDone | heuristics.py:528 | the schedule is complete once `k > k_max` |
| Vns.Neighborhoods | heuristics.py:525-566 | the inner loop keeps current equal to best, never lowers best Z, follows a complete `k` schedule, improves iff some step is accepted, resets the no-improvement count iff it improves; it fails only on an id without a matrix row, taken from the starting solution or the candidates, so it succeeds when all of those have rows |
| Vns.Search | heuristics.py:497-579 | the outer loop succeeds when every initial id and candidate has a matrix row, and otherwise fails only on such an id; it returns a solution whose Z is its `calculate_z` and at least the initial Z; keeps size and distinctness; the best-Z trace is non-decreasing; stops at `max_iter`, at `max_no_improv` or on the time budget |
| Vns.Vns | heuristics.py:462-579 | uses the given structures or builds them as the dictionary builder does; the early return for a solution of at most one id under the default `k_max` and `max_iter`; succeeds when every initial id and candidate has a matrix row (with built structures: when the initial ids are candidates); then the outer-loop guarantees |

## Left out

- The user interface, report, data-loading and entry-point modules (`app.py`, `ui_components.py`, `ui_config.py`, `map_renderer.py`, `report_utils.py`, `data_loader.py`, `main.py`, `config.py`, `reproduce_issue.py`) are not part of this model.
- The `rich` console output, progress bars and every `progress_callback` call are output only. They are left out; the greedy Z after each step and the VNS best Z after each iteration are returned as traces instead.
- The wall clock (`time.time()`, `max_time_seconds`) is the oracle `timeUp(iteration)`. A zero or missing time limit is a `timeUp` that is always false.
- Python's `random` and numpy's generator are oracles `pyRng` and `npRng` read from a counter. The way draws map to samples (`rng(t) % n` on the remaining elements) is not numpy's or CPython's algorithm, so the model fixes which outcomes are possible, not their distribution.
- Distances and times are floats compared with a threshold. The model keeps only the outcome of each comparison (`withinDist`, `withinTime` in `Builders.DistanceRow`).
- Integer widths are left out: the int8 matrix entries and int32 demand and coverage vectors are unbounded integers. Builders.BuildSparseStructures: int8 COO summation is not wrapped, but every summed entry is proved to be 0 or 1, so no wrap occurs.
- Set and dict iteration order: `candidates_set - set(solution)` is enumerated in ascending order and `list(cand_to_idx.values())` as `0..n-1` (its order for an `enumerate`-built dict). `coverage_map[c]` is enumerated in an unspecified order; only the order-independent COO counts are specified.
- Builders.BuildSparseStructures: requires duplicate-free candidate and node lists. With duplicates the source's `enumerate` dictionaries keep the last position, which the model does not follow. Every caller builds those lists from dictionary keys or de-duplicated data.
- Builders.BuildSparseMatrixFromDf: requires duplicate-free candidate and node lists, for the same reason.
- Vns.Vns: when it builds the structures itself it requires the node list to be the keys of `demand_dict`, as `list(demand_dict.keys())` is.
- The numpy arrays that `local_search` and `greedy_heuristic` update in place are Dafny `array`s. The coverage, gain and demand vectors, which the source rebinds as whole arrays, are `seq`s.

