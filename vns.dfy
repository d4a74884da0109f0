/**
  `vns`: variable neighbourhood search. Each outer iteration shakes the
  current solution with `k = 1, 2, ...` swaps, runs `local_search` on the
  neighbour, and moves whenever that improves Z (going back to `k = 1`). It
  stops after `max_iter` outer iterations, after `max_no_improv` iterations
  without a new best, or when the time budget expires.
*/
module Vns {
  import opened Wrappers
  import opened Vectors
  import opened CoverageModel
  import opened Objective
  import opened Builders
  import opened LocalSearch
  import opened Shake

  /** The locals of `vns` that its loops update, and the next unused draw of each random module. */
  datatype VnsState = VnsState(
    current: seq<int>,   // current_solution
    currentZ: int,       // current_z
    best: seq<int>,      // best_solution
    bestZ: int,          // best_z
    noImprov: int,       // sem_melhora
    pyNext: nat,         // next draw of `random` (used by get_random_neighbor)
    npNext: nat          // next draw of `np.random` (used by local_search)
  )

  /** One trip through the inner loop: the neighbourhood `k` tried and whether its result was accepted. */
  datatype Step = Step(k: int, accepted: bool)

  /**
    The Z of the current solution is its `calculate_z`, and the best solution
    is the current one: a move is only accepted when it raises `current_z`
    above `best_z`.
  */
  ghost predicate Tracks(st: Structures, s: VnsState)
    requires Valid(st)
  {
    && s.currentZ == CalculateZ(s.current, st)
    && s.best == s.current
    && s.bestZ == s.currentZ
  }

  /** The neighbourhood tried after `step`: back to 1 after an acceptance, the next one after a rejection. */
  function NextK(step: Step): int
  {
    if step.accepted then 1 else step.k + 1
  }

  /** Step `i + 1` follows step `i` by the neighbourhood-change rule. */
  predicate Follows(steps: seq<Step>, i: nat)
    requires i + 1 < |steps|
  {
    steps[i + 1].k == NextK(steps[i])
  }

  /** The inner loop so far: it started at `k = 1`, every step obeys the rule and `k` comes next. */
  ghost predicate ScheduleSoFar(steps: seq<Step>, k: int, kMax: int)
  {
    && 1 <= k
    && (|steps| == 0 ==> k == 1)
    && (|steps| > 0 ==> steps[0].k == 1 && k == NextK(steps[|steps| - 1]))
    && (forall i | 0 <= i < |steps| :: 1 <= steps[i].k <= kMax)
    && (forall i | 0 <= i && i + 1 < |steps| :: Follows(steps, i))
  }

  /**
    A whole inner loop: no step at all when `k_max < 1`; otherwise it starts
    at `k = 1`, obeys the rule, and ends with a rejection at `k = k_max`.
  */
  ghost predicate KSchedule(steps: seq<Step>, kMax: int)
  {
    && (|steps| == 0 <==> kMax < 1)
    && (|steps| > 0 ==> steps[0].k == 1 && !steps[|steps| - 1].accepted && steps[|steps| - 1].k == kMax)
    && (forall i | 0 <= i < |steps| :: 1 <= steps[i].k <= kMax)
    && (forall i | 0 <= i && i + 1 < |steps| :: Follows(steps, i))
  }

  /** Some step of the inner loop was accepted. */
  ghost predicate Improves(steps: seq<Step>)
  {
    exists i | 0 <= i < |steps| :: steps[i].accepted
  }

  /** Every value reported is at least the ones reported before it. */
  ghost predicate NonDecreasing(zs: seq<int>)
  {
    forall i, j | 0 <= i < j < |zs| :: zs[i] <= zs[j]
  }

  /** Appending a step keeps the schedule prefix. */
  lemma ScheduleStep(steps: seq<Step>, k: int, kMax: int, accepted: bool)
    requires ScheduleSoFar(steps, k, kMax) && k <= kMax
    ensures ScheduleSoFar(steps + [Step(k, accepted)], NextK(Step(k, accepted)), kMax)
  {
    var steps' := steps + [Step(k, accepted)];
    forall i | 0 <= i && i + 1 < |steps'| ensures Follows(steps', i) {
      if i + 1 < |steps| {
        assert Follows(steps, i);
      }
    }
  }

  /** A step appended to the schedule is accepted, or leaves `Improves` as it was. */
  lemma ImprovesStep(steps: seq<Step>, step: Step)
    ensures Improves(steps + [step]) <==> Improves(steps) || step.accepted
  {
    var steps' := steps + [step];
    assert steps'[|steps|] == step;
    if Improves(steps) {
      var i :| 0 <= i < |steps| && steps[i].accepted;
      assert steps'[i] == steps[i];
    }
    if Improves(steps') {
      var i :| 0 <= i < |steps'| && steps'[i].accepted;
      if i < |steps| {
        assert steps[i] == steps'[i];
      }
    }
  }

  /** Every id of `xs` has a matrix row. */
  ghost predicate Known(st: Structures, xs: seq<int>)
  {
    forall x | x in xs :: x in st.candIdx
  }

  /** Once `k` exceeds `k_max`, the schedule so far is a whole inner loop. */
  lemma ScheduleDone(steps: seq<Step>, k: int, kMax: int)
    requires ScheduleSoFar(steps, k, kMax) && k > kMax
    ensures KSchedule(steps, kMax)
  {
    if |steps| > 0 {
      assert 1 <= steps[|steps| - 1].k <= kMax;
    }
  }

  /**
    The inner `while k <= k_max` loop of heuristics.py `vns`. `local_search`
    runs with `max_iter=500` and `random_tie_break=True`; its `KeyError` on an
    id without a matrix row propagates.
  */
  method Neighborhoods(st: Structures, candidates: seq<int>, kMax: int, strategy: string,
                       s0: VnsState, pyRng: nat -> nat, npRng: nat -> nat)
      returns (r: Result<VnsState, SearchError>, ghost steps: seq<Step>)
    requires Valid(st) && Tracks(st, s0)
    ensures r.Success? ==> Tracks(st, r.value) && r.value.bestZ >= s0.bestZ
    ensures r.Success? ==> KSchedule(steps, kMax)
    ensures r.Success? ==> (Improves(steps) <==> r.value.bestZ > s0.bestZ)
    ensures r.Success? && r.value.bestZ > s0.bestZ ==> r.value.noImprov == 0
    ensures r.Success? && r.value.bestZ == s0.bestZ ==>
      r.value.noImprov == s0.noImprov && r.value.current == s0.current
    ensures r.Success? && NoDup(s0.current) ==> NoDup(r.value.current) && |r.value.current| == |s0.current|
    ensures r.Success? ==> r.value.current == s0.current || Known(st, r.value.current)
    ensures r.Failure? ==> r.error.id !in st.candIdx
    ensures r.Failure? ==> r.error.id in s0.current || r.error.id in candidates
    ensures Known(st, s0.current) && Known(st, candidates) ==> r.Success?
  {
    var s := s0;
    var k := 1;
    steps := [];
    CalculateZBounds(s.current, st);
    while k <= kMax
      invariant Tracks(st, s) && s.bestZ >= s0.bestZ && s.currentZ <= PositiveDemand(st)
      invariant ScheduleSoFar(steps, k, kMax)
      invariant Improves(steps) <==> s.bestZ > s0.bestZ
      invariant s.bestZ > s0.bestZ ==> s.noImprov == 0
      invariant s.bestZ == s0.bestZ ==> s.noImprov == s0.noImprov && s.current == s0.current
      invariant NoDup(s0.current) ==> NoDup(s.current) && |s.current| == |s0.current|
      invariant s.current == s0.current || Known(st, s.current)
      decreases PositiveDemand(st) - s.currentZ, kMax - k
    {
      // 1. shaking
      var shaken := RandomNeighbor(s.current, candidates, k, pyRng, s.pyNext);
      if NoDup(s.current) {
        NeighborSize(s.current, candidates, k, pyRng, s.pyNext);
      }
      NeighborMembers(s.current, candidates, k, pyRng, s.pyNext);
      // 2. local search
      var ls, next;
      ghost var sweeps;
      ls, next, sweeps := LocalSearch.LocalSearch(shaken.neighbor, st, 500, strategy, true, npRng, s.npNext);
      if ls.Failure? {
        ghost var j :| 0 <= j < |shaken.neighbor| && shaken.neighbor[j] == ls.error.id;
        assert ls.error.id in shaken.neighbor;
        r := Failure(ls.error);
        return;
      }
      var sol2, z2 := ls.value.0, ls.value.1;
      s := s.(pyNext := shaken.next, npNext := next);
      // 3. neighbourhood change
      var tried := k;
      ScheduleStep(steps, tried, kMax, z2 > s.currentZ);
      ImprovesStep(steps, Step(tried, z2 > s.currentZ));
      if z2 > s.currentZ {
        s := s.(current := sol2, currentZ := z2);
        if s.currentZ > s.bestZ {
          s := s.(best := s.current, bestZ := s.currentZ, noImprov := 0);
          k := 1;
        } else {
          k := 1;
        }
        steps := steps + [Step(tried, true)];
      } else {
        k := k + 1;
        steps := steps + [Step(tried, false)];
      }
      CalculateZBounds(s.current, st);
    }
    ScheduleDone(steps, k, kMax);
    r := Success(s);
  }

  /** The default-arguments shortcut: a solution of at most one id is returned as is. */
  predicate EarlyExit(initial: seq<int>, kMax: int, maxIter: int)
  {
    |initial| <= 1 && kMax == 10 && maxIter == 5000
  }

  /**
    heuristics.py `vns`. `sparse` is `sparse_st`; without it the
    structures are built from `coverage_map`, `demand_dict` (whose keys, in
    order, are `demandKeys`) and `pre_covered_nodes`. `timeUp(i)` says whether
    the time budget has run out at the check of outer iteration `i`. `trace`
    is the `best_z` reported at the end of each outer iteration, `schedules`
    the inner loops' neighbourhood steps.
  */
  method Vns(initial: seq<int>, candidates: seq<int>, coverageMap: map<int, set<int>>,
             demandDict: map<int, int>, demandKeys: seq<int>, preCovered: set<int>,
             kMax: int, maxIter: int, maxNoImprov: int, timeUp: nat -> bool, strategy: string,
             sparse: Option<Structures>, pyRng: nat -> nat, npRng: nat -> nat)
      returns (r: Result<(seq<int>, int), SearchError>, st: Structures, ghost trace: seq<int>,
               ghost schedules: seq<seq<Step>>, ghost iterations: int, ghost noImprov: int)
    requires sparse.Some? ==> Valid(sparse.value)
    requires sparse.None? ==> NoDup(candidates) && NoDup(demandKeys)
    requires sparse.None? ==> forall n :: n in demandKeys <==> n in demandDict
    ensures Valid(st)
    ensures sparse.Some? ==> st == sparse.value
    ensures sparse.None? ==>
      && st.candIdx == IndexMap(candidates) && st.nodeIdx == IndexMap(demandKeys)
      && st.matrix == MapMatrix(coverageMap, candidates, demandKeys)
      && DemandFrom(st.demand, demandDict, demandKeys) && InitFrom(st.init, preCovered, demandKeys)
    ensures r.Failure? ==> r.error.id !in st.candIdx
    ensures r.Failure? ==> r.error.id in initial || r.error.id in candidates
    ensures Known(st, initial) && Known(st, candidates) ==> r.Success?
    ensures sparse.None? && (forall x | x in initial :: x in candidates) ==> r.Success?
    ensures EarlyExit(initial, kMax, maxIter) ==> r == Success((initial, CalculateZ(initial, st)))
    ensures r.Success? ==> r.value.1 == CalculateZ(r.value.0, st)
    ensures r.Success? ==> r.value.1 >= CalculateZ(initial, st)
    ensures r.Success? && NoDup(initial) ==> NoDup(r.value.0) && |r.value.0| == |initial|
    ensures r.Success? ==> NonDecreasing(trace)
    ensures r.Success? ==> forall i | 0 <= i < |trace| :: CalculateZ(initial, st) <= trace[i] <= r.value.1
    ensures r.Success? ==> |schedules| == |trace| && forall i | 0 <= i < |schedules| :: KSchedule(schedules[i], kMax)
    ensures 0 <= |trace| <= iterations && (maxIter <= 0 ==> iterations == 0) && (maxIter > 0 ==> iterations <= maxIter)
    ensures r.Success? && !EarlyExit(initial, kMax, maxIter) ==>
      iterations >= maxIter || noImprov >= maxNoImprov || timeUp(iterations)
  {
    trace, schedules, iterations, noImprov := [], [], 0, 0;
    if sparse.Some? {
      st := sparse.value;
    } else {
      ghost var counts;
      st, counts := BuildSparseStructures(coverageMap, demandDict, candidates, demandKeys, preCovered);
    }
    var currentZ := CalculateZ(initial, st);
    if EarlyExit(initial, kMax, maxIter) {
      r := Success((initial, currentZ));
      return;
    }
    r, trace, schedules, iterations, noImprov :=
      Search(st, initial, candidates, kMax, maxIter, maxNoImprov, timeUp, strategy, pyRng, npRng);
  }

  /**
    The outer loop of `vns`: `while no_improvement_count < max_no_improvement
    and iteration_count < max_iterations`, stopped early once `timeUp` holds
    for the iteration about to start. `trace` holds `best_z` after each
    iteration and `schedules` each iteration's neighbourhood steps.
  */
  method Search(st: Structures, initial: seq<int>, candidates: seq<int>, kMax: int, maxIter: int, maxNoImprov: int,
                timeUp: nat -> bool, strategy: string, pyRng: nat -> nat, npRng: nat -> nat)
      returns (r: Result<(seq<int>, int), SearchError>, ghost trace: seq<int>,
               ghost schedules: seq<seq<Step>>, ghost iterations: int, ghost noImprov: int)
    requires Valid(st)
    ensures r.Failure? ==> r.error.id !in st.candIdx
    ensures r.Failure? ==> r.error.id in initial || r.error.id in candidates
    ensures Known(st, initial) && Known(st, candidates) ==> r.Success?
    ensures r.Success? ==> r.value.1 == CalculateZ(r.value.0, st)
    ensures r.Success? ==> r.value.1 >= CalculateZ(initial, st)
    ensures r.Success? && NoDup(initial) ==> NoDup(r.value.0) && |r.value.0| == |initial|
    ensures r.Success? ==> NonDecreasing(trace)
    ensures r.Success? ==> forall i | 0 <= i < |trace| :: CalculateZ(initial, st) <= trace[i] <= r.value.1
    ensures r.Success? ==> |schedules| == |trace| && forall i | 0 <= i < |schedules| :: KSchedule(schedules[i], kMax)
    ensures 0 <= |trace| <= iterations && (maxIter <= 0 ==> iterations == 0) && (maxIter > 0 ==> iterations <= maxIter)
    ensures r.Success? ==> iterations >= maxIter || noImprov >= maxNoImprov || timeUp(iterations)
  {
    trace, schedules := [], [];
    var currentZ := CalculateZ(initial, st);
    var s := VnsState(initial, currentZ, initial, currentZ, 0, 0, 0);
    var iterCount := 0;
    var timedOut := false;
    while s.noImprov < maxNoImprov && iterCount < maxIter
      invariant Tracks(st, s) && s.bestZ >= currentZ
      invariant 0 <= iterCount && (maxIter <= 0 ==> iterCount == 0) && (maxIter > 0 ==> iterCount <= maxIter)
      invariant |trace| == |schedules| == iterCount
      invariant NonDecreasing(trace) && forall i | 0 <= i < |trace| :: currentZ <= trace[i] <= s.bestZ
      invariant forall i | 0 <= i < |schedules| :: KSchedule(schedules[i], kMax)
      invariant NoDup(initial) ==> NoDup(s.current) && |s.current| == |initial|
      invariant s.current == initial || Known(st, s.current)
      decreases maxIter - iterCount
    {
      iterCount := iterCount + 1;
      if timeUp(iterCount) {
        timedOut := true;
        break;
      }
      var inner;
      ghost var steps;
      inner, steps := Neighborhoods(st, candidates, kMax, strategy, s, pyRng, npRng);
      if inner.Failure? {
        r := Failure(inner.error);
        iterations, noImprov := iterCount, s.noImprov;
        return;
      }
      s := inner.value.(noImprov := inner.value.noImprov + 1);
      trace := trace + [s.bestZ];
      schedules := schedules + [steps];
    }
    iterations, noImprov := iterCount, s.noImprov;
    r := Success((s.best, s.bestZ));
  }
}
