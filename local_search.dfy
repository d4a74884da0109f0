/**
  `local_search`: while a sweep finds an improving move and fewer than
  `max_iter` sweeps were made, swap one selected row for one pool row.
  Strategy "first" takes a random improving swap of the first row (in a
  shuffled order) that has one; any other strategy scans every row for the
  best swap, and only strategy "best" applies it.
*/
module LocalSearch {
  import opened Wrappers
  import opened Vectors
  import opened CoverageModel
  import opened Objective
  import opened SwapDelta
  import Oracle

  /** `cand_to_idx[c]` raises `KeyError` for a solution id without a matrix row. */
  datatype SearchError = UnknownCandidate(id: int)

  /** A swap: the `i`-th selected row out, the `j`-th pool row in, changing Z by `delta`. */
  datatype Move = Move(i: nat, j: nat, delta: int)

  /** `[cand_to_idx[c] for c in solution]`: the first id without a row raises. */
  function SolutionIndices(st: Structures, solution: seq<int>): (r: Result<seq<nat>, SearchError>)
    requires Valid(st)
    ensures r.Success? <==> forall j | 0 <= j < |solution| :: solution[j] in st.candIdx
    ensures r.Success? ==> r.value == IndicesOf(st, solution)
    ensures r.Failure? ==> r.error.id !in st.candIdx
    ensures r.Failure? ==> exists j | 0 <= j < |solution| ::
      solution[j] == r.error.id && forall k | 0 <= k < j :: solution[k] in st.candIdx
    decreases |solution|
  {
    if |solution| == 0 then Success([])
    else if solution[0] !in st.candIdx then Failure(UnknownCandidate(solution[0]))
    else
      assert forall k | 0 <= k < |solution| - 1 :: solution[1..][k] == solution[k + 1];
      match SolutionIndices(st, solution[1..])
      case Success(rest) => Success([RowOf(st, solution[0])] + rest)
      case Failure(e) => Failure(e)
  }

  /** `np.arange(n)`. */
  function Range(n: nat): (r: seq<nat>)
    ensures |r| == n && forall i | 0 <= i < n :: r[i] == i
  {
    seq(n, i requires 0 <= i < n => i)
  }

  /** `np.arange(n)` holds exactly `0 .. n-1`. */
  lemma RangeMembers(n: nat)
    ensures forall x :: x in Range(n) <==> 0 <= x < n
  {
    forall x | 0 <= x < n ensures x in Range(n) {
      assert Range(n)[x] == x;
    }
    forall x | x in Range(n) ensures 0 <= x < n {
      var i :| 0 <= i < n && Range(n)[i] == x;
    }
  }

  /** `all_cand_indices[~is_in_sol]`: the rows `0 .. nc-1` not selected, ascending. */
  function PoolOf(sol: seq<nat>, nc: nat): (pool: seq<nat>)
    ensures InRange(pool, nc) && NoDup(pool)
    ensures forall x :: x in pool <==> 0 <= x < nc && x !in sol
    decreases nc
  {
    if nc == 0 then []
    else PoolOf(sol, nc - 1) + (if nc - 1 in sol then [] else [nc - 1])
  }

  /** `np.where(pool_deltas > 0)[0]`: the positions of the positive deltas, ascending. */
  function Positives(pd: seq<int>): (ps: seq<nat>)
    ensures forall x :: x in ps <==> 0 <= x < |pd| && pd[x] > 0
  {
    if |pd| == 0 then []
    else
      var k := |pd| - 1;
      assert forall x | 0 <= x < k :: pd[..k][x] == pd[x];
      Positives(pd[..k]) + (if pd[k] > 0 then [k] else [])
  }

  /** `np.where(pool_deltas == m)[0]`: the positions holding `m`, ascending. */
  function Ties(pd: seq<int>, m: int): (ts: seq<nat>)
    ensures forall x :: x in ts <==> 0 <= x < |pd| && pd[x] == m
  {
    if |pd| == 0 then []
    else
      var k := |pd| - 1;
      assert forall x | 0 <= x < k :: pd[..k][x] == pd[x];
      Ties(pd[..k], m) + (if pd[k] == m then [k] else [])
  }

  /** `current_coverage`, `potential_gains` and `current_z` agree with the selected rows. */
  ghost predicate Consistent(st: Structures, sol: seq<nat>, cov: seq<int>, gains: seq<int>, z: int)
    requires WellFormed(st)
  {
    && InRange(sol, NumCand(st))
    && cov == Coverage(st, sol)
    && gains == PotentialGains(st, cov)
    && z == ZIdx(st, sol)
  }

  /** The Z change of putting the `j`-th pool row in place of the `i`-th selected row. */
  ghost function SwapGain(st: Structures, sol: seq<nat>, pool: seq<nat>, i: nat, j: nat): int
    requires WellFormed(st) && InRange(sol, NumCand(st)) && InRange(pool, NumCand(st))
    requires i < |sol| && j < |pool|
  {
    ZIdx(st, sol[i := pool[j]]) - ZIdx(st, sol)
  }

  /** No swap of a selected row for a pool row increases Z. */
  ghost predicate NoImprovingSwap(st: Structures, sol: seq<nat>, pool: seq<nat>)
    requires WellFormed(st) && InRange(sol, NumCand(st)) && InRange(pool, NumCand(st))
  {
    forall i, j | 0 <= i < |sol| && 0 <= j < |pool| :: SwapGain(st, sol, pool, i, j) <= 0
  }

  /** `s` with its `i`-th element replaced by `x`. */
  function Replace(s: seq<int>, i: nat, x: int): (s': seq<int>)
    requires i < |s|
    ensures |s'| == |s| && s'[i] == x && forall k | 0 <= k < |s| && k != i :: s'[k] == s[k]
  {
    s[i := x]
  }

  /** No solution that replaces one id by an unselected candidate has a larger `calculate_z`. */
  ghost predicate LocalOptimum(st: Structures, ids: seq<int>)
    requires Valid(st)
  {
    forall i, c | 0 <= i < |ids| && c in st.candIdx && c !in ids ::
      CalculateZ(Replace(ids, i, c), st) <= CalculateZ(ids, st)
  }

  /** The vectorised deltas of row `i` are the exact Z changes of its swaps. */
  lemma PoolDeltasExact(st: Structures, sol: seq<nat>, pool: seq<nat>, cov: seq<int>, gains: seq<int>, i: nat)
    requires WellFormed(st) && InRange(sol, NumCand(st)) && InRange(pool, NumCand(st)) && i < |sol|
    requires cov == Coverage(st, sol) && gains == PotentialGains(st, cov)
    ensures forall j | 0 <= j < |pool| ::
      PoolDeltas(st, cov, gains, sol[i], pool)[j] == SwapGain(st, sol, pool, i, j)
  {
    forall j | 0 <= j < |pool|
      ensures PoolDeltas(st, cov, gains, sol[i], pool)[j] == SwapGain(st, sol, pool, i, j)
    {
      SwapDeltaIsZChange(st, sol, i, pool[j]);
    }
  }

  /** No row of the selection has a positive pool delta. */
  ghost predicate NoPositiveDelta(st: Structures, cov: seq<int>, gains: seq<int>, sol: seq<nat>, pool: seq<nat>)
    requires WellFormed(st) && |cov| == NumNodes(st) && |gains| == NumCand(st)
    requires InRange(sol, NumCand(st)) && InRange(pool, NumCand(st))
  {
    forall i, j | 0 <= i < |sol| && 0 <= j < |pool| :: PoolDeltas(st, cov, gains, sol[i], pool)[j] <= 0
  }

  /** In a consistent state, the absence of a positive pool delta means no swap improves Z. */
  lemma NoPositiveDeltaIsOptimal(st: Structures, sol: seq<nat>, pool: seq<nat>, cov: seq<int>, gains: seq<int>)
    requires WellFormed(st) && InRange(sol, NumCand(st)) && InRange(pool, NumCand(st))
    requires cov == Coverage(st, sol) && gains == PotentialGains(st, cov)
    requires NoPositiveDelta(st, cov, gains, sol, pool)
    ensures NoImprovingSwap(st, sol, pool)
  {
    forall i, j | 0 <= i < |sol| && 0 <= j < |pool| ensures SwapGain(st, sol, pool, i, j) <= 0 {
      PoolDeltasExact(st, sol, pool, cov, gains, i);
    }
  }

  /**
    The sweep of strategy "first": the rows in `order` are tried in turn and
    the first one with a positive pool delta is swapped for a random pool row
    among those with a positive delta (the draw `rng(t)`).
  */
  method FirstImprovement(st: Structures, sol: seq<nat>, pool: seq<nat>, cov: seq<int>, gains: seq<int>,
                          order: seq<nat>, rng: nat -> nat, t: nat)
      returns (move: Option<Move>, ghost k: nat)
    requires WellFormed(st) && |cov| == NumNodes(st) && |gains| == NumCand(st)
    requires InRange(sol, NumCand(st)) && InRange(pool, NumCand(st)) && InRange(order, |sol|)
    ensures move.Some? ==>
      && k < |order| && move.value.i == order[k]
      && |Positives(PoolDeltas(st, cov, gains, sol[order[k]], pool))| > 0
      && move.value.j == Oracle.Choice(Positives(PoolDeltas(st, cov, gains, sol[order[k]], pool)), rng, t)
    ensures move.Some? ==> move.value.i < |sol| && move.value.j < |pool|
    ensures move.Some? ==> 0 < move.value.delta == PoolDeltas(st, cov, gains, sol[move.value.i], pool)[move.value.j]
    ensures move.Some? ==> forall k', j | 0 <= k' < k && 0 <= j < |pool| ::
      PoolDeltas(st, cov, gains, sol[order[k']], pool)[j] <= 0
    ensures move.None? ==> forall k', j | 0 <= k' < |order| && 0 <= j < |pool| ::
      PoolDeltas(st, cov, gains, sol[order[k']], pool)[j] <= 0
  {
    var n := 0;
    k := 0;
    while n < |order|
      invariant 0 <= n <= |order| && k == n
      invariant forall k', j | 0 <= k' < n && 0 <= j < |pool| :: PoolDeltas(st, cov, gains, sol[order[k']], pool)[j] <= 0
    {
      var i := order[n];
      var pd := PoolDeltas(st, cov, gains, sol[i], pool);
      var positives := Positives(pd);
      if |positives| > 0 {
        var j := Oracle.Choice(positives, rng, t);
        move := Some(Move(i, j, pd[j]));
        return;
      }
      forall j | 0 <= j < |pool| ensures pd[j] <= 0 {
        assert j !in positives;
      }
      n := n + 1;
      k := n;
    }
    move := None;
  }

  /**
    Strategy "first": `np.random.shuffle(np.arange(len(sol_indices)))` uses
    `|sol|` draws from `t0`, then the rows are tried in that order.
  */
  method FirstSweep(st: Structures, sol: seq<nat>, pool: seq<nat>, cov: seq<int>, gains: seq<int>,
                    rng: nat -> nat, t0: nat)
      returns (move: Option<Move>, t: nat)
    requires WellFormed(st) && |cov| == NumNodes(st) && |gains| == NumCand(st)
    requires InRange(sol, NumCand(st)) && InRange(pool, NumCand(st))
    ensures t == t0 + |sol| + (if move.Some? then 1 else 0)
    ensures move.Some? ==> move.value.i < |sol| && move.value.j < |pool|
    ensures move.Some? ==> 0 < move.value.delta == PoolDeltas(st, cov, gains, sol[move.value.i], pool)[move.value.j]
    ensures move.None? ==> NoPositiveDelta(st, cov, gains, sol, pool)
  {
    var order := Oracle.Shuffle(Range(|sol|), rng, t0);
    Oracle.ShufflePermutes(Range(|sol|), rng, t0);
    Oracle.SampleMembers(Range(|sol|), |sol|, rng, t0);
    RangeMembers(|sol|);
    assert forall k | 0 <= k < |order| :: order[k] in order;
    t := t0 + |sol|;
    ghost var k;
    move, k := FirstImprovement(st, sol, pool, cov, gains, order, rng, t);
    if move.Some? {
      t := t + 1;
    } else {
      forall i, j | 0 <= i < |sol| && 0 <= j < |pool|
        ensures PoolDeltas(st, cov, gains, sol[i], pool)[j] <= 0
      {
        assert i == Range(|sol|)[i];
        assert i in multiset(order);
        var k' :| 0 <= k' < |order| && order[k'] == i;
      }
    }
  }

  /**
    The sweep of every strategy but "first": the best positive delta of each
    row (`np.argmax`, or with `random_tie_break` a random position of
    `np.max`) replaces the best move so far only when strictly larger.
  */
  method BestImprovement(st: Structures, sol: seq<nat>, pool: seq<nat>, cov: seq<int>, gains: seq<int>,
                         randomTieBreak: bool, rng: nat -> nat, t0: nat)
      returns (move: Option<Move>, t: nat)
    requires WellFormed(st) && |cov| == NumNodes(st) && |gains| == NumCand(st)
    requires InRange(sol, NumCand(st)) && InRange(pool, NumCand(st))
    ensures t0 <= t && (!randomTieBreak ==> t == t0)
    ensures move.Some? ==> move.value.i < |sol| && move.value.j < |pool|
    ensures move.Some? ==> 0 < move.value.delta == PoolDeltas(st, cov, gains, sol[move.value.i], pool)[move.value.j]
    ensures move.Some? ==> forall i, j | 0 <= i < |sol| && 0 <= j < |pool| ::
      PoolDeltas(st, cov, gains, sol[i], pool)[j] <= move.value.delta
    ensures move.Some? ==> forall i, j | 0 <= i < move.value.i && 0 <= j < |pool| ::
      PoolDeltas(st, cov, gains, sol[i], pool)[j] < move.value.delta
    ensures move.Some? && !randomTieBreak ==>
      move.value.j == ArgMax(PoolDeltas(st, cov, gains, sol[move.value.i], pool))
    ensures move.None? ==> NoPositiveDelta(st, cov, gains, sol, pool)
  {
    var bestDelta := 0;
    move := None;
    t := t0;
    for i := 0 to |sol|
      invariant t0 <= t && (!randomTieBreak ==> t == t0)
      invariant BestSoFar(st, cov, gains, sol, pool, i, move, bestDelta, randomTieBreak)
    {
      move, bestDelta, t := BestStep(st, cov, gains, sol, pool, i, move, bestDelta, randomTieBreak, rng, t);
    }
  }

  /** What the best-improvement sweep knows after the rows before `n`. */
  ghost predicate BestSoFar(st: Structures, cov: seq<int>, gains: seq<int>, sol: seq<nat>, pool: seq<nat>,
                            n: nat, move: Option<Move>, bestDelta: int, randomTieBreak: bool)
    requires WellFormed(st) && |cov| == NumNodes(st) && |gains| == NumCand(st)
    requires InRange(sol, NumCand(st)) && InRange(pool, NumCand(st)) && n <= |sol|
  {
    && (move.None? ==> bestDelta == 0)
    && (forall i', j | 0 <= i' < n && 0 <= j < |pool| :: PoolDeltas(st, cov, gains, sol[i'], pool)[j] <= bestDelta)
    && (move.Some? ==> move.value.i < n && move.value.j < |pool|)
    && (move.Some? ==>
         0 < bestDelta == move.value.delta == PoolDeltas(st, cov, gains, sol[move.value.i], pool)[move.value.j])
    && (move.Some? ==> forall i', j | 0 <= i' < move.value.i && 0 <= j < |pool| ::
         PoolDeltas(st, cov, gains, sol[i'], pool)[j] < bestDelta)
    && (move.Some? && !randomTieBreak ==>
         move.value.j == ArgMax(PoolDeltas(st, cov, gains, sol[move.value.i], pool)))
  }

  /** Row `i` of the best-improvement sweep: `if max_delta > best_delta` the row's move replaces the best. */
  method BestStep(st: Structures, cov: seq<int>, gains: seq<int>, sol: seq<nat>, pool: seq<nat>, i: nat,
                  move: Option<Move>, bestDelta: int, randomTieBreak: bool, rng: nat -> nat, t0: nat)
      returns (move': Option<Move>, bestDelta': int, t: nat)
    requires WellFormed(st) && |cov| == NumNodes(st) && |gains| == NumCand(st)
    requires InRange(sol, NumCand(st)) && InRange(pool, NumCand(st)) && i < |sol|
    requires BestSoFar(st, cov, gains, sol, pool, i, move, bestDelta, randomTieBreak)
    ensures BestSoFar(st, cov, gains, sol, pool, i + 1, move', bestDelta', randomTieBreak)
    ensures t0 <= t && (!randomTieBreak ==> t == t0)
  {
    move', bestDelta', t := move, bestDelta, t0;
    var pd := PoolDeltas(st, cov, gains, sol[i], pool);
    if |pd| > 0 {
      var better, j;
      better, j, t := RowBest(pd, bestDelta, randomTieBreak, rng, t0);
      if better {
        bestDelta' := pd[j];
        move' := Some(Move(i, j, pd[j]));
      }
    }
  }

  /**
    One row of the best-improvement sweep: whether the row's largest delta
    beats `best_delta`, and then the pool position taken (`np.argmax`, or
    with `random_tie_break` a random position holding the maximum, which
    uses the draw `rng(t)`).
  */
  method RowBest(pd: seq<int>, bestDelta: int, randomTieBreak: bool, rng: nat -> nat, t0: nat)
      returns (better: bool, j: nat, t: nat)
    requires |pd| > 0
    ensures better <==> pd[ArgMax(pd)] > bestDelta
    ensures better ==> j < |pd| && pd[j] == pd[ArgMax(pd)]
    ensures better && !randomTieBreak ==> j == ArgMax(pd)
    ensures better && randomTieBreak ==>
      ArgMax(pd) in Ties(pd, pd[ArgMax(pd)]) && j == Oracle.Choice(Ties(pd, pd[ArgMax(pd)]), rng, t0)
    ensures t == if better && randomTieBreak then t0 + 1 else t0
  {
    var top := ArgMax(pd);
    var m := pd[top];
    better := m > bestDelta;
    j, t := top, t0;
    if better && randomTieBreak {
      var ties := Ties(pd, m);
      assert top in ties;
      j := Oracle.Choice(ties, rng, t0);
      t := t0 + 1;
    }
  }

  /**
    Applies a swap: `sol_indices[i_rem] = add_idx`, `pool_indices[j] = rem_idx`,
    with the coverage, potential gains and Z updated incrementally.
  */
  method ApplySwap(st: Structures, sol: array<nat>, pool: array<nat>, cov: seq<int>, gains: seq<int>, z: int, move: Move)
      returns (cov': seq<int>, gains': seq<int>, z': int)
    modifies sol, pool
    requires WellFormed(st) && sol != pool
    requires Consistent(st, sol[..], cov, gains, z) && InRange(pool[..], NumCand(st))
    requires move.i < sol.Length && move.j < pool.Length
    requires move.delta == PoolDeltas(st, cov, gains, sol[move.i], pool[..])[move.j]
    ensures sol[..] == old(sol[..])[move.i := old(pool[move.j])]
    ensures pool[..] == old(pool[..])[move.j := old(sol[move.i])]
    ensures Consistent(st, sol[..], cov', gains', z') && InRange(pool[..], NumCand(st))
    ensures z' == z + move.delta
  {
    var r := sol[move.i];
    var a := pool[move.j];
    SwapDeltaIsZChange(st, sol[..], move.i, a);
    SwapKeepsGains(st, sol[..], move.i, a);
    CoverageSwap(st, sol[..], move.i, a);
    gains' := UpdatedGains(st, cov, gains, r, a);
    cov' := SwapRows(cov, st.matrix[r], st.matrix[a]);
    sol[move.i] := a;
    pool[move.j] := r;
    z' := z + move.delta;
  }

  /** A swap between the selection and the pool keeps their joint multiset. */
  lemma SwapMultiset(s: seq<nat>, p: seq<nat>, i: nat, j: nat)
    requires i < |s| && j < |p|
    ensures multiset(s[i := p[j]]) + multiset(p[j := s[i]]) == multiset(s) + multiset(p)
  {
  }

  /** Initially the selection and the pool, a selection without duplicates, hold every row once. */
  lemma PartitionInit(sol: seq<nat>, nc: nat)
    requires NoDup(sol) && InRange(sol, nc)
    ensures forall x :: (multiset(sol) + multiset(PoolOf(sol, nc)))[x] == (if 0 <= x < nc then 1 else 0)
  {
    NoDupMultiset(sol);
    NoDupMultiset(PoolOf(sol, nc));
  }

  /**
    With every row once in the selection or the pool, a sweep without an
    improving swap leaves the solution, read back as ids, at a local optimum.
  */
  lemma OptimumOfIds(st: Structures, sol: seq<nat>, pool: seq<nat>)
    requires Valid(st) && InRange(sol, NumCand(st)) && InRange(pool, NumCand(st))
    requires forall x :: (multiset(sol) + multiset(pool))[x] == (if 0 <= x < NumCand(st) then 1 else 0)
    requires NoImprovingSwap(st, sol, pool)
    ensures LocalOptimum(st, IdsOf(st, sol))
  {
    var ids := IdsOf(st, sol);
    IdsOfRoundTrip(st, sol);
    forall i, c | 0 <= i < |ids| && c in st.candIdx && c !in ids
      ensures CalculateZ(Replace(ids, i, c), st) <= CalculateZ(ids, st)
    {
      var x := RowOf(st, c);
      forall k | 0 <= k < |sol| ensures sol[k] != x {
        RowOfInjective(st, ids[k], c);
        assert ids[k] in ids;
      }
      assert (multiset(sol) + multiset(pool))[x] == 1;
      assert multiset(pool)[x] == 1;
      var j :| 0 <= j < |pool| && pool[j] == x;
      var sol' := sol[i := pool[j]];
      IdsOfRoundTrip(st, sol');
      forall m | 0 <= m < |ids| ensures IdsOf(st, sol')[m] == Replace(ids, i, c)[m] {
        if m == i {
          RowOfInjective(st, IdsOf(st, sol')[m], c);
        }
      }
      assert IdsOf(st, sol') == Replace(ids, i, c);
      assert SwapGain(st, sol, pool, i, j) <= 0;
    }
  }

  /**
    One sweep of the `while improved` loop: strategy "first" shuffles
    `np.arange(len(sol_indices))` (`|sol|` draws) and applies the first
    improvement found; every other strategy computes the best move and only
    "best" applies it. `move` is the swap applied, if any.
  */
  method Sweep(st: Structures, sol: array<nat>, pool: array<nat>, cov: seq<int>, gains: seq<int>, z: int,
               strategy: string, randomTieBreak: bool, rng: nat -> nat, t0: nat)
      returns (move: Option<Move>, cov': seq<int>, gains': seq<int>, z': int, t: nat)
    modifies sol, pool
    requires WellFormed(st) && sol != pool
    requires Consistent(st, sol[..], cov, gains, z) && InRange(pool[..], NumCand(st))
    ensures Consistent(st, sol[..], cov', gains', z') && InRange(pool[..], NumCand(st))
    ensures t >= t0
    ensures move.Some? ==> && move.value.i < sol.Length && move.value.j < pool.Length
                           && 0 < move.value.delta
                           && sol[..] == old(sol[..])[move.value.i := old(pool[move.value.j])]
                           && pool[..] == old(pool[..])[move.value.j := old(sol[move.value.i])]
                           && z' == z + move.value.delta
    ensures move.None? ==> sol[..] == old(sol[..]) && pool[..] == old(pool[..]) && z' == z
    ensures multiset(sol[..]) + multiset(pool[..]) == old(multiset(sol[..]) + multiset(pool[..]))
    ensures strategy != "first" && strategy != "best" ==> move.None?
    ensures move.None? && (strategy == "first" || strategy == "best") ==> NoPositiveDelta(st, cov, gains, sol[..], pool[..])
  {
    t := t0;
    var found: Option<Move>;
    var apply: bool;
    if strategy == "first" {
      found, t := FirstSweep(st, sol[..], pool[..], cov, gains, rng, t);
      apply := found.Some?;
    } else {
      found, t := BestImprovement(st, sol[..], pool[..], cov, gains, randomTieBreak, rng, t);
      apply := strategy == "best" && found.Some?;
    }
    if apply {
      SwapMultiset(sol[..], pool[..], found.value.i, found.value.j);
      cov', gains', z' := ApplySwap(st, sol, pool, cov, gains, z, found.value);
      move := found;
    } else {
      cov', gains', z' := cov, gains, z;
      move := None;
    }
  }

  /**
    heuristics.py `local_search`. `rng` supplies the draws of
    `np.random.shuffle` and `np.random.choice` from `t0` on; `t` is the next
    unused draw and `iterations` the number of sweeps made.
  */
  method LocalSearch(solution: seq<int>, st: Structures, maxIter: int, strategy: string,
                     randomTieBreak: bool, rng: nat -> nat, t0: nat)
      returns (r: Result<(seq<int>, int), SearchError>, t: nat, ghost iterations: nat)
    requires Valid(st)
    ensures r.Failure? <==> exists j | 0 <= j < |solution| :: solution[j] !in st.candIdx
    ensures r.Failure? ==> r == Failure(SolutionIndices(st, solution).error)
    ensures r.Success? ==> |r.value.0| == |solution| && forall j | 0 <= j < |r.value.0| :: r.value.0[j] in st.candIdx
    ensures r.Success? ==> r.value.1 == CalculateZ(r.value.0, st)
    ensures r.Success? ==> r.value.1 >= CalculateZ(solution, st)
    ensures r.Success? && NoDup(solution) ==> NoDup(r.value.0)
    ensures r.Success? && (maxIter <= 0 || (strategy != "first" && strategy != "best")) ==> r.value.0 == solution
    ensures iterations <= if maxIter <= 0 then 0 else maxIter
    ensures r.Success? && NoDup(solution) && iterations < maxIter && (strategy == "first" || strategy == "best") ==>
      LocalOptimum(st, r.value.0)
  {
    iterations := 0;
    t := t0;
    var indices := SolutionIndices(st, solution);
    if indices.Failure? {
      r := Failure(indices.error);
      return;
    }
    var sol0 := indices.value;
    var nc := NumCand(st);
    var pool0 := PoolOf(sol0, nc);
    var sol := ToArray(sol0);
    var pool := ToArray(pool0);
    var cov := Coverage(st, sol0);
    var z := ZOf(st, cov);
    var gains := PotentialGains(st, cov);
    cov, gains, z, t, iterations := Improve(st, sol, pool, cov, gains, z, maxIter, strategy, randomTieBreak, rng, t);
    var final, rest := sol[..], pool[..];
    var ids := IdsOf(st, final);
    r := Success((ids, z));
    SearchOutcome(solution, st, sol0, final);
    if NoDup(solution) {
      SearchNoDup(solution, st, sol0, final, rest);
    }
    if iterations < maxIter && (strategy == "first" || strategy == "best") && NoDup(solution) {
      NoPositiveDeltaIsOptimal(st, final, rest, cov, gains);
      OptimumOfIds(st, final, rest);
    }
    if maxIter <= 0 || (strategy != "first" && strategy != "best") {
      IndicesOfRoundTrip(st, solution);
    }
  }

  /** A fresh array holding `s`, as `np.array(...)` builds one. */
  method ToArray(s: seq<nat>) returns (a: array<nat>)
    ensures fresh(a) && a[..] == s
  {
    a := new nat[|s|](i requires 0 <= i < |s| => s[i]);
  }

  /**
    The `while improved and iteration < max_iter` loop: sweep after sweep,
    each applying at most one improving swap, until a sweep finds none or the
    iteration budget is spent.
  */
  method Improve(st: Structures, sol: array<nat>, pool: array<nat>, cov: seq<int>, gains: seq<int>, z: int,
                 maxIter: int, strategy: string, randomTieBreak: bool, rng: nat -> nat, t0: nat)
      returns (cov': seq<int>, gains': seq<int>, z': int, t: nat, iterations: nat)
    modifies sol, pool
    requires WellFormed(st) && sol != pool
    requires Consistent(st, sol[..], cov, gains, z) && InRange(pool[..], NumCand(st))
    ensures Consistent(st, sol[..], cov', gains', z') && InRange(pool[..], NumCand(st))
    ensures multiset(sol[..]) + multiset(pool[..]) == old(multiset(sol[..]) + multiset(pool[..]))
    ensures z' >= z && t >= t0
    ensures iterations <= if maxIter <= 0 then 0 else maxIter
    ensures maxIter <= 0 || (strategy != "first" && strategy != "best") ==> sol[..] == old(sol[..])
    ensures iterations < maxIter && (strategy == "first" || strategy == "best") ==>
      NoPositiveDelta(st, cov', gains', sol[..], pool[..])
  {
    cov', gains', z', t := cov, gains, z, t0;
    ghost var m0 := multiset(sol[..]) + multiset(pool[..]);
    ghost var sol0 := sol[..];
    var improved := true;
    iterations := 0;
    while improved && iterations < maxIter
      invariant Consistent(st, sol[..], cov', gains', z') && InRange(pool[..], NumCand(st))
      invariant multiset(sol[..]) + multiset(pool[..]) == m0
      invariant z' >= z && t >= t0
      invariant (maxIter <= 0 ==> iterations == 0) && (maxIter > 0 ==> iterations <= maxIter)
      invariant (iterations == 0 || (strategy != "first" && strategy != "best")) ==> sol[..] == sol0
      invariant !improved && (strategy == "first" || strategy == "best") ==> NoPositiveDelta(st, cov', gains', sol[..], pool[..])
      decreases maxIter - iterations, improved
    {
      iterations := iterations + 1;
      var move;
      move, cov', gains', z', t := Sweep(st, sol, pool, cov', gains', z', strategy, randomTieBreak, rng, t);
      improved := move.Some?;
    }
  }

  /** What the search returns, read back as ids: `calculate_z` of the ids is the Z the search kept. */
  lemma SearchOutcome(solution: seq<int>, st: Structures, sol0: seq<nat>, sol: seq<nat>)
    requires Valid(st) && InRange(sol, NumCand(st))
    requires forall j | 0 <= j < |solution| :: solution[j] in st.candIdx
    requires sol0 == IndicesOf(st, solution)
    ensures CalculateZ(IdsOf(st, sol), st) == ZIdx(st, sol)
    ensures CalculateZ(solution, st) == ZIdx(st, sol0)
  {
    IdsOfRoundTrip(st, sol);
    CalculateZOfKnown(solution, st);
  }

  /**
    Swaps between the selection and the pool add no duplicates: for a
    solution without duplicates every row stays once in one of the two.
  */
  lemma SearchNoDup(solution: seq<int>, st: Structures, sol0: seq<nat>, sol: seq<nat>, pool: seq<nat>)
    requires Valid(st) && InRange(sol, NumCand(st)) && NoDup(solution)
    requires forall j | 0 <= j < |solution| :: solution[j] in st.candIdx
    requires sol0 == IndicesOf(st, solution)
    requires multiset(sol) + multiset(pool) == multiset(sol0) + multiset(PoolOf(sol0, NumCand(st)))
    ensures NoDup(IdsOf(st, sol))
    ensures forall x :: (multiset(sol) + multiset(pool))[x] == (if 0 <= x < NumCand(st) then 1 else 0)
  {
    IndicesOfNoDup(st, solution);
    PartitionInit(sol0, NumCand(st));
    assert forall x :: multiset(sol)[x] <= (multiset(sol) + multiset(pool))[x];
    MultiplicityNoDup(sol);
    IdsOfNoDup(st, sol);
  }
}
