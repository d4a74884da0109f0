/**
  The incremental algebra of `local_search`: the Z change of swapping the
  selected row `r` for the pool row `a` is
  `potential_gains[a] - loss(r) + recoveries(r)[a]`, and after the swap the
  potential-gain vector is updated by `cov_matrix @ (lost - gained)`.
*/
module SwapDelta {
  import opened Vectors
  import opened CoverageModel

  /** `is_unique_mask`: the nodes covered exactly once, and by row `r`. */
  function UniqueMask(st: Structures, cov: seq<int>, r: nat): (u: seq<bool>)
    requires WellFormed(st) && |cov| == NumNodes(st) && r < NumCand(st)
    ensures |u| == NumNodes(st)
  {
    seq(|cov|, n requires 0 <= n < |cov| => cov[n] == 1 && st.matrix[r][n])
  }

  /** `loss = np.sum(demand_vector[is_unique_mask])`. */
  function Loss(st: Structures, cov: seq<int>, r: nat): int
    requires WellFormed(st) && |cov| == NumNodes(st) && r < NumCand(st)
  {
    Dot(UniqueMask(st, cov, r), st.demand)
  }

  /** `unique_demand_vector = demand_vector * is_unique_mask`: the demand only `r` covers. */
  function UniqueDemand(st: Structures, cov: seq<int>, r: nat): (v: seq<int>)
    requires WellFormed(st) && |cov| == NumNodes(st) && r < NumCand(st)
    ensures |v| == NumNodes(st)
  {
    Masked(UniqueMask(st, cov, r), st.demand)
  }

  /** `recoveries = cov_matrix @ unique_demand_vector`. */
  function Recoveries(st: Structures, cov: seq<int>, r: nat): (rec: seq<int>)
    requires WellFormed(st) && |cov| == NumNodes(st) && r < NumCand(st)
    ensures |rec| == NumCand(st)
  {
    MatVec(st.matrix, UniqueDemand(st, cov, r))
  }

  /** `pool_deltas = (potential_gains - loss + recoveries)[pool_indices]`. */
  function PoolDeltas(st: Structures, cov: seq<int>, gains: seq<int>, r: nat, pool: seq<nat>): (pd: seq<int>)
    requires WellFormed(st) && |cov| == NumNodes(st) && r < NumCand(st)
    requires |gains| == NumCand(st) && InRange(pool, NumCand(st))
    ensures |pd| == |pool|
  {
    var loss := Loss(st, cov, r);
    var rec := Recoveries(st, cov, r);
    seq(|pool|, j requires 0 <= j < |pool| => gains[pool[j]] - loss + rec[pool[j]])
  }

  /**
    `gained_demand_vector`: the demand of nodes that `a` covers and that were
    uncovered or covered only by `r`.
  */
  function GainedDemand(st: Structures, cov: seq<int>, r: nat, a: nat): (v: seq<int>)
    requires WellFormed(st) && |cov| == NumNodes(st) && r < NumCand(st) && a < NumCand(st)
    ensures |v| == NumNodes(st)
  {
    var u := UniqueMask(st, cov, r);
    seq(|cov|, n requires 0 <= n < |cov| => if (cov[n] == 0 || u[n]) && st.matrix[a][n] then st.demand[n] else 0)
  }

  /** `potential_gains += cov_matrix @ (lost_demand_vector - gained_demand_vector)`. */
  function UpdatedGains(st: Structures, cov: seq<int>, gains: seq<int>, r: nat, a: nat): (g: seq<int>)
    requires WellFormed(st) && |cov| == NumNodes(st) && r < NumCand(st) && a < NumCand(st)
    requires |gains| == NumCand(st)
    ensures |g| == NumCand(st)
  {
    Add(gains, MatVec(st.matrix, Sub(UniqueDemand(st, cov, r), GainedDemand(st, cov, r, a))))
  }

  /** A selected row covers each of its nodes at least once. */
  lemma CoverageAtLeastRow(st: Structures, sol: seq<nat>, i: nat)
    requires WellFormed(st) && InRange(sol, NumCand(st)) && i < |sol|
    ensures forall n | 0 <= n < NumNodes(st) :: Coverage(st, sol)[n] >= Bit(st.matrix[sol[i]][n])
  {
    forall n | 0 <= n < NumNodes(st) ensures Coverage(st, sol)[n] >= Bit(st.matrix[sol[i]][n]) {
      CoverageNonNegative(st, sol);
      if st.matrix[sol[i]][n] {
        HitsAtLeastOne(st, sol, i, n);
      }
    }
  }

  /**
    The swap delta is exact: replacing the `i`-th selected row by `a` changes
    Z by `potential_gains[a] - loss + recoveries[a]`.
  */
  lemma SwapDeltaIsZChange(st: Structures, sol: seq<nat>, i: nat, a: nat)
    requires WellFormed(st) && InRange(sol, NumCand(st)) && i < |sol| && a < NumCand(st)
    ensures var cov := Coverage(st, sol);
      ZIdx(st, sol[i := a]) ==
        ZIdx(st, sol) + PotentialGains(st, cov)[a] - Loss(st, cov, sol[i]) + Recoveries(st, cov, sol[i])[a]
  {
    var cov := Coverage(st, sol);
    var r := sol[i];
    var cov' := Coverage(st, sol[i := a]);
    CoverageSwap(st, sol, i, a);
    CoverageNonNegative(st, sol);
    CoverageAtLeastRow(st, sol, i);
    var x := CoveredDemand(st, cov');
    var A := CoveredDemand(st, cov);
    var B := Masked(st.matrix[a], Uncovered(st, cov));
    var C := Masked(UniqueMask(st, cov, r), st.demand);
    var D := Masked(st.matrix[a], UniqueDemand(st, cov, r));
    forall n | 0 <= n < NumNodes(st) ensures x[n] == A[n] + B[n] - C[n] + D[n] {
      assert cov'[n] == cov[n] - Bit(st.matrix[r][n]) + Bit(st.matrix[a][n]);
      assert cov[n] >= Bit(st.matrix[r][n]) && cov[n] >= 0;
    }
    SumLinear(x, A, B, C, D);
  }

  /**
    The potential-gain update is exact: after the swap, the incrementally
    updated vector equals `cov_matrix @ uncovered_demand` recomputed for the
    new coverage.
  */
  lemma SwapKeepsGains(st: Structures, sol: seq<nat>, i: nat, a: nat)
    requires WellFormed(st) && InRange(sol, NumCand(st)) && i < |sol| && a < NumCand(st)
    ensures var cov := Coverage(st, sol);
      PotentialGains(st, Coverage(st, sol[i := a])) == UpdatedGains(st, cov, PotentialGains(st, cov), sol[i], a)
  {
    var cov := Coverage(st, sol);
    var r := sol[i];
    var cov' := Coverage(st, sol[i := a]);
    CoverageSwap(st, sol, i, a);
    CoverageNonNegative(st, sol);
    CoverageAtLeastRow(st, sol, i);
    var u := Uncovered(st, cov);
    var u' := Uncovered(st, cov');
    var net := Sub(UniqueDemand(st, cov, r), GainedDemand(st, cov, r, a));
    forall n | 0 <= n < NumNodes(st) ensures u'[n] == u[n] + net[n] {
      assert cov'[n] == cov[n] - Bit(st.matrix[r][n]) + Bit(st.matrix[a][n]);
      assert cov[n] >= Bit(st.matrix[r][n]) && cov[n] >= 0;
    }
    var lhs := PotentialGains(st, cov');
    var rhs := UpdatedGains(st, cov, PotentialGains(st, cov), r, a);
    forall c | 0 <= c < NumCand(st) ensures lhs[c] == rhs[c] {
      DotAdd(st.matrix[c], u', u, net);
    }
  }
}
