/**
  The coverage model shared by every heuristic: the five structures the
  builders return, the coverage-count vector of a selection of candidate rows
  and the objective value Z computed from it.

  Rows of the matrix are candidates and columns are demand nodes. numpy keeps
  the matrix as int8 entries that are all 0 or 1, so a row is a `seq<bool>`
  here; demand and coverage are dense `int` vectors.
*/
module CoverageModel {
  import opened Vectors

  /**
    `(cov_matrix, demand_vector, cand_to_idx, node_to_idx, initial_coverage)`.
  */
  datatype Structures = Structures(
    matrix: seq<seq<bool>>,
    demand: seq<int>,
    candIdx: map<int, nat>,
    nodeIdx: map<int, nat>,
    init: seq<int>)

  function NumCand(st: Structures): nat
  {
    |st.matrix|
  }

  function NumNodes(st: Structures): nat
  {
    |st.demand|
  }

  predicate NoDup<T(==)>(s: seq<T>)
  {
    forall i, j | 0 <= i < j < |s| :: s[i] != s[j]
  }

  /** Without duplicates, every element occurs exactly once. */
  lemma {:induction false} NoDupMultiset<T>(s: seq<T>)
    requires NoDup(s)
    ensures forall x :: multiset(s)[x] == (if x in s then 1 else 0)
  {
    if |s| > 0 {
      var k := |s| - 1;
      assert NoDup(s[..k]);
      NoDupMultiset(s[..k]);
      assert s == s[..k] + [s[k]];
      assert s[k] !in s[..k];
    }
  }

  /** A sequence in which no element occurs twice has no duplicates. */
  lemma MultiplicityNoDup<T>(s: seq<T>)
    requires forall x :: multiset(s)[x] <= 1
    ensures NoDup(s)
  {
    forall i, j | 0 <= i < j < |s| ensures s[i] != s[j] {
      assert s == s[..j] + [s[j]] + s[j + 1..];
      assert multiset(s) == multiset(s[..j]) + multiset{s[j]} + multiset(s[j + 1..]);
      assert multiset(s)[s[j]] >= multiset(s[..j])[s[j]] + 1;
      assert s[i] == s[..j][i];
      assert multiset(s[..j])[s[i]] >= 1;
    }
  }

  /** Every entry of `s` is a valid index below `bound`. */
  predicate InRange(s: seq<nat>, bound: nat)
  {
    forall i | 0 <= i < |s| :: s[i] < bound
  }

  /** `m` is a bijection between its keys and the indices `0 .. size-1`. */
  ghost predicate IsIndex(m: map<int, nat>, size: nat)
  {
    && (forall k | k in m :: m[k] < size)
    && (forall a, b | a in m && b in m && m[a] == m[b] :: a == b)
    && (exists ids: seq<int> :: Enumerates(ids, m, size))
  }

  /** `ids` lists, index by index, the keys of `m` that map to `0 .. size-1`. */
  ghost predicate Enumerates(ids: seq<int>, m: map<int, nat>, size: nat)
  {
    |ids| == size && forall i | 0 <= i < size :: ids[i] in m && m[ids[i]] == i
  }

  /** The shapes agree and the initial coverage counts are not negative. */
  ghost predicate WellFormed(st: Structures)
  {
    && Rectangular(st.matrix, |st.demand|)
    && |st.init| == |st.demand|
    && (forall n | 0 <= n < |st.init| :: st.init[n] >= 0)
  }

  /** What the builders produce: well-formed structures with index maps onto the rows and columns. */
  ghost predicate Valid(st: Structures)
  {
    && WellFormed(st)
    && IsIndex(st.candIdx, NumCand(st))
    && IsIndex(st.nodeIdx, NumNodes(st))
  }

  /** `cand_to_idx[c]`: the matrix row of a known candidate id. */
  function RowOf(st: Structures, c: int): (i: nat)
    requires Valid(st) && c in st.candIdx
    ensures i < NumCand(st)
  {
    st.candIdx[c]
  }

  /** Distinct known ids have distinct rows. */
  lemma RowOfInjective(st: Structures, a: int, b: int)
    requires Valid(st) && a in st.candIdx && b in st.candIdx
    ensures RowOf(st, a) == RowOf(st, b) ==> a == b
  {
  }

  /** `{x: i for i, x in enumerate(ids)}`. */
  function IndexMap(ids: seq<int>): (m: map<int, nat>)
    requires NoDup(ids)
    ensures IsIndex(m, |ids|)
    ensures forall i | 0 <= i < |ids| :: ids[i] in m && m[ids[i]] == i
    ensures forall k | k in m :: ids[m[k]] == k
  {
    var m := map i | 0 <= i < |ids| :: ids[i] := i;
    assert Enumerates(ids, m, |ids|);
    m
  }

  /** `{v: k for k, v in m.items()}`: back from indices to ids. */
  function Invert(m: map<int, nat>, size: nat): (inv: map<nat, int>)
    requires IsIndex(m, size)
    ensures forall k | k in m :: m[k] in inv && inv[m[k]] == k
    ensures forall i | 0 <= i < size :: i in inv && inv[i] in m && m[inv[i]] == i
  {
    var inv := map k | k in m :: m[k] := k;
    assert forall i | 0 <= i < size :: i in inv && inv[i] in m && m[inv[i]] == i by {
      var ids :| Enumerates(ids, m, size);
      forall i | 0 <= i < size ensures i in inv && inv[i] in m && m[inv[i]] == i {
        assert inv[m[ids[i]]] == ids[i];
      }
    }
    inv
  }

  /** Number of selected rows (with repetition) that cover node `n`. */
  function Hits(st: Structures, sol: seq<nat>, n: nat): nat
    requires WellFormed(st) && InRange(sol, NumCand(st)) && n < NumNodes(st)
  {
    if |sol| == 0 then 0
    else Hits(st, sol[..|sol| - 1], n) + Bit(st.matrix[sol[|sol| - 1]][n])
  }

  /** `initial_coverage + cov_matrix[sol].sum(axis=0)`: the coverage count of every node. */
  function Coverage(st: Structures, sol: seq<nat>): (cov: seq<int>)
    requires WellFormed(st) && InRange(sol, NumCand(st))
    ensures |cov| == NumNodes(st)
  {
    seq(NumNodes(st), n requires 0 <= n < NumNodes(st) => st.init[n] + Hits(st, sol, n))
  }

  /** `demand_vector * (coverage > 0)`. */
  function CoveredDemand(st: Structures, cov: seq<int>): seq<int>
    requires WellFormed(st) && |cov| == NumNodes(st)
  {
    seq(|cov|, n requires 0 <= n < |cov| => if cov[n] > 0 then st.demand[n] else 0)
  }

  /** `np.sum(demand_vector[coverage > 0])`: the objective value of a coverage vector. */
  function ZOf(st: Structures, cov: seq<int>): int
    requires WellFormed(st) && |cov| == NumNodes(st)
  {
    Sum(CoveredDemand(st, cov))
  }

  /** The objective value of a selection of candidate rows, computed from scratch. */
  function ZIdx(st: Structures, sol: seq<nat>): int
    requires WellFormed(st) && InRange(sol, NumCand(st))
  {
    ZOf(st, Coverage(st, sol))
  }

  /** `demand_vector * (coverage == 0)`: the demand still uncovered. */
  function Uncovered(st: Structures, cov: seq<int>): (u: seq<int>)
    requires WellFormed(st) && |cov| == NumNodes(st)
    ensures |u| == NumNodes(st)
  {
    seq(|cov|, n requires 0 <= n < |cov| => if cov[n] == 0 then st.demand[n] else 0)
  }

  /** `cov_matrix @ uncovered_demand`: what each candidate would add if inserted. */
  function PotentialGains(st: Structures, cov: seq<int>): (g: seq<int>)
    requires WellFormed(st) && |cov| == NumNodes(st)
    ensures |g| == NumCand(st)
  {
    MatVec(st.matrix, Uncovered(st, cov))
  }

  /** `current_coverage + row`. */
  function AddRow(cov: seq<int>, row: seq<bool>): (r: seq<int>)
    requires |cov| == |row|
    ensures |r| == |cov|
  {
    seq(|cov|, n requires 0 <= n < |cov| => cov[n] + Bit(row[n]))
  }

  /** `current_coverage - rem_row + add_row`. */
  function SwapRows(cov: seq<int>, rem: seq<bool>, add: seq<bool>): (r: seq<int>)
    requires |cov| == |rem| == |add|
    ensures |r| == |cov|
  {
    seq(|cov|, n requires 0 <= n < |cov| => cov[n] - Bit(rem[n]) + Bit(add[n]))
  }

  /** Sum of the positive demands: no objective value can exceed it. */
  function PositiveDemand(st: Structures): int
  {
    Sum(seq(|st.demand|, n requires 0 <= n < |st.demand| => if st.demand[n] > 0 then st.demand[n] else 0))
  }

  ghost predicate NonNegativeDemand(st: Structures)
  {
    forall n | 0 <= n < |st.demand| :: st.demand[n] >= 0
  }

  /** A node is covered by the selection exactly when some selected row covers it. */
  lemma {:induction false} HitsPositive(st: Structures, sol: seq<nat>, n: nat)
    requires WellFormed(st) && InRange(sol, NumCand(st)) && n < NumNodes(st)
    ensures Hits(st, sol, n) > 0 <==> exists i | 0 <= i < |sol| :: st.matrix[sol[i]][n]
  {
    if |sol| > 0 {
      var k := |sol| - 1;
      HitsPositive(st, sol[..k], n);
      if Hits(st, sol[..k], n) > 0 {
        var i :| 0 <= i < k && st.matrix[sol[..k][i]][n];
        assert st.matrix[sol[i]][n];
      }
      if exists i | 0 <= i < |sol| :: st.matrix[sol[i]][n] {
        var i :| 0 <= i < |sol| && st.matrix[sol[i]][n];
        if i < k {
          assert sol[..k][i] == sol[i];
        }
      }
    }
  }

  /** Replacing the row at position `i` by `a` changes each count by the two rows alone. */
  lemma {:induction false} HitsUpdate(st: Structures, sol: seq<nat>, i: nat, a: nat, n: nat)
    requires WellFormed(st) && InRange(sol, NumCand(st)) && n < NumNodes(st)
    requires i < |sol| && a < NumCand(st)
    ensures Hits(st, sol[i := a], n) == Hits(st, sol, n) - Bit(st.matrix[sol[i]][n]) + Bit(st.matrix[a][n])
  {
    var k := |sol| - 1;
    if i < k {
      assert sol[i := a][..k] == sol[..k][i := a];
      HitsUpdate(st, sol[..k], i, a, n);
    } else {
      assert sol[i := a][..k] == sol[..k];
    }
  }

  /** A row of the selection covers only nodes whose count is at least one. */
  lemma {:induction false} HitsAtLeastOne(st: Structures, sol: seq<nat>, i: nat, n: nat)
    requires WellFormed(st) && InRange(sol, NumCand(st)) && n < NumNodes(st)
    requires i < |sol| && st.matrix[sol[i]][n]
    ensures Hits(st, sol, n) >= 1
  {
    HitsPositive(st, sol, n);
  }

  /** Adding one candidate to the selection adds its row to the coverage vector. */
  lemma CoverageAppend(st: Structures, sol: seq<nat>, c: nat)
    requires WellFormed(st) && InRange(sol, NumCand(st)) && c < NumCand(st)
    ensures Coverage(st, sol + [c]) == AddRow(Coverage(st, sol), st.matrix[c])
  {
    assert (sol + [c])[..|sol|] == sol;
  }

  /** Swapping the candidate at position `i` for `a` is `- rem_row + add_row` on the coverage vector. */
  lemma CoverageSwap(st: Structures, sol: seq<nat>, i: nat, a: nat)
    requires WellFormed(st) && InRange(sol, NumCand(st)) && i < |sol| && a < NumCand(st)
    ensures Coverage(st, sol[i := a]) == SwapRows(Coverage(st, sol), st.matrix[sol[i]], st.matrix[a])
  {
    forall n | 0 <= n < NumNodes(st)
      ensures Coverage(st, sol[i := a])[n] == SwapRows(Coverage(st, sol), st.matrix[sol[i]], st.matrix[a])[n]
    {
      HitsUpdate(st, sol, i, a, n);
    }
  }

  /** No coverage count is negative. */
  lemma CoverageNonNegative(st: Structures, sol: seq<nat>)
    requires WellFormed(st) && InRange(sol, NumCand(st))
    ensures forall n | 0 <= n < NumNodes(st) :: Coverage(st, sol)[n] >= 0
  {
  }

  /** With nothing selected the coverage vector is the initial coverage. */
  lemma CoverageEmpty(st: Structures)
    requires WellFormed(st)
    ensures Coverage(st, []) == st.init
  {
  }

  /**
    The marginal gain the greedy step reads off `cov_matrix @ uncovered_demand`
    is exactly the increase of Z when the candidate is added.
  */
  lemma AddRowGain(st: Structures, sol: seq<nat>, c: nat)
    requires WellFormed(st) && InRange(sol, NumCand(st)) && c < NumCand(st)
    ensures ZIdx(st, sol + [c]) == ZIdx(st, sol) + PotentialGains(st, Coverage(st, sol))[c]
  {
    var cov := Coverage(st, sol);
    CoverageAppend(st, sol, c);
    CoverageNonNegative(st, sol);
    var x := CoveredDemand(st, AddRow(cov, st.matrix[c]));
    var a := CoveredDemand(st, cov);
    var b := Masked(st.matrix[c], Uncovered(st, cov));
    assert forall n | 0 <= n < |x| :: x[n] == a[n] + b[n];
    SumAdd(x, a, b);
  }

  /** Z never exceeds the sum of the positive demands. */
  lemma ZAtMostPositiveDemand(st: Structures, cov: seq<int>)
    requires WellFormed(st) && |cov| == NumNodes(st)
    ensures ZOf(st, cov) <= PositiveDemand(st)
  {
    SumMono(CoveredDemand(st, cov),
      seq(|st.demand|, n requires 0 <= n < |st.demand| => if st.demand[n] > 0 then st.demand[n] else 0));
  }

  /** With non-negative demands, Z lies between zero and the total demand. */
  lemma ZWithinTotalDemand(st: Structures, cov: seq<int>)
    requires WellFormed(st) && |cov| == NumNodes(st) && NonNegativeDemand(st)
    ensures 0 <= ZOf(st, cov) <= Sum(st.demand)
  {
    var zero := seq(|cov|, _ => 0);
    SumZero(zero);
    SumMono(zero, CoveredDemand(st, cov));
    SumMono(CoveredDemand(st, cov), st.demand);
  }
}
