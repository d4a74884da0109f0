/**
  `calculate_z`: the canonical objective value of a solution given by ids,
  and its meaning as the demand of the nodes that the initial coverage or some
  selected candidate covers.
*/
module Objective {
  import opened Vectors
  import opened CoverageModel

  /** `[cand_to_idx[c] for c in solution if c in cand_to_idx]`. */
  function KnownIndices(st: Structures, solution: seq<int>): (idx: seq<nat>)
    requires Valid(st)
    ensures InRange(idx, NumCand(st))
    ensures |idx| <= |solution|
  {
    if |solution| == 0 then []
    else
      var rest := KnownIndices(st, solution[..|solution| - 1]);
      var c := solution[|solution| - 1];
      if c in st.candIdx then rest + [RowOf(st, c)] else rest
  }

  /** `[cand_to_idx[c] for c in solution]` for a solution whose ids are all known. */
  function IndicesOf(st: Structures, solution: seq<int>): (idx: seq<nat>)
    requires Valid(st)
    requires forall j | 0 <= j < |solution| :: solution[j] in st.candIdx
    ensures |idx| == |solution| && InRange(idx, NumCand(st))
  {
    seq(|solution|, j requires 0 <= j < |solution| => RowOf(st, solution[j]))
  }

  /** `[idx_to_cand[i] for i in idx]`. */
  function IdsOf(st: Structures, idx: seq<nat>): (ids: seq<int>)
    requires Valid(st) && InRange(idx, NumCand(st))
    ensures |ids| == |idx|
    ensures forall j | 0 <= j < |ids| :: ids[j] in st.candIdx && RowOf(st, ids[j]) == idx[j]
  {
    var inv := Invert(st.candIdx, NumCand(st));
    seq(|idx|, j requires 0 <= j < |idx| => inv[idx[j]])
  }

  /** heuristics.py `calculate_z`. */
  function CalculateZ(solution: seq<int>, st: Structures): int
    requires Valid(st)
  {
    var idx := KnownIndices(st, solution);
    if |idx| == 0 then
      // only the initial coverage
      ZOf(st, st.init)
    else
      ZOf(st, Coverage(st, idx))
  }

  /** Node `n` is covered initially or by a selected id that has a matrix row. */
  ghost predicate NodeCovered(st: Structures, solution: seq<int>, n: nat)
    requires Valid(st) && n < NumNodes(st)
  {
    || st.init[n] > 0
    || exists j | 0 <= j < |solution| :: solution[j] in st.candIdx && st.matrix[RowOf(st, solution[j])][n]
  }

  /** Reference objective: the total demand of the covered nodes. */
  ghost function CoveredDemandOf(st: Structures, solution: seq<int>): int
    requires Valid(st)
  {
    Sum(seq(NumNodes(st), n requires 0 <= n < NumNodes(st) =>
      if NodeCovered(st, solution, n) then st.demand[n] else 0))
  }

  /** The known indices are exactly the row indices of the solution's known ids. */
  lemma {:induction false} KnownIndicesMembers(st: Structures, solution: seq<int>)
    requires Valid(st)
    ensures forall x :: x in KnownIndices(st, solution) <==>
      exists j | 0 <= j < |solution| :: solution[j] in st.candIdx && RowOf(st, solution[j]) == x
  {
    if |solution| > 0 {
      var k := |solution| - 1;
      KnownIndicesMembers(st, solution[..k]);
      forall x ensures x in KnownIndices(st, solution) <==>
        exists j | 0 <= j < |solution| :: solution[j] in st.candIdx && RowOf(st, solution[j]) == x
      {
        if exists j | 0 <= j < |solution| :: solution[j] in st.candIdx && RowOf(st, solution[j]) == x {
          var j :| 0 <= j < |solution| && solution[j] in st.candIdx && RowOf(st, solution[j]) == x;
          if j < k {
            assert solution[..k][j] == solution[j];
          }
        }
        if x in KnownIndices(st, solution[..k]) {
          var j :| 0 <= j < k && solution[..k][j] in st.candIdx && RowOf(st, solution[..k][j]) == x;
          assert solution[j] == solution[..k][j];
        }
      }
    }
  }

  /** `calculate_z` computes the reference objective. */
  lemma CalculateZIsCoveredDemand(solution: seq<int>, st: Structures)
    requires Valid(st)
    ensures CalculateZ(solution, st) == CoveredDemandOf(st, solution)
  {
    var idx := KnownIndices(st, solution);
    CoverageEmpty(st);
    assert CalculateZ(solution, st) == ZOf(st, Coverage(st, idx));
    KnownIndicesMembers(st, solution);
    var cov := Coverage(st, idx);
    var want := seq(NumNodes(st), n requires 0 <= n < NumNodes(st) =>
      if NodeCovered(st, solution, n) then st.demand[n] else 0);
    forall n | 0 <= n < NumNodes(st) ensures CoveredDemand(st, cov)[n] == want[n] {
      HitsPositive(st, idx, n);
      if exists i | 0 <= i < |idx| :: st.matrix[idx[i]][n] {
        var i :| 0 <= i < |idx| && st.matrix[idx[i]][n];
        assert idx[i] in idx;
        var j :| 0 <= j < |solution| && solution[j] in st.candIdx && RowOf(st, solution[j]) == idx[i];
        assert NodeCovered(st, solution, n);
      }
      if exists j | 0 <= j < |solution| :: solution[j] in st.candIdx && st.matrix[RowOf(st, solution[j])][n] {
        var j :| 0 <= j < |solution| && solution[j] in st.candIdx && st.matrix[RowOf(st, solution[j])][n];
        var x := RowOf(st, solution[j]);
        assert x in idx;
        var i :| 0 <= i < |idx| && idx[i] == x;
        assert Hits(st, idx, n) > 0;
      }
    }
    assert CoveredDemand(st, cov) == want;
  }

  /**
    Only the set of known ids matters: order, repetitions and ids without a
    matrix row do not change `calculate_z`.
  */
  lemma CalculateZSetSemantics(s1: seq<int>, s2: seq<int>, st: Structures)
    requires Valid(st)
    requires forall c | c in st.candIdx :: (c in s1 <==> c in s2)
    ensures CalculateZ(s1, st) == CalculateZ(s2, st)
  {
    CalculateZIsCoveredDemand(s1, st);
    CalculateZIsCoveredDemand(s2, st);
    forall n | 0 <= n < NumNodes(st) ensures NodeCovered(st, s1, n) == NodeCovered(st, s2, n) {
      if exists j | 0 <= j < |s1| :: s1[j] in st.candIdx && st.matrix[RowOf(st, s1[j])][n] {
        var j :| 0 <= j < |s1| && s1[j] in st.candIdx && st.matrix[RowOf(st, s1[j])][n];
        assert s1[j] in s1;
        var j2 :| 0 <= j2 < |s2| && s2[j2] == s1[j];
      }
      if exists j | 0 <= j < |s2| :: s2[j] in st.candIdx && st.matrix[RowOf(st, s2[j])][n] {
        var j :| 0 <= j < |s2| && s2[j] in st.candIdx && st.matrix[RowOf(st, s2[j])][n];
        assert s2[j] in s2;
        var j1 :| 0 <= j1 < |s1| && s1[j1] == s2[j];
      }
    }
    assert seq(NumNodes(st), n requires 0 <= n < NumNodes(st) => if NodeCovered(st, s1, n) then st.demand[n] else 0)
        == seq(NumNodes(st), n requires 0 <= n < NumNodes(st) => if NodeCovered(st, s2, n) then st.demand[n] else 0);
  }

  /** A solution with no known id (the empty one included) scores the initial coverage alone. */
  lemma CalculateZInitialOnly(solution: seq<int>, st: Structures)
    requires Valid(st)
    requires forall j | 0 <= j < |solution| :: solution[j] !in st.candIdx
    ensures CalculateZ(solution, st) == CalculateZ([], st)
    ensures CalculateZ([], st) == Sum(seq(NumNodes(st), n requires 0 <= n < NumNodes(st) =>
      if st.init[n] > 0 then st.demand[n] else 0))
  {
    CalculateZSetSemantics(solution, [], st);
    CoverageEmpty(st);
    assert KnownIndices(st, []) == [];
    assert CoveredDemand(st, st.init) == seq(NumNodes(st), n requires 0 <= n < NumNodes(st) =>
      if st.init[n] > 0 then st.demand[n] else 0);
  }

  /** For a solution of known ids, `calculate_z` is Z of their rows. */
  lemma {:induction false} CalculateZOfKnown(solution: seq<int>, st: Structures)
    requires Valid(st)
    requires forall j | 0 <= j < |solution| :: solution[j] in st.candIdx
    ensures KnownIndices(st, solution) == IndicesOf(st, solution)
    ensures CalculateZ(solution, st) == ZIdx(st, IndicesOf(st, solution))
  {
    if |solution| > 0 {
      var k := |solution| - 1;
      CalculateZOfKnown(solution[..k], st);
      assert IndicesOf(st, solution) == IndicesOf(st, solution[..k]) + [RowOf(st, solution[k])];
    }
    CoverageEmpty(st);
  }

  /** Ids read back from row indices give those indices again. */
  lemma IdsOfRoundTrip(st: Structures, idx: seq<nat>)
    requires Valid(st) && InRange(idx, NumCand(st))
    ensures forall j | 0 <= j < |idx| :: IdsOf(st, idx)[j] in st.candIdx
    ensures IndicesOf(st, IdsOf(st, idx)) == idx
    ensures CalculateZ(IdsOf(st, idx), st) == ZIdx(st, idx)
  {
    CalculateZOfKnown(IdsOf(st, idx), st);
  }

  /** Row indices of known ids, read back as ids, give the ids again. */
  lemma IndicesOfRoundTrip(st: Structures, solution: seq<int>)
    requires Valid(st)
    requires forall j | 0 <= j < |solution| :: solution[j] in st.candIdx
    ensures IdsOf(st, IndicesOf(st, solution)) == solution
  {
    var back := IdsOf(st, IndicesOf(st, solution));
    forall j | 0 <= j < |solution| ensures back[j] == solution[j] {
      assert RowOf(st, back[j]) == RowOf(st, solution[j]);
      RowOfInjective(st, back[j], solution[j]);
    }
  }

  /** `calculate_z` never exceeds the positive demand; with non-negative demands it is at most the total. */
  lemma CalculateZBounds(solution: seq<int>, st: Structures)
    requires Valid(st)
    ensures CalculateZ(solution, st) <= PositiveDemand(st)
    ensures NonNegativeDemand(st) ==> 0 <= CalculateZ(solution, st) <= Sum(st.demand)
  {
    var idx := KnownIndices(st, solution);
    CoverageEmpty(st);
    ZAtMostPositiveDemand(st, Coverage(st, idx));
    if NonNegativeDemand(st) {
      ZWithinTotalDemand(st, Coverage(st, idx));
    }
  }

  /** Distinct row indices read back as distinct ids. */
  lemma IdsOfNoDup(st: Structures, idx: seq<nat>)
    requires Valid(st) && InRange(idx, NumCand(st)) && NoDup(idx)
    ensures NoDup(IdsOf(st, idx))
  {
  }

  /** Distinct ids with matrix rows have distinct row indices. */
  lemma IndicesOfNoDup(st: Structures, solution: seq<int>)
    requires Valid(st)
    requires forall j | 0 <= j < |solution| :: solution[j] in st.candIdx
    requires NoDup(solution)
    ensures NoDup(IndicesOf(st, solution))
  {
    forall i, j | 0 <= i < j < |solution| ensures IndicesOf(st, solution)[i] != IndicesOf(st, solution)[j] {
      RowOfInjective(st, solution[i], solution[j]);
    }
  }
}
