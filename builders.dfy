/**
  The three builders of the coverage model: `build_coverage_map` groups the
  within-threshold distance rows by origin, `build_sparse_structures` turns a
  coverage map into the candidate x node matrix, and
  `build_sparse_matrix_from_df` builds the same matrix straight from the
  distance rows. Both matrix builders also fill the demand vector and the
  initial-coverage vector.
*/
module Builders {
  import opened Wrappers
  import opened Vectors
  import opened CoverageModel

  /**
    One row of the distance table: origin, destination, and whether the
    distance (`distancia <= max_dist`) and the travel time
    (`tempo <= max_time`) are within the coverage threshold.
  */
  datatype DistanceRow = DistanceRow(origin: int, dest: int, withinDist: bool, withinTime: bool)

  /** The threshold test that `use_km` selects. */
  function Within(r: DistanceRow, useKm: bool): bool
  {
    if useKm then r.withinDist else r.withinTime
  }

  /** Some within-threshold row goes from `o` to `d`. */
  ghost predicate Reaches(df: seq<DistanceRow>, useKm: bool, o: int, d: int)
  {
    exists r | r in df :: Within(r, useKm) && r.origin == o && r.dest == d
  }

  /** The origins of the within-threshold rows. */
  function Origins(df: seq<DistanceRow>, useKm: bool): set<int>
  {
    set r | r in df && Within(r, useKm) :: r.origin
  }

  /** The destinations of the within-threshold rows from `o`. */
  function Dests(df: seq<DistanceRow>, useKm: bool, o: int): set<int>
  {
    set r | r in df && Within(r, useKm) && r.origin == o :: r.dest
  }

  /** `valid_pairs.groupby('origem')['destino'].apply(set).to_dict()`. */
  function GroupByOrigin(df: seq<DistanceRow>, useKm: bool): map<int, set<int>>
  {
    map o | o in Origins(df, useKm) :: Dests(df, useKm, o)
  }

  /** The ids of an optional candidate list (`None` stands for no list). */
  function CandidateSet(candidates: Option<seq<int>>): set<int>
  {
    if candidates.Some? then set c | c in candidates.value else {}
  }

  /**
    What `build_coverage_map` returns: the grouped within-threshold
    destinations, plus each listed candidate covering itself.
  */
  function CoverageMapOf(df: seq<DistanceRow>, useKm: bool, candidates: Option<seq<int>>): map<int, set<int>>
  {
    map o | o in Origins(df, useKm) + CandidateSet(candidates) ::
      Dests(df, useKm, o) + (if o in CandidateSet(candidates) then {o} else {})
  }

  /** heuristics.py `build_coverage_map`. */
  method BuildCoverageMap(df: seq<DistanceRow>, useKm: bool, candidates: Option<seq<int>>)
    returns (coverage: map<int, set<int>>)
    ensures coverage == CoverageMapOf(df, useKm, candidates)
  {
    coverage := GroupByOrigin(df, useKm);
    CoverageMapWithoutCandidates(df, useKm);
    if candidates.Some? {
      var cands := candidates.value;
      assert cands[..0] == [];
      for i := 0 to |cands|
        invariant coverage == CoverageMapOf(df, useKm, Some(cands[..i]))
      {
        var j := cands[i];
        assert cands[..i + 1] == cands[..i] + [j];
        CoverageMapStep(df, useKm, cands[..i], j);
        if j !in coverage {
          coverage := coverage[j := {}];
        }
        coverage := coverage[j := coverage[j] + {j}];
      }
      assert cands[..|cands|] == cands;
    }
  }

  /** Without candidates (or with an empty list) the coverage map is the grouping alone. */
  lemma CoverageMapWithoutCandidates(df: seq<DistanceRow>, useKm: bool)
    ensures CoverageMapOf(df, useKm, None) == GroupByOrigin(df, useKm)
    ensures CoverageMapOf(df, useKm, Some([])) == GroupByOrigin(df, useKm)
  {
    assert CandidateSet(Some([])) == {} && CandidateSet(None) == {};
    assert CoverageMapOf(df, useKm, None).Keys == GroupByOrigin(df, useKm).Keys;
    forall o | o in GroupByOrigin(df, useKm)
      ensures CoverageMapOf(df, useKm, None)[o] == GroupByOrigin(df, useKm)[o]
    {
      assert Dests(df, useKm, o) + {} == Dests(df, useKm, o);
    }
    assert CoverageMapOf(df, useKm, Some([])).Keys == GroupByOrigin(df, useKm).Keys;
  }

  /** One more candidate adds itself to its entry, creating the entry when missing. */
  lemma CoverageMapStep(df: seq<DistanceRow>, useKm: bool, cs: seq<int>, j: int)
    ensures var before := CoverageMapOf(df, useKm, Some(cs));
      CoverageMapOf(df, useKm, Some(cs + [j])) ==
        before[j := (if j in before then before[j] else {}) + {j}]
  {
    var before := CoverageMapOf(df, useKm, Some(cs));
    var after := CoverageMapOf(df, useKm, Some(cs + [j]));
    var want := before[j := (if j in before then before[j] else {}) + {j}];
    assert CandidateSet(Some(cs + [j])) == CandidateSet(Some(cs)) + {j};
    assert after.Keys == want.Keys;
    forall o | o in after ensures after[o] == want[o] {
      if o == j {
        if j !in before {
          DestsHaveOrigin(df, useKm, j);
          assert Dests(df, useKm, j) == {};
        }
      } else {
        assert o in before && after[o] == before[o];
      }
    }
  }

  /** Only an origin of some within-threshold row has destinations. */
  lemma DestsHaveOrigin(df: seq<DistanceRow>, useKm: bool, o: int)
    ensures forall d | d in Dests(df, useKm, o) :: o in Origins(df, useKm)
  {
    forall d | d in Dests(df, useKm, o) ensures o in Origins(df, useKm) {
      var r :| r in df && Within(r, useKm) && r.origin == o && r.dest == d;
    }
  }

  /** An origin is a key of the coverage map exactly when it has a within-threshold row or is a listed candidate. */
  lemma CoverageMapKeys(df: seq<DistanceRow>, useKm: bool, candidates: Option<seq<int>>, o: int)
    ensures o in CoverageMapOf(df, useKm, candidates) <==>
      (exists d :: Reaches(df, useKm, o, d)) || (candidates.Some? && o in candidates.value)
  {
    if exists d :: Reaches(df, useKm, o, d) {
      var d :| Reaches(df, useKm, o, d);
      var r :| r in df && Within(r, useKm) && r.origin == o && r.dest == d;
      assert o in Origins(df, useKm);
    }
    if o in Origins(df, useKm) {
      var r :| r in df && Within(r, useKm) && r.origin == o;
      assert Reaches(df, useKm, o, r.dest);
    }
  }

  /**
    `d` is covered from `o` exactly when a within-threshold row goes from `o`
    to `d`, or `o` is a listed candidate and `d` is `o` itself.
  */
  lemma CoverageMapCovers(df: seq<DistanceRow>, useKm: bool, candidates: Option<seq<int>>, o: int, d: int)
    requires o in CoverageMapOf(df, useKm, candidates)
    ensures d in CoverageMapOf(df, useKm, candidates)[o] <==>
      Reaches(df, useKm, o, d) || (candidates.Some? && o in candidates.value && d == o)
  {
    if Reaches(df, useKm, o, d) {
      var r :| r in df && Within(r, useKm) && r.origin == o && r.dest == d;
      assert d in Dests(df, useKm, o);
    }
  }

  /** Number of entries `(i, n)` in the coordinate lists `rows`, `cols`. */
  function CooCount(rows: seq<nat>, cols: seq<nat>, i: nat, n: nat): nat
    requires |rows| == |cols|
  {
    if |rows| == 0 then 0
    else
      var k := |rows| - 1;
      CooCount(rows[..k], cols[..k], i, n) + (if rows[k] == i && cols[k] == n then 1 else 0)
  }

  /**
    `coo_matrix((data, (rows, cols)), shape).tocsr()` with every datum 1:
    duplicate coordinates are summed.
  */
  function CooToDense(rows: seq<nat>, cols: seq<nat>, numCand: nat, numNodes: nat): (m: seq<seq<nat>>)
    requires |rows| == |cols|
    ensures |m| == numCand && forall i | 0 <= i < numCand :: |m[i]| == numNodes
  {
    seq(numCand, i requires 0 <= i < numCand =>
      seq(numNodes, n requires 0 <= n < numNodes => CooCount(rows, cols, i, n)))
  }

  /** The 0/1 matrix whose entry is set where the dense counts are positive. */
  function Nonzero(m: seq<seq<nat>>, numNodes: nat): (b: seq<seq<bool>>)
    requires forall i | 0 <= i < |m| :: |m[i]| == numNodes
    ensures |b| == |m| && Rectangular(b, numNodes)
  {
    seq(|m|, i requires 0 <= i < |m| => seq(numNodes, n requires 0 <= n < numNodes => m[i][n] > 0))
  }

  /** The demand vector: `demand_dict[n]` at a node's index. */
  ghost predicate DemandFrom(demand: seq<int>, demandDict: map<int, int>, nodes: seq<int>)
  {
    |demand| == |nodes| &&
    forall n | 0 <= n < |nodes| :: demand[n] == (if nodes[n] in demandDict then demandDict[nodes[n]] else 0)
  }

  /** The initial coverage: 1 exactly at the pre-covered nodes. */
  ghost predicate InitFrom(init: seq<int>, preCovered: set<int>, nodes: seq<int>)
  {
    |init| == |nodes| &&
    forall n | 0 <= n < |nodes| :: init[n] == Bit(nodes[n] in preCovered)
  }

  /** The demand loop shared by both matrix builders (heuristics.py:65-68 and 128-131). */
  method DemandVector(demandDict: map<int, int>, nodes: seq<int>) returns (demand: seq<int>)
    requires NoDup(nodes)
    ensures DemandFrom(demand, demandDict, nodes)
  {
    var nodeIdx := IndexMap(nodes);
    var v := new int[|nodes|](_ => 0);
    var todo := demandDict.Keys;
    while exists n :: n in todo
      invariant todo <= demandDict.Keys
      invariant forall m | 0 <= m < |nodes| ::
        v[m] == (if nodes[m] in demandDict && nodes[m] !in todo then demandDict[nodes[m]] else 0)
      decreases |todo|
    {
      var n :| n in todo;
      if n in nodeIdx {
        v[nodeIdx[n]] := demandDict[n];
      }
      todo := todo - {n};
    }
    demand := v[..];
  }

  /** The initial-coverage loop shared by both matrix builders (heuristics.py:71-75 and 133-137). */
  method InitialCoverage(preCovered: set<int>, nodes: seq<int>) returns (init: seq<int>)
    requires NoDup(nodes)
    ensures InitFrom(init, preCovered, nodes)
  {
    var nodeIdx := IndexMap(nodes);
    var v := new int[|nodes|](_ => 0);
    var todo := preCovered;
    while exists n :: n in todo
      invariant todo <= preCovered
      invariant forall m | 0 <= m < |nodes| :: v[m] == Bit(nodes[m] in preCovered && nodes[m] !in todo)
      decreases |todo|
    {
      var n :| n in todo;
      if n in nodeIdx {
        v[nodeIdx[n]] := 1;
      }
      todo := todo - {n};
    }
    init := v[..];
  }

  /** The matrix `build_sparse_structures` builds: candidate `i` covers node `n` per the coverage map. */
  function MapMatrix(coverageMap: map<int, set<int>>, candidates: seq<int>, nodes: seq<int>): (m: seq<seq<bool>>)
    ensures |m| == |candidates| && Rectangular(m, |nodes|)
  {
    seq(|candidates|, i requires 0 <= i < |candidates| =>
      seq(|nodes|, n requires 0 <= n < |nodes| =>
        candidates[i] in coverageMap && nodes[n] in coverageMap[candidates[i]]))
  }

  /**
    The inner loop of `build_sparse_structures`: one coordinate entry in row
    `cIdx` for each covered id that is a node.
  */
  method AppendCovered(rows: seq<nat>, cols: seq<nat>, cIdx: nat, covered: set<int>, nodes: seq<int>)
    returns (rows': seq<nat>, cols': seq<nat>)
    requires |rows| == |cols| && NoDup(nodes)
    ensures |rows'| == |cols'|
    ensures forall ci, n | 0 <= ci && 0 <= n < |nodes| ::
      CooCount(rows', cols', ci, n) == CooCount(rows, cols, ci, n) + Bit(ci == cIdx && nodes[n] in covered)
  {
    var nodeIdx := IndexMap(nodes);
    rows', cols' := rows, cols;
    var todo, done := covered, {};
    while exists n :: n in todo
      invariant todo + done == covered && todo !! done
      invariant |rows'| == |cols'|
      invariant forall ci, n | 0 <= ci && 0 <= n < |nodes| ::
        CooCount(rows', cols', ci, n) == CooCount(rows, cols, ci, n) + (if ci == cIdx && nodes[n] in done then 1 else 0)
      decreases |todo|
    {
      var n :| n in todo;
      if n in nodeIdx {
        forall ci, m | 0 <= ci && 0 <= m < |nodes|
          ensures CooCount(rows' + [cIdx], cols' + [nodeIdx[n]], ci, m) ==
            CooCount(rows, cols, ci, m) + (if ci == cIdx && nodes[m] in done + {n} then 1 else 0)
        {
          CooCountSnoc(rows', cols', cIdx, nodeIdx[n], ci, m);
        }
        rows' := rows' + [cIdx];
        cols' := cols' + [nodeIdx[n]];
      }
      todo, done := todo - {n}, done + {n};
    }
  }

  /** The coordinate lists of `build_sparse_structures`: one entry per covered (candidate, node) pair. */
  method MapCoo(coverageMap: map<int, set<int>>, candidates: seq<int>, nodes: seq<int>)
    returns (rows: seq<nat>, cols: seq<nat>)
    requires NoDup(candidates) && NoDup(nodes)
    ensures |rows| == |cols|
    ensures forall ci, n | 0 <= ci < |candidates| && 0 <= n < |nodes| ::
      CooCount(rows, cols, ci, n) == Bit(MapMatrix(coverageMap, candidates, nodes)[ci][n])
  {
    var candIdx := IndexMap(candidates);
    rows, cols := [], [];
    for i := 0 to |candidates|
      invariant |rows| == |cols|
      invariant forall ci, n | 0 <= ci < |candidates| && 0 <= n < |nodes| ::
        CooCount(rows, cols, ci, n) == Bit(ci < i && MapMatrix(coverageMap, candidates, nodes)[ci][n])
    {
      var c := candidates[i];
      assert candIdx[c] == i;
      if c in coverageMap {
        rows, cols := AppendCovered(rows, cols, candIdx[c], coverageMap[c], nodes);
      }
    }
  }

  /**
    heuristics.py `build_sparse_structures`. `counts` is the CSR matrix before
    it is read as 0/1: the sum of the coordinate entries at each position.
  */
  method BuildSparseStructures(coverageMap: map<int, set<int>>, demandDict: map<int, int>,
                               candidates: seq<int>, nodes: seq<int>, preCovered: set<int>)
    returns (st: Structures, ghost counts: seq<seq<nat>>)
    requires NoDup(candidates) && NoDup(nodes)
    ensures Valid(st)
    ensures st.candIdx == IndexMap(candidates) && st.nodeIdx == IndexMap(nodes)
    ensures st.matrix == MapMatrix(coverageMap, candidates, nodes)
    ensures DemandFrom(st.demand, demandDict, nodes) && InitFrom(st.init, preCovered, nodes)
    ensures |counts| == |candidates|
    ensures forall i, n | 0 <= i < |candidates| && 0 <= n < |nodes| ::
      |counts[i]| == |nodes| && counts[i][n] == Bit(st.matrix[i][n])
  {
    var rows, cols := MapCoo(coverageMap, candidates, nodes);
    var dense := CooToDense(rows, cols, |candidates|, |nodes|);
    counts := dense;
    var matrix := Nonzero(dense, |nodes|);
    MatrixExt(matrix, MapMatrix(coverageMap, candidates, nodes), |nodes|);
    var demand := DemandVector(demandDict, nodes);
    var init := InitialCoverage(preCovered, nodes);
    st := Structures(matrix, demand, IndexMap(candidates), IndexMap(nodes), init);
  }

  /**
    The matrix `build_sparse_matrix_from_df` builds: a within-threshold row
    from candidate `i` to node `n`, or the candidate being that node.
  */
  ghost function DfMatrix(df: seq<DistanceRow>, useKm: bool, candidates: seq<int>, nodes: seq<int>): (m: seq<seq<bool>>)
    ensures |m| == |candidates| && Rectangular(m, |nodes|)
  {
    seq(|candidates|, i requires 0 <= i < |candidates| =>
      seq(|nodes|, n requires 0 <= n < |nodes| =>
        Reaches(df, useKm, candidates[i], nodes[n]) || candidates[i] == nodes[n]))
  }

  /**
    The filtered coordinate lists: rows whose origin is a candidate, whose
    destination is a node and which are within the threshold.
  */
  function FilteredCoo(df: seq<DistanceRow>, useKm: bool, candIdx: map<int, nat>, nodeIdx: map<int, nat>)
    : (coo: (seq<nat>, seq<nat>))
    ensures |coo.0| == |coo.1|
  {
    if |df| == 0 then ([], [])
    else
      var rest := FilteredCoo(df[..|df| - 1], useKm, candIdx, nodeIdx);
      var r := df[|df| - 1];
      if r.origin in candIdx && r.dest in nodeIdx && Within(r, useKm) then
        (rest.0 + [candIdx[r.origin]], rest.1 + [nodeIdx[r.dest]])
      else rest
  }

  /** A row appended to the table reaches exactly what it connects. */
  lemma ReachesSnoc(df: seq<DistanceRow>, r: DistanceRow, useKm: bool, o: int, d: int)
    ensures Reaches(df + [r], useKm, o, d) <==>
      Reaches(df, useKm, o, d) || (Within(r, useKm) && r.origin == o && r.dest == d)
  {
    if Reaches(df + [r], useKm, o, d) {
      var r' :| r' in df + [r] && Within(r', useKm) && r'.origin == o && r'.dest == d;
      if r' != r {
        assert r' in df;
      }
    }
    if Reaches(df, useKm, o, d) {
      var r' :| r' in df && Within(r', useKm) && r'.origin == o && r'.dest == d;
      assert r' in df + [r];
    }
    if Within(r, useKm) && r.origin == o && r.dest == d {
      assert r in df + [r];
    }
  }

  /** One more coordinate adds one to its own count and nothing elsewhere. */
  lemma CooCountSnoc(rows: seq<nat>, cols: seq<nat>, a: nat, b: nat, i: nat, n: nat)
    requires |rows| == |cols|
    ensures CooCount(rows + [a], cols + [b], i, n) == CooCount(rows, cols, i, n) + Bit(a == i && b == n)
  {
    assert (rows + [a])[..|rows|] == rows;
    assert (cols + [b])[..|cols|] == cols;
  }

  /** The filtered coordinates are exactly the kept distance rows. */
  lemma {:induction false} FilteredCooCount(df: seq<DistanceRow>, useKm: bool, candidates: seq<int>, nodes: seq<int>, i: nat, n: nat)
    requires NoDup(candidates) && NoDup(nodes) && i < |candidates| && n < |nodes|
    ensures var coo := FilteredCoo(df, useKm, IndexMap(candidates), IndexMap(nodes));
      CooCount(coo.0, coo.1, i, n) > 0 <==> Reaches(df, useKm, candidates[i], nodes[n])
  {
    if |df| == 0 {
      assert !Reaches(df, useKm, candidates[i], nodes[n]);
    } else {
      var k := |df| - 1;
      FilteredCooCount(df[..k], useKm, candidates, nodes, i, n);
      FilteredCooStep(df, useKm, candidates, nodes, i, n);
    }
  }

  /** The count for one more distance row: it adds one exactly when the row is kept and connects `i` to `n`. */
  lemma FilteredCooStep(df: seq<DistanceRow>, useKm: bool, candidates: seq<int>, nodes: seq<int>, i: nat, n: nat)
    requires NoDup(candidates) && NoDup(nodes) && i < |candidates| && n < |nodes| && |df| > 0
    ensures var candIdx := IndexMap(candidates);
      var nodeIdx := IndexMap(nodes);
      var k := |df| - 1;
      var rest := FilteredCoo(df[..k], useKm, candIdx, nodeIdx);
      var coo := FilteredCoo(df, useKm, candIdx, nodeIdx);
      && CooCount(coo.0, coo.1, i, n) ==
           CooCount(rest.0, rest.1, i, n) + Bit(Within(df[k], useKm) && df[k].origin == candidates[i] && df[k].dest == nodes[n])
      && (Reaches(df, useKm, candidates[i], nodes[n]) <==>
           Reaches(df[..k], useKm, candidates[i], nodes[n]) ||
           (Within(df[k], useKm) && df[k].origin == candidates[i] && df[k].dest == nodes[n]))
  {
    var candIdx := IndexMap(candidates);
    var nodeIdx := IndexMap(nodes);
    var k := |df| - 1;
    var r := df[k];
    assert df == df[..k] + [r];
    ReachesSnoc(df[..k], r, useKm, candidates[i], nodes[n]);
    var rest := FilteredCoo(df[..k], useKm, candIdx, nodeIdx);
    if r.origin in candIdx && r.dest in nodeIdx && Within(r, useKm) {
      CooCountSnoc(rest.0, rest.1, candIdx[r.origin], nodeIdx[r.dest], i, n);
      assert candIdx[r.origin] == i <==> r.origin == candidates[i];
      assert nodeIdx[r.dest] == n <==> r.dest == nodes[n];
    } else {
      assert r.origin !in candIdx ==> r.origin != candidates[i];
      assert r.dest !in nodeIdx ==> r.dest != nodes[n];
    }
  }

  /** `rows`, `cols` hold one coordinate `(i, n)` for each candidate `i` that is the node `n`. */
  ghost predicate SelfCoo(rows: seq<nat>, cols: seq<nat>, candidates: seq<int>, nodes: seq<int>)
  {
    && |rows| == |cols|
    && forall ci, n | 0 <= ci < |candidates| && 0 <= n < |nodes| ::
         CooCount(rows, cols, ci, n) == Bit(candidates[ci] == nodes[n])
  }

  /** The self-coverage coordinates: `(cand_to_idx[c], node_to_idx[c])` for each candidate that is a node. */
  method SelfCoordinates(candidates: seq<int>, nodes: seq<int>) returns (rows: seq<nat>, cols: seq<nat>)
    requires NoDup(candidates) && NoDup(nodes)
    ensures SelfCoo(rows, cols, candidates, nodes)
  {
    var candIdx := IndexMap(candidates);
    var nodeIdx := IndexMap(nodes);
    rows, cols := [], [];
    for i := 0 to |candidates|
      invariant |rows| == |cols|
      invariant forall ci, n | 0 <= ci < |candidates| && 0 <= n < |nodes| ::
        CooCount(rows, cols, ci, n) == Bit(ci < i && candidates[ci] == nodes[n])
    {
      var c := candidates[i];
      if c in nodeIdx {
        forall ci, n | 0 <= ci < |candidates| && 0 <= n < |nodes|
          ensures CooCount(rows + [candIdx[c]], cols + [nodeIdx[c]], ci, n) == Bit(ci < i + 1 && candidates[ci] == nodes[n])
        {
          CooCountSnoc(rows, cols, candIdx[c], nodeIdx[c], ci, n);
        }
        rows := rows + [candIdx[c]];
        cols := cols + [nodeIdx[c]];
      }
    }
  }

  /** The 0/1 matrix of the filtered rows plus the self-coverage coordinates is the distance-row matrix. */
  lemma DfMatrixOfCoo(df: seq<DistanceRow>, useKm: bool, candidates: seq<int>, nodes: seq<int>, selfRows: seq<nat>, selfCols: seq<nat>)
    requires NoDup(candidates) && NoDup(nodes) && SelfCoo(selfRows, selfCols, candidates, nodes)
    ensures var coo := FilteredCoo(df, useKm, IndexMap(candidates), IndexMap(nodes));
      Nonzero(CooToDense(coo.0 + selfRows, coo.1 + selfCols, |candidates|, |nodes|), |nodes|)
        == DfMatrix(df, useKm, candidates, nodes)
  {
    var coo := FilteredCoo(df, useKm, IndexMap(candidates), IndexMap(nodes));
    var matrix := Nonzero(CooToDense(coo.0 + selfRows, coo.1 + selfCols, |candidates|, |nodes|), |nodes|);
    forall i, n | 0 <= i < |candidates| && 0 <= n < |nodes|
      ensures matrix[i][n] == DfMatrix(df, useKm, candidates, nodes)[i][n]
    {
      CooCountConcat(coo.0, coo.1, selfRows, selfCols, i, n);
      FilteredCooCount(df, useKm, candidates, nodes, i, n);
    }
    MatrixExt(matrix, DfMatrix(df, useKm, candidates, nodes), |nodes|);
  }

  /** heuristics.py `build_sparse_matrix_from_df`. */
  method BuildSparseMatrixFromDf(df: seq<DistanceRow>, demandDict: map<int, int>, candidates: seq<int>,
                                 nodes: seq<int>, useKm: bool, preCovered: set<int>)
    returns (st: Structures)
    requires NoDup(candidates) && NoDup(nodes)
    ensures Valid(st)
    ensures st.candIdx == IndexMap(candidates) && st.nodeIdx == IndexMap(nodes)
    ensures st.matrix == DfMatrix(df, useKm, candidates, nodes)
    ensures DemandFrom(st.demand, demandDict, nodes) && InitFrom(st.init, preCovered, nodes)
  {
    var candIdx := IndexMap(candidates);
    var nodeIdx := IndexMap(nodes);
    var coo := FilteredCoo(df, useKm, candIdx, nodeIdx);
    var selfRows, selfCols := SelfCoordinates(candidates, nodes);
    var dense := CooToDense(coo.0 + selfRows, coo.1 + selfCols, |candidates|, |nodes|);
    // `cov_matrix.data[:] = 1`: every stored entry reads as 1
    var matrix := Nonzero(dense, |nodes|);
    DfMatrixOfCoo(df, useKm, candidates, nodes, selfRows, selfCols);
    var demand := DemandVector(demandDict, nodes);
    var init := InitialCoverage(preCovered, nodes);
    st := Structures(matrix, demand, candIdx, nodeIdx, init);
  }

  /** Counting over concatenated coordinate lists adds up. */
  lemma {:induction false} CooCountConcat(r1: seq<nat>, c1: seq<nat>, r2: seq<nat>, c2: seq<nat>, i: nat, n: nat)
    requires |r1| == |c1| && |r2| == |c2|
    ensures CooCount(r1 + r2, c1 + c2, i, n) == CooCount(r1, c1, i, n) + CooCount(r2, c2, i, n)
  {
    if |r2| > 0 {
      var k := |r2| - 1;
      CooCountConcat(r1, c1, r2[..k], c2[..k], i, n);
      assert (r1 + r2)[..|r1| + k] == r1 + r2[..k];
      assert (c1 + c2)[..|c1| + k] == c1 + c2[..k];
    } else {
      assert r1 + r2 == r1 && c1 + c2 == c1;
    }
  }

  /**
    The two routes agree: building the coverage map with self-coverage and
    then the sparse structures gives the same matrix as building it from the
    distance rows directly.
  */
  lemma BuildersAgree(df: seq<DistanceRow>, useKm: bool, candidates: seq<int>, nodes: seq<int>)
    ensures MapMatrix(CoverageMapOf(df, useKm, Some(candidates)), candidates, nodes)
         == DfMatrix(df, useKm, candidates, nodes)
  {
    var cm := CoverageMapOf(df, useKm, Some(candidates));
    forall i, n | 0 <= i < |candidates| && 0 <= n < |nodes|
      ensures MapMatrix(cm, candidates, nodes)[i][n] == DfMatrix(df, useKm, candidates, nodes)[i][n]
    {
      assert candidates[i] in CandidateSet(Some(candidates));
      CoverageMapCovers(df, useKm, Some(candidates), candidates[i], nodes[n]);
    }
    MatrixExt(MapMatrix(cm, candidates, nodes), DfMatrix(df, useKm, candidates, nodes), |nodes|);
  }

  /** Every candidate that is also a node covers itself, on either route. */
  lemma SelfCoverage(df: seq<DistanceRow>, useKm: bool, coverageMap: map<int, set<int>>, candidates: seq<int>, nodes: seq<int>, i: nat, n: nat)
    requires i < |candidates| && n < |nodes| && candidates[i] == nodes[n]
    requires coverageMap == CoverageMapOf(df, useKm, Some(candidates))
    ensures MapMatrix(coverageMap, candidates, nodes)[i][n]
    ensures DfMatrix(df, useKm, candidates, nodes)[i][n]
  {
    assert candidates[i] in CandidateSet(Some(candidates));
  }

  /**
    A distance row that is over the threshold, starts outside the candidates
    or ends outside the nodes does not change the matrix.
  */
  lemma DroppedRowIrrelevant(df: seq<DistanceRow>, r: DistanceRow, useKm: bool, candidates: seq<int>, nodes: seq<int>)
    requires !Within(r, useKm) || r.origin !in candidates || r.dest !in nodes
    ensures DfMatrix(df + [r], useKm, candidates, nodes) == DfMatrix(df, useKm, candidates, nodes)
  {
    forall i, n | 0 <= i < |candidates| && 0 <= n < |nodes|
      ensures DfMatrix(df + [r], useKm, candidates, nodes)[i][n] == DfMatrix(df, useKm, candidates, nodes)[i][n]
    {
      ReachesSnoc(df, r, useKm, candidates[i], nodes[n]);
      assert candidates[i] in candidates && nodes[n] in nodes;
    }
    MatrixExt(DfMatrix(df + [r], useKm, candidates, nodes), DfMatrix(df, useKm, candidates, nodes), |nodes|);
  }

  /** The demand vector holds `demand_dict[n]` at a known node and 0 at a node without demand. */
  lemma DemandAt(demand: seq<int>, demandDict: map<int, int>, nodes: seq<int>, n: int)
    requires NoDup(nodes) && DemandFrom(demand, demandDict, nodes) && n in nodes
    ensures n in IndexMap(nodes)
    ensures demand[IndexMap(nodes)[n]] == (if n in demandDict then demandDict[n] else 0)
  {
    var idx := IndexMap(nodes);
    var j :| 0 <= j < |nodes| && nodes[j] == n;
  }

  /** The initial coverage is 1 exactly at the known pre-covered nodes. */
  lemma InitAt(init: seq<int>, preCovered: set<int>, nodes: seq<int>, n: int)
    requires NoDup(nodes) && InitFrom(init, preCovered, nodes) && n in nodes
    ensures n in IndexMap(nodes)
    ensures init[IndexMap(nodes)[n]] == 1 <==> n in preCovered
  {
    var j :| 0 <= j < |nodes| && nodes[j] == n;
  }
}
