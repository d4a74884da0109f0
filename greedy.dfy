/**
  `greedy_heuristic`: up to `p` picks, each the lowest-index still-available
  candidate of maximum gain over the uncovered demand, stopping as soon as the
  best gain is not positive.
*/
module Greedy {
  import opened Wrappers
  import opened Vectors
  import opened CoverageModel
  import opened Objective

  /** `np.argmax` of an empty gain vector raises. */
  datatype GreedyError = EmptyArgMax

  /**
    `gains = cov_matrix @ uncovered_demand_vector` after the picks in `chosen`,
    with the chosen candidates masked to -1.
  */
  function MaskedGains(st: Structures, chosen: seq<nat>): (g: seq<int>)
    requires WellFormed(st) && InRange(chosen, NumCand(st))
    ensures |g| == NumCand(st)
  {
    var gains := PotentialGains(st, Coverage(st, chosen));
    seq(NumCand(st), c requires 0 <= c < NumCand(st) => if c in chosen then -1 else gains[c])
  }

  /** The greedy loop from the picks `chosen`, with `steps` iterations left. */
  function GreedyFrom(st: Structures, chosen: seq<nat>, steps: int): (picks: seq<nat>)
    requires WellFormed(st) && InRange(chosen, NumCand(st))
    ensures InRange(picks, NumCand(st))
    decreases steps
  {
    if steps <= 0 || NumCand(st) == 0 then chosen
    else
      var g := MaskedGains(st, chosen);
      var b := ArgMax(g);
      if g[b] <= 0 then chosen else GreedyFrom(st, chosen + [b], steps - 1)
  }

  /** The row indices greedy picks for budget `p`. */
  function GreedyPicks(st: Structures, p: int): (picks: seq<nat>)
    requires WellFormed(st)
    ensures InRange(picks, NumCand(st))
  {
    GreedyFrom(st, [], p)
  }

  /** One iteration of the greedy loop. */
  lemma GreedyFromUnfold(st: Structures, chosen: seq<nat>, steps: int)
    requires WellFormed(st) && InRange(chosen, NumCand(st)) && steps > 0 && NumCand(st) > 0
    ensures var g := MaskedGains(st, chosen);
      GreedyFrom(st, chosen, steps) ==
        if g[ArgMax(g)] <= 0 then chosen else GreedyFrom(st, chosen + [ArgMax(g)], steps - 1)
  {
  }

  /** The Z values after each prefix of row indices: `zs[t]` is Z of the first `t`. */
  function PrefixZ(st: Structures, picks: seq<nat>): (zs: seq<int>)
    requires WellFormed(st) && InRange(picks, NumCand(st))
    ensures |zs| == |picks| + 1
  {
    seq(|picks| + 1, t requires 0 <= t <= |picks| => ZIdx(st, picks[..t]))
  }

  /** One more pick appends its Z to the prefix values. */
  lemma PrefixZAppend(st: Structures, picks: seq<nat>, c: nat)
    requires WellFormed(st) && InRange(picks, NumCand(st)) && c < NumCand(st)
    ensures PrefixZ(st, picks + [c]) == PrefixZ(st, picks) + [ZIdx(st, picks + [c])]
  {
    var q := picks + [c];
    forall t | 0 <= t <= |picks| ensures q[..t] == picks[..t] {
    }
    assert q[..|q|] == q;
  }

  /** The `calculate_z` values after each prefix of a solution: `zs[t]` is that of the first `t` ids. */
  function RunningZ(solution: seq<int>, st: Structures): (zs: seq<int>)
    requires Valid(st)
    ensures |zs| == |solution| + 1
  {
    seq(|solution| + 1, t requires 0 <= t <= |solution| => CalculateZ(solution[..t], st))
  }

  /** `c` is a legal next pick after `chosen`: the lowest index of maximum masked gain, and that gain is positive. */
  ghost predicate GreedyStep(st: Structures, chosen: seq<nat>, c: nat)
    requires WellFormed(st) && InRange(chosen, NumCand(st))
  {
    IsArgMax(MaskedGains(st, chosen), c) && MaskedGains(st, chosen)[c] > 0
  }

  /** No candidate has a positive masked gain after `chosen`. */
  ghost predicate Saturated(st: Structures, chosen: seq<nat>)
    requires WellFormed(st) && InRange(chosen, NumCand(st))
  {
    forall c | 0 <= c < NumCand(st) :: MaskedGains(st, chosen)[c] <= 0
  }

  /**
    Declarative greedy run for budget `p`: at most `p` picks, each a legal
    step, and fewer than `p` only when no candidate is left with a positive gain.
  */
  ghost predicate IsGreedyRun(st: Structures, p: int, picks: seq<nat>)
    requires WellFormed(st)
  {
    && InRange(picks, NumCand(st))
    && (|picks| == 0 || |picks| <= p)
    && (forall t | 0 <= t < |picks| :: GreedyStep(st, picks[..t], picks[t]))
    && (|picks| < p ==> Saturated(st, picks))
  }

  /** The greedy loop only appends to `chosen`, at most `steps` picks. */
  lemma {:induction false} GreedyFromExtends(st: Structures, chosen: seq<nat>, steps: int)
    requires WellFormed(st) && InRange(chosen, NumCand(st))
    ensures var r := GreedyFrom(st, chosen, steps);
      && |chosen| <= |r| && r[..|chosen|] == chosen
      && (|r| == |chosen| || |r| - |chosen| <= steps)
    decreases steps
  {
    if steps > 0 && NumCand(st) > 0 {
      var g := MaskedGains(st, chosen);
      var b := ArgMax(g);
      if g[b] > 0 {
        var next := chosen + [b];
        var r := GreedyFrom(st, next, steps - 1);
        GreedyFromExtends(st, next, steps - 1);
        assert r[..|chosen|] == r[..|next|][..|chosen|];
      }
    }
  }

  /** The greedy loop stops early only when no candidate has a positive gain. */
  lemma {:induction false} GreedyFromSaturates(st: Structures, chosen: seq<nat>, steps: int)
    requires WellFormed(st) && InRange(chosen, NumCand(st))
    ensures var r := GreedyFrom(st, chosen, steps);
      |r| < |chosen| + steps ==> Saturated(st, r)
    decreases steps
  {
    if steps > 0 && NumCand(st) > 0 {
      var g := MaskedGains(st, chosen);
      var b := ArgMax(g);
      if g[b] > 0 {
        GreedyFromSaturates(st, chosen + [b], steps - 1);
      }
    }
  }

  /** Every pick the greedy loop adds to `chosen` is a legal step. */
  lemma {:induction false} GreedyFromLegal(st: Structures, chosen: seq<nat>, steps: int, t: nat)
    requires WellFormed(st) && InRange(chosen, NumCand(st))
    requires |chosen| <= t < |GreedyFrom(st, chosen, steps)|
    ensures var r := GreedyFrom(st, chosen, steps);
      GreedyStep(st, r[..t], r[t])
    decreases steps
  {
    var g := MaskedGains(st, chosen);
    var b := ArgMax(g);
    var next := chosen + [b];
    var r := GreedyFrom(st, next, steps - 1);
    GreedyFromExtends(st, next, steps - 1);
    if t == |chosen| {
      assert GreedyStep(st, chosen, b);
      assert r[..|chosen|] == r[..|next|][..|chosen|] == chosen;
      assert r[|chosen|] == next[|chosen|] == b;
    } else {
      GreedyFromLegal(st, next, steps - 1, t);
    }
  }

  /** The greedy picks form a greedy run. */
  lemma GreedyPicksIsRun(st: Structures, p: int)
    requires WellFormed(st)
    ensures IsGreedyRun(st, p, GreedyPicks(st, p))
  {
    GreedyFromExtends(st, [], p);
    GreedyFromSaturates(st, [], p);
    forall t | 0 <= t < |GreedyPicks(st, p)| ensures GreedyStep(st, GreedyPicks(st, p)[..t], GreedyPicks(st, p)[t]) {
      GreedyFromLegal(st, [], p, t);
    }
  }

  /** Once no candidate has a positive gain the loop stops. */
  lemma GreedyRunEnd(st: Structures, chosen: seq<nat>, steps: int)
    requires WellFormed(st) && InRange(chosen, NumCand(st))
    requires steps > 0 ==> Saturated(st, chosen)
    ensures GreedyFrom(st, chosen, steps) == chosen
  {
    if steps > 0 && NumCand(st) > 0 {
      GreedyFromUnfold(st, chosen, steps);
      var g := MaskedGains(st, chosen);
      assert g[ArgMax(g)] <= 0;
    }
  }

  /** After a legal step `c` the loop goes on from `next = chosen + [c]`, with one step fewer. */
  lemma GreedyRunNext(st: Structures, chosen: seq<nat>, c: nat, next: seq<nat>, steps: int, steps': int)
    requires WellFormed(st) && InRange(chosen, NumCand(st)) && steps > 0
    requires GreedyStep(st, chosen, c) && next == chosen + [c] && steps' == steps - 1
    ensures GreedyFrom(st, chosen, steps) == GreedyFrom(st, next, steps')
  {
    var g := MaskedGains(st, chosen);
    GreedyFromUnfold(st, chosen, steps);
    ArgMaxUnique(g, ArgMax(g), c);
  }

  /** If the loop continued after `t + 1` picks of a run ends at the run, so does the loop continued after `t`. */
  lemma GreedyRunBack(st: Structures, p: int, picks: seq<nat>, t: nat)
    requires WellFormed(st) && InRange(picks, NumCand(st)) && t < |picks| <= p
    requires GreedyStep(st, picks[..t], picks[t])
    requires GreedyFrom(st, picks[..t + 1], p - (t + 1)) == picks
    ensures GreedyFrom(st, picks[..t], p - t) == picks
  {
    PrefixSnoc(picks, t);
    GreedyRunNext(st, picks[..t], picks[t], picks[..t + 1], p - t, p - (t + 1));
  }

  /** A greedy run continued by the loop from any of its prefixes is the run itself. */
  lemma {:induction false} GreedyRunSuffix(st: Structures, p: int, picks: seq<nat>, t: nat)
    requires WellFormed(st) && InRange(picks, NumCand(st)) && t <= |picks| && (|picks| == 0 || |picks| <= p)
    requires forall u | t <= u < |picks| :: GreedyStep(st, picks[..u], picks[u])
    requires |picks| < p ==> Saturated(st, picks)
    ensures GreedyFrom(st, picks[..t], p - t) == picks
    decreases |picks| - t
  {
    if t == |picks| {
      assert picks[..t] == picks;
      GreedyRunEnd(st, picks, p - t);
    } else {
      GreedyRunSuffix(st, p, picks, t + 1);
      GreedyRunBack(st, p, picks, t);
    }
  }

  /** Greedy runs are unique: any greedy run is the greedy picks. */
  lemma GreedyRunUnique(st: Structures, p: int, picks: seq<nat>)
    requires WellFormed(st) && IsGreedyRun(st, p, picks)
    ensures picks == GreedyPicks(st, p)
  {
    GreedyRunSuffix(st, p, picks, 0);
    assert picks[..0] == [];
  }

  /** A legal step picks a new candidate and raises Z by exactly its gain. */
  lemma GreedyStepGain(st: Structures, chosen: seq<nat>, c: nat)
    requires WellFormed(st) && InRange(chosen, NumCand(st)) && GreedyStep(st, chosen, c)
    ensures c !in chosen
    ensures ZIdx(st, chosen + [c]) == ZIdx(st, chosen) + MaskedGains(st, chosen)[c] > ZIdx(st, chosen)
  {
    AddRowGain(st, chosen, c);
  }

  /**
    A greedy run has no repeated pick, at most `p` picks, and a Z that rises
    strictly with every pick without exceeding the positive demand.
  */
  lemma GreedyRunProperties(st: Structures, p: int, picks: seq<nat>)
    requires WellFormed(st) && IsGreedyRun(st, p, picks)
    ensures NoDup(picks)
    ensures |picks| == 0 || |picks| <= p
    ensures StrictlyIncreasing(PrefixZ(st, picks))
    ensures forall t | 0 <= t <= |picks| :: PrefixZ(st, picks)[t] <= PositiveDemand(st)
  {
    var zs := PrefixZ(st, picks);
    forall t | 0 <= t < |picks|
      ensures picks[t] !in picks[..t]
      ensures Rise(zs, t) > 0
    {
      GreedyStepGain(st, picks[..t], picks[t]);
      PrefixSnoc(picks, t);
    }
    IncreasingByRises(zs);
    forall t | 0 <= t <= |picks| ensures zs[t] <= PositiveDemand(st) {
      ZAtMostPositiveDemand(st, Coverage(st, picks[..t]));
    }
    forall i, j | 0 <= i < j < |picks| ensures picks[i] != picks[j] {
      assert picks[i] == picks[..j][i];
      assert picks[j] !in picks[..j];
    }
  }

  /** The running `calculate_z` of the ids read back from row indices is the prefix Z of those indices. */
  lemma RunningZOfIds(st: Structures, idx: seq<nat>)
    requires Valid(st) && InRange(idx, NumCand(st))
    ensures RunningZ(IdsOf(st, idx), st) == PrefixZ(st, idx)
  {
    forall t | 0 <= t <= |idx| ensures RunningZ(IdsOf(st, idx), st)[t] == PrefixZ(st, idx)[t] {
      assert IdsOf(st, idx)[..t] == IdsOf(st, idx[..t]);
      IdsOfRoundTrip(st, idx[..t]);
    }
  }

  /**
    One accepted pick: the best masked gain is positive, so the pick is new,
    the loop goes on from the longer prefix, and coverage, Z and the running
    Z values grow by that pick.
  */
  lemma GreedyAccept(st: Structures, p: int, step: int, solIdx: seq<nat>, c: nat)
    requires WellFormed(st) && InRange(solIdx, NumCand(st)) && NumCand(st) > 0 && step < p
    requires GreedyFrom(st, solIdx, p - step) == GreedyPicks(st, p)
    requires c == ArgMax(MaskedGains(st, solIdx)) && MaskedGains(st, solIdx)[c] > 0
    ensures c !in solIdx
    ensures GreedyFrom(st, solIdx + [c], p - (step + 1)) == GreedyPicks(st, p)
    ensures Coverage(st, solIdx + [c]) == AddRow(Coverage(st, solIdx), st.matrix[c])
    ensures ZIdx(st, solIdx + [c]) == ZIdx(st, solIdx) + MaskedGains(st, solIdx)[c]
    ensures PrefixZ(st, solIdx + [c])[1..] == PrefixZ(st, solIdx)[1..] + [ZIdx(st, solIdx + [c])]
  {
    GreedyFromUnfold(st, solIdx, p - step);
    CoverageAppend(st, solIdx, c);
    AddRowGain(st, solIdx, c);
    PrefixZAppend(st, solIdx, c);
    TailSnoc(PrefixZ(st, solIdx), ZIdx(st, solIdx + [c]));
  }

  /** A pick whose best masked gain is not positive ends the loop where it is. */
  lemma GreedyStop(st: Structures, p: int, step: int, solIdx: seq<nat>)
    requires WellFormed(st) && InRange(solIdx, NumCand(st)) && NumCand(st) > 0 && step < p
    requires MaskedGains(st, solIdx)[ArgMax(MaskedGains(st, solIdx))] <= 0
    ensures GreedyFrom(st, solIdx, p - step) == solIdx
  {
    GreedyFromUnfold(st, solIdx, p - step);
  }

  /**
    One pass of the greedy loop body: `gains[~available] = -1` on
    `gains = cov_matrix @ uncovered_demand_vector`, take the first maximum,
    and stop if its gain is not positive; otherwise pick it.
  */
  method GreedyPick(st: Structures, p: int, step: int, solIdx: seq<nat>, cov: seq<int>, z: int, available: array<bool>)
      returns (stop: bool, solIdx': seq<nat>, cov': seq<int>, z': int)
    modifies available
    requires WellFormed(st) && NumCand(st) > 0 && step < p && available.Length == NumCand(st)
    requires InRange(solIdx, NumCand(st)) && forall c | 0 <= c < NumCand(st) :: available[c] == (c !in solIdx)
    requires cov == Coverage(st, solIdx) && z == ZIdx(st, solIdx)
    requires GreedyFrom(st, solIdx, p - step) == GreedyPicks(st, p)
    ensures InRange(solIdx', NumCand(st)) && forall c | 0 <= c < NumCand(st) :: available[c] == (c !in solIdx')
    ensures cov' == Coverage(st, solIdx') && z' == ZIdx(st, solIdx')
    ensures stop ==> solIdx' == solIdx == GreedyPicks(st, p)
    ensures !stop ==> GreedyFrom(st, solIdx', p - (step + 1)) == GreedyPicks(st, p)
    ensures !stop ==> PrefixZ(st, solIdx')[1..] == PrefixZ(st, solIdx)[1..] + [z']
  {
    var gains := PotentialGains(st, cov);
    var masked := seq(NumCand(st), c requires 0 <= c < NumCand(st) reads available => if available[c] then gains[c] else -1);
    assert masked == MaskedGains(st, solIdx);
    var best := ArgMax(masked);
    var bestGain := masked[best];
    if bestGain <= 0 {
      GreedyStop(st, p, step, solIdx);
      return true, solIdx, cov, z;
    }
    GreedyAccept(st, p, step, solIdx, best);
    solIdx' := solIdx + [best];
    available[best] := false;
    cov' := AddRow(cov, st.matrix[best]);
    z' := z + bestGain;
    stop := false;
  }

  /**
    heuristics.py `greedy_heuristic`. `trace` holds the value the progress
    callback receives after each pick: the running Z.
  */
  method GreedyHeuristic(p: int, st: Structures) returns (r: Result<seq<int>, GreedyError>, trace: seq<int>)
    requires Valid(st)
    ensures r.Failure? <==> NumCand(st) == 0 && p > 0
    ensures r.Failure? ==> trace == []
    ensures r.Success? ==> r.value == IdsOf(st, GreedyPicks(st, p))
    ensures r.Success? ==> trace == RunningZ(r.value, st)[1..]
  {
    var nc := NumCand(st);
    var solIdx: seq<nat> := [];
    var cov := st.init;
    var available := new bool[nc](_ => true);
    var z := ZOf(st, cov);
    trace := [];
    CoverageEmpty(st);
    var step := 0;
    while step < p
      invariant InRange(solIdx, nc)
      invariant forall c | 0 <= c < nc :: available[c] == (c !in solIdx)
      invariant cov == Coverage(st, solIdx) && z == ZIdx(st, solIdx)
      invariant trace == PrefixZ(st, solIdx)[1..]
      invariant GreedyFrom(st, solIdx, p - step) == GreedyPicks(st, p)
      invariant nc == 0 ==> step == 0
      decreases p - step
    {
      if nc == 0 {
        // np.argmax of an empty array
        return Failure(EmptyArgMax), [];
      }
      var stop;
      stop, solIdx, cov, z := GreedyPick(st, p, step, solIdx, cov, z, available);
      if stop {
        break;
      }
      trace := trace + [z];
      step := step + 1;
    }
    r := Success(IdsOf(st, solIdx));
    RunningZOfIds(st, solIdx);
  }

  /**
    What greedy returns: distinct known ids, at most `p` of them, whose
    running Z rises strictly with each pick and stays within the positive
    demand (within the total demand and non-negative when no demand is negative).
  */
  lemma GreedySolution(st: Structures, p: int)
    requires Valid(st)
    ensures var sol := IdsOf(st, GreedyPicks(st, p));
      && NoDup(sol)
      && (|sol| == 0 || |sol| <= p)
      && StrictlyIncreasing(RunningZ(sol, st))
      && (forall t | 0 <= t <= |sol| :: RunningZ(sol, st)[t] <= PositiveDemand(st))
      && (NonNegativeDemand(st) ==> forall t | 0 <= t <= |sol| :: 0 <= RunningZ(sol, st)[t] <= Sum(st.demand))
  {
    var picks := GreedyPicks(st, p);
    var sol := IdsOf(st, picks);
    GreedyPicksIsRun(st, p);
    GreedyRunProperties(st, p, picks);
    IdsOfNoDup(st, picks);
    RunningZOfIds(st, picks);
    forall t | 0 <= t <= |sol| ensures NonNegativeDemand(st) ==> 0 <= RunningZ(sol, st)[t] <= Sum(st.demand) {
      CalculateZBounds(sol[..t], st);
    }
  }
}
