/**
  `get_random_neighbor`: the k-swap shake of VNS. It removes `k` random
  members of the solution, adds `k` random candidates outside it, and returns
  the result as a sorted list of distinct ids. It returns the solution
  unchanged when either side has fewer than `k` elements.
*/
module Shake {
  import opened CoverageModel
  import Oracle

  /** Strictly ascending, as `sorted(set(...))` returns. */
  ghost predicate Ascending(s: seq<int>)
  {
    forall i, j | 0 <= i < j < |s| :: s[i] < s[j]
  }

  /** `sorted(set(s) | {x})` for an ascending `s`. */
  function Insert(s: seq<int>, x: int): (r: seq<int>)
    requires Ascending(s)
    ensures Ascending(r)
    ensures forall y :: y in r <==> y in s || y == x
  {
    if |s| == 0 then [x]
    else if x < s[0] then
      HeadBelow([x] + s);
      [x] + s
    else if x == s[0] then s
    else
      var tail := Insert(s[1..], x);
      HeadBelow(s);
      ConsAscending(s[0], tail);
      [s[0]] + tail
  }

  /** Every later element of an ascending sequence exceeds its head. */
  lemma HeadBelow(s: seq<int>)
    requires |s| > 0
    ensures Ascending(s) <==> Ascending(s[1..]) && forall y | y in s[1..] :: s[0] < y
  {
    if Ascending(s[1..]) && forall y | y in s[1..] :: s[0] < y {
      forall i, j | 0 <= i < j < |s| ensures s[i] < s[j] {
        assert s[j] == s[1..][j - 1] && s[1..][j - 1] in s[1..];
        if 0 < i {
          assert s[i] == s[1..][i - 1];
        }
      }
    }
  }

  /** A head below every element of an ascending tail gives an ascending sequence. */
  lemma ConsAscending(h: int, tail: seq<int>)
    requires Ascending(tail) && forall y | y in tail :: h < y
    ensures Ascending([h] + tail)
  {
    assert ([h] + tail)[1..] == tail;
    HeadBelow([h] + tail);
  }

  /** `sorted(set(xs))`. */
  function SortedSet(xs: seq<int>): (r: seq<int>)
    ensures Ascending(r)
    ensures forall y :: y in r <==> y in xs
  {
    if |xs| == 0 then []
    else
      var k := |xs| - 1;
      assert forall y | y in xs :: y in xs[..k] || y == xs[k];
      Insert(SortedSet(xs[..k]), xs[k])
  }

  /** The elements of `xs` that are not in `ys`, in the order of `xs`. */
  function Without(xs: seq<int>, ys: seq<int>): (r: seq<int>)
    ensures forall y :: y in r <==> y in xs && y !in ys
  {
    if |xs| == 0 then []
    else
      var k := |xs| - 1;
      assert forall y | y in xs :: y in xs[..k] || y == xs[k];
      Without(xs[..k], ys) + (if xs[k] in ys then [] else [xs[k]])
  }

  /** The elements of `xs` that are in `ys`, in the order of `xs`. */
  function Within(xs: seq<int>, ys: seq<int>): (r: seq<int>)
    ensures forall y :: y in r <==> y in xs && y in ys
  {
    if |xs| == 0 then []
    else
      var k := |xs| - 1;
      assert forall y | y in xs :: y in xs[..k] || y == xs[k];
      Within(xs[..k], ys) + (if xs[k] in ys then [xs[k]] else [])
  }

  /** `list(candidates_set - set(solution))`, enumerated in ascending order. */
  function Available(candidates: seq<int>, solution: seq<int>): (r: seq<int>)
    ensures Ascending(r)
    ensures forall y :: y in r <==> y in candidates && y !in solution
  {
    SortedSet(Without(candidates, solution))
  }

  /** The neighbour and the next unused draw of the `random` module. */
  datatype Shaken = Shaken(neighbor: seq<int>, next: nat)

  /**
    heuristics.py `get_random_neighbor`: `random.sample` draws `k` members to
    remove (draws `t ..`) and then `k` available candidates to add.
  */
  function RandomNeighbor(solution: seq<int>, candidates: seq<int>, k: nat, rng: nat -> nat, t: nat): (s: Shaken)
    ensures |solution| < k || |Available(candidates, solution)| < k ==> s == Shaken(solution, t)
    ensures !(|solution| < k || |Available(candidates, solution)| < k) ==>
      var rem := Oracle.Sample(solution, k, rng, t);
      var add := Oracle.Sample(Available(candidates, solution), k, rng, t + k);
      && s.next == t + 2 * k
      && Ascending(s.neighbor)
      && forall y :: y in s.neighbor <==> (y in solution && y !in rem) || y in add
  {
    var available := Available(candidates, solution);
    if |solution| < k || |available| < k then Shaken(solution, t)
    else
      var rem := Oracle.Sample(solution, k, rng, t);
      var add := Oracle.Sample(available, k, rng, t + k);
      Shaken(SortedSet(Without(solution, rem) + add), t + 2 * k)
  }

  /** Every member of a neighbour was in the solution or is a candidate. */
  lemma NeighborMembers(solution: seq<int>, candidates: seq<int>, k: nat, rng: nat -> nat, t: nat)
    ensures forall y | y in RandomNeighbor(solution, candidates, k, rng, t).neighbor :: y in solution || y in candidates
  {
    var available := Available(candidates, solution);
    var n := RandomNeighbor(solution, candidates, k, rng, t).neighbor;
    if !(|solution| < k || |available| < k) {
      var rem := Oracle.Sample(solution, k, rng, t);
      var add := Oracle.Sample(available, k, rng, t + k);
      Oracle.SampleMembers(available, k, rng, t + k);
      forall y | y in n ensures y in solution || y in candidates {
        if y !in solution {
          assert y in add && y in available;
        }
      }
    }
  }

  /** Strictly ascending sequences have no duplicates. */
  lemma AscendingNoDup(s: seq<int>)
    requires Ascending(s)
    ensures NoDup(s)
  {
  }

  /** Two duplicate-free sequences with the same members have the same length. */
  lemma SameMembersSameLength(a: seq<int>, b: seq<int>)
    requires NoDup(a) && NoDup(b)
    requires forall y :: y in a <==> y in b
    ensures |a| == |b|
  {
    NoDupMultiset(a);
    NoDupMultiset(b);
    assert multiset(a) == multiset(b);
  }

  /** Filtering a duplicate-free sequence keeps it duplicate-free. */
  lemma {:induction false} FilterNoDup(xs: seq<int>, ys: seq<int>)
    requires NoDup(xs)
    ensures NoDup(Without(xs, ys)) && NoDup(Within(xs, ys))
  {
    if |xs| > 0 {
      var k := |xs| - 1;
      assert NoDup(xs[..k]);
      FilterNoDup(xs[..k], ys);
      assert xs[k] !in xs[..k];
    }
  }

  /** Every element goes to exactly one side of the filter. */
  lemma {:induction false} FilterSplit(xs: seq<int>, ys: seq<int>)
    ensures |Without(xs, ys)| + |Within(xs, ys)| == |xs|
  {
    if |xs| > 0 {
      FilterSplit(xs[..|xs| - 1], ys);
    }
  }

  /** A sample drawn from a duplicate-free sequence has no duplicates. */
  lemma SampleNoDup(xs: seq<int>, k: nat, rng: nat -> nat, t: nat)
    requires NoDup(xs) && k <= |xs|
    ensures NoDup(Oracle.Sample(xs, k, rng, t))
  {
    var s := Oracle.Sample(xs, k, rng, t);
    NoDupMultiset(xs);
    assert forall x :: multiset(s)[x] <= multiset(xs)[x];
    MultiplicityNoDup(s);
  }

  /** Two duplicate-free sequences with no common member concatenate without duplicates. */
  lemma ConcatNoDup(a: seq<int>, b: seq<int>)
    requires NoDup(a) && NoDup(b)
    requires forall y | y in b :: y !in a
    ensures NoDup(a + b)
  {
    var ab := a + b;
    forall i, j | 0 <= i < j < |ab| ensures ab[i] != ab[j] {
      if j < |a| {
        assert ab[i] == a[i] && ab[j] == a[j];
      } else if i >= |a| {
        assert ab[i] == b[i - |a|] && ab[j] == b[j - |a|];
      } else {
        assert ab[i] == a[i] && ab[j] == b[j - |a|];
        assert ab[i] in a && ab[j] in b;
      }
    }
  }

  /** Removing `k` distinct members from a duplicate-free sequence leaves `|xs| - k` of them. */
  lemma KeptSize(xs: seq<int>, rem: seq<int>)
    requires NoDup(xs) && NoDup(rem)
    requires forall y | y in rem :: y in xs
    ensures NoDup(Without(xs, rem)) && |Without(xs, rem)| == |xs| - |rem|
  {
    FilterNoDup(xs, rem);
    FilterSplit(xs, rem);
    SameMembersSameLength(Within(xs, rem), rem);
  }

  /**
    For a solution without duplicates the shake keeps the size: exactly `k`
    members leave and `k` candidates from outside the solution join.
  */
  lemma NeighborSize(solution: seq<int>, candidates: seq<int>, k: nat, rng: nat -> nat, t: nat)
    requires NoDup(solution)
    ensures NoDup(RandomNeighbor(solution, candidates, k, rng, t).neighbor)
    ensures |RandomNeighbor(solution, candidates, k, rng, t).neighbor| == |solution|
  {
    var available := Available(candidates, solution);
    if !(|solution| < k || |available| < k) {
      var rem := Oracle.Sample(solution, k, rng, t);
      var add := Oracle.Sample(available, k, rng, t + k);
      var mid := Without(solution, rem) + add;
      SwappedSize(solution, available, k, rng, t);
      var n := SortedSet(mid);
      assert RandomNeighbor(solution, candidates, k, rng, t).neighbor == n;
      AscendingNoDup(n);
      SameMembersSameLength(n, mid);
    }
  }

  /** The `k` kept-out members and the `k` added candidates make a duplicate-free list of `|solution|` ids. */
  lemma SwappedSize(solution: seq<int>, available: seq<int>, k: nat, rng: nat -> nat, t: nat)
    requires NoDup(solution) && Ascending(available) && k <= |solution| && k <= |available|
    requires forall y | y in available :: y !in solution
    ensures NoDup(Without(solution, Oracle.Sample(solution, k, rng, t)) + Oracle.Sample(available, k, rng, t + k))
    ensures |Without(solution, Oracle.Sample(solution, k, rng, t)) + Oracle.Sample(available, k, rng, t + k)| == |solution|
  {
    var rem := Oracle.Sample(solution, k, rng, t);
    var add := Oracle.Sample(available, k, rng, t + k);
    Oracle.SampleMembers(solution, k, rng, t);
    Oracle.SampleMembers(available, k, rng, t + k);
    SampleNoDup(solution, k, rng, t);
    AscendingNoDup(available);
    SampleNoDup(available, k, rng, t + k);
    KeptSize(solution, rem);
    var kept := Without(solution, rem);
    forall y | y in add ensures y !in kept {
      assert y in available;
    }
    ConcatNoDup(kept, add);
  }
}
