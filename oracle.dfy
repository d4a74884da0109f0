/**
  Random draws as an oracle. `rng(t)` is the `t`-th number the random source
  produces; each operation reads the draws from a counter `t` on and reports
  how many it used, so any sequence of outcomes of Python's `random` and of
  `numpy.random` can be represented.
*/
module Oracle {

  /** `random.choice` / `np.random.choice` on a non-empty sequence: one draw. */
  function Choice<T>(xs: seq<T>, rng: nat -> nat, t: nat): (x: T)
    requires |xs| > 0
    ensures x in xs
  {
    xs[rng(t) % |xs|]
  }

  /** `xs` without its `i`-th element. */
  function RemoveAt<T>(xs: seq<T>, i: nat): (ys: seq<T>)
    requires i < |xs|
    ensures |ys| == |xs| - 1
  {
    xs[..i] + xs[i + 1..]
  }

  /** Removing one element removes exactly it from the multiset. */
  lemma RemoveAtMultiset<T>(xs: seq<T>, i: nat)
    requires i < |xs|
    ensures multiset(RemoveAt(xs, i)) + multiset{xs[i]} == multiset(xs)
  {
    assert xs == xs[..i] + [xs[i]] + xs[i + 1..];
  }

  /**
    `random.sample(xs, k)`: `k` draws, each picking one of the elements not
    taken yet.
  */
  function Sample<T>(xs: seq<T>, k: nat, rng: nat -> nat, t: nat): (s: seq<T>)
    requires k <= |xs|
    ensures |s| == k && multiset(s) <= multiset(xs)
    decreases k
  {
    if k == 0 then []
    else
      var i := rng(t) % |xs|;
      var rest := Sample(RemoveAt(xs, i), k - 1, rng, t + 1);
      RemoveAtMultiset(xs, i);
      [xs[i]] + rest
  }

  /** `np.random.shuffle`: a sample of every element, `|xs|` draws. */
  function Shuffle<T>(xs: seq<T>, rng: nat -> nat, t: nat): (s: seq<T>)
    ensures |s| == |xs|
  {
    Sample(xs, |xs|, rng, t)
  }

  /** A shuffle is a permutation. */
  lemma ShufflePermutes<T>(xs: seq<T>, rng: nat -> nat, t: nat)
    ensures multiset(Shuffle(xs, rng, t)) == multiset(xs)
  {
    var s := Shuffle(xs, rng, t);
    assert |multiset(s)| == |s| == |xs| == |multiset(xs)|;
    MultisetSubsetSameSize(multiset(s), multiset(xs));
  }

  /** A sub-multiset of the same size is the whole multiset. */
  lemma MultisetSubsetSameSize<T>(a: multiset<T>, b: multiset<T>)
    requires a <= b && |a| == |b|
    ensures a == b
  {
    var d := b - a;
    assert a + d == b;
    assert |d| == 0;
  }

  /** Each element of a sample of distinct elements is distinct, and drawn from the input. */
  lemma SampleMembers<T>(xs: seq<T>, k: nat, rng: nat -> nat, t: nat)
    requires k <= |xs|
    ensures forall x | x in Sample(xs, k, rng, t) :: x in xs
  {
    forall x | x in Sample(xs, k, rng, t) ensures x in xs {
      assert x in multiset(Sample(xs, k, rng, t));
    }
  }
}
