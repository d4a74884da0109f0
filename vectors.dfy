/**
  Dense integer vectors and 0/1 rows, with the three numpy operations the
  heuristics are built from: `np.sum`, the elementwise product of a 0/1 row
  with a vector, and the sparse matrix-vector product `cov_matrix @ v`.
*/
module Vectors {

  /** `np.sum(v)`. */
  function Sum(v: seq<int>): int
  {
    if |v| == 0 then 0 else Sum(v[..|v| - 1]) + v[|v| - 1]
  }

  /** 1 for a covered entry of a 0/1 row, 0 otherwise. */
  function Bit(b: bool): int
  {
    if b then 1 else 0
  }

  /** The elementwise product `row * v` of a 0/1 row with a vector. */
  function Masked(row: seq<bool>, v: seq<int>): seq<int>
    requires |row| == |v|
  {
    seq(|v|, i requires 0 <= i < |v| => if row[i] then v[i] else 0)
  }

  /** Dot product of a 0/1 row with a vector. */
  function Dot(row: seq<bool>, v: seq<int>): int
    requires |row| == |v|
  {
    Sum(Masked(row, v))
  }

  /** Every row of `m` has `width` columns. */
  ghost predicate Rectangular(m: seq<seq<bool>>, width: nat)
  {
    forall c | 0 <= c < |m| :: |m[c]| == width
  }

  /** `m @ v`: one dot product per row. */
  function MatVec(m: seq<seq<bool>>, v: seq<int>): seq<int>
    requires Rectangular(m, |v|)
  {
    seq(|m|, c requires 0 <= c < |m| => Dot(m[c], v))
  }

  /** Elementwise `a + b`. */
  function Add(a: seq<int>, b: seq<int>): seq<int>
    requires |a| == |b|
  {
    seq(|a|, i requires 0 <= i < |a| => a[i] + b[i])
  }

  /** Elementwise `a - b`. */
  function Sub(a: seq<int>, b: seq<int>): seq<int>
    requires |a| == |b|
  {
    seq(|a|, i requires 0 <= i < |a| => a[i] - b[i])
  }

  /** Summation is linear: a pointwise identity between four vectors carries over to their sums. */
  lemma {:induction false} SumLinear(x: seq<int>, a: seq<int>, b: seq<int>, c: seq<int>, d: seq<int>)
    requires |x| == |a| == |b| == |c| == |d|
    requires forall i | 0 <= i < |x| :: x[i] == a[i] + b[i] - c[i] + d[i]
    ensures Sum(x) == Sum(a) + Sum(b) - Sum(c) + Sum(d)
  {
    if |x| > 0 {
      var k := |x| - 1;
      SumLinear(x[..k], a[..k], b[..k], c[..k], d[..k]);
    }
  }

  /** A vector of zeros sums to zero. */
  lemma {:induction false} SumZero(z: seq<int>)
    requires forall i | 0 <= i < |z| :: z[i] == 0
    ensures Sum(z) == 0
  {
    if |z| > 0 {
      SumZero(z[..|z| - 1]);
    }
  }

  /** Two-term linearity, from SumLinear with zero vectors. */
  lemma SumAdd(x: seq<int>, a: seq<int>, b: seq<int>)
    requires |x| == |a| == |b|
    requires forall i | 0 <= i < |x| :: x[i] == a[i] + b[i]
    ensures Sum(x) == Sum(a) + Sum(b)
  {
    var z := seq(|x|, _ => 0);
    SumZero(z);
    SumLinear(x, a, b, z, z);
  }

  /** Summation is monotone. */
  lemma {:induction false} SumMono(a: seq<int>, b: seq<int>)
    requires |a| == |b|
    requires forall i | 0 <= i < |a| :: a[i] <= b[i]
    ensures Sum(a) <= Sum(b)
  {
    if |a| > 0 {
      SumMono(a[..|a| - 1], b[..|b| - 1]);
    }
  }

  /** The dot product with a fixed 0/1 row is linear in the vector. */
  lemma DotAdd(row: seq<bool>, x: seq<int>, a: seq<int>, b: seq<int>)
    requires |row| == |x| == |a| == |b|
    requires forall i | 0 <= i < |x| :: x[i] == a[i] + b[i]
    ensures Dot(row, x) == Dot(row, a) + Dot(row, b)
  {
    SumAdd(Masked(row, x), Masked(row, a), Masked(row, b));
  }

  /** Two 0/1 matrices with the same shape and the same entries are equal. */
  lemma MatrixExt(a: seq<seq<bool>>, b: seq<seq<bool>>, width: nat)
    requires |a| == |b| && Rectangular(a, width) && Rectangular(b, width)
    requires forall i, j | 0 <= i < |a| && 0 <= j < width :: a[i][j] == b[i][j]
    ensures a == b
  {
    forall i | 0 <= i < |a| ensures a[i] == b[i] {
      assert forall j | 0 <= j < width :: a[i][j] == b[i][j];
    }
  }

  /** Extending a prefix by the next element gives the next prefix. */
  lemma PrefixSnoc<T>(s: seq<T>, t: nat)
    requires t < |s|
    ensures s[..t] + [s[t]] == s[..t + 1]
  {
  }

  /** The rise from position `t` to the next. */
  function Rise(zs: seq<int>, t: nat): int
    requires t + 1 < |zs|
  {
    zs[t + 1] - zs[t]
  }

  /** Every later value is larger than every earlier one. */
  ghost predicate StrictlyIncreasing(zs: seq<int>)
  {
    forall i, j | 0 <= i < j < |zs| :: zs[i] < zs[j]
  }

  /** Positive rises between neighbours make the whole sequence strictly increasing. */
  lemma {:induction false} IncreasingByRises(zs: seq<int>)
    requires forall t | 0 <= t < |zs| - 1 :: Rise(zs, t) > 0
    ensures StrictlyIncreasing(zs)
  {
    if |zs| > 1 {
      var k := |zs| - 1;
      var front := zs[..k];
      forall t | 0 <= t < |front| - 1 ensures Rise(front, t) > 0 {
        assert Rise(front, t) == Rise(zs, t);
      }
      IncreasingByRises(front);
      assert Rise(zs, k - 1) > 0;
      forall i, j | 0 <= i < j < |zs| ensures zs[i] < zs[j] {
        if j < k {
          assert front[i] < front[j];
        } else if i < k - 1 {
          assert front[i] < front[k - 1];
        }
      }
    }
  }

  /** Dropping the head commutes with appending at the back. */
  lemma TailSnoc<T>(a: seq<T>, x: T)
    requires |a| > 0
    ensures (a + [x])[1..] == a[1..] + [x]
  {
  }

  /** `i` is the lowest index holding the maximum of `v`. */
  ghost predicate IsArgMax(v: seq<int>, i: nat)
  {
    && i < |v|
    && (forall j | 0 <= j < |v| :: v[j] <= v[i])
    && (forall j | 0 <= j < i :: v[j] < v[i])
  }

  /** `np.argmax`: the first position of the maximum. */
  function ArgMax(v: seq<int>): (i: nat)
    requires |v| > 0
    ensures IsArgMax(v, i)
  {
    if |v| == 1 then 0
    else
      var k := |v| - 1;
      var j := ArgMax(v[..k]);
      assert forall m | 0 <= m < k :: v[..k][m] == v[m];
      if v[k] > v[j] then k else j
  }

  /** There is only one lowest index of the maximum. */
  lemma ArgMaxUnique(v: seq<int>, i: nat, j: nat)
    requires IsArgMax(v, i) && IsArgMax(v, j)
    ensures i == j
  {
    assert v[i] == v[j];
  }
}
