/** Integer sums, as computed by the source's `reduce(0, Integer::sum)` over a list
    (Java's 32-bit wrap-around is not modelled: integers are unbounded here). */
module Sums {

  /** Left-to-right sum of a list of counts; never negative when no count is. */
  function Sum(xs: seq<int>): (r: int)
    ensures (forall i :: 0 <= i < |xs| ==> xs[i] >= 0) ==> r >= 0
  {
    if xs == [] then 0 else Sum(xs[..|xs| - 1]) + xs[|xs| - 1]
  }

  /** A fresh list of `n` zero counts (`Collections.nCopies(n, 0)`). */
  function Zeros(n: nat): (z: seq<int>)
    ensures |z| == n && forall i :: 0 <= i < n ==> z[i] == 0
  {
    if n == 0 then [] else Zeros(n - 1) + [0]
  }

  lemma SumAppend(xs: seq<int>, x: int)
    ensures Sum(xs + [x]) == Sum(xs) + x
  {
    assert (xs + [x])[..|xs|] == xs;
  }

  /** Every count in a list of zeros sums to zero. */
  lemma {:induction false} SumOfZeros(xs: seq<int>)
    requires forall i :: 0 <= i < |xs| ==> xs[i] == 0
    ensures Sum(xs) == 0
  {
    if xs != [] {
      SumOfZeros(xs[..|xs| - 1]);
    }
  }

  /** Incrementing one count by one raises the sum by exactly one. */
  lemma {:induction false} SumIncrementAt(xs: seq<int>, j: int)
    requires 0 <= j < |xs|
    ensures Sum(xs[j := xs[j] + 1]) == Sum(xs) + 1
  {
    var ys := xs[j := xs[j] + 1];
    if j < |xs| - 1 {
      assert ys[..|ys| - 1] == xs[..|xs| - 1][j := xs[j] + 1];
      SumIncrementAt(xs[..|xs| - 1], j);
    } else {
      assert ys[..|ys| - 1] == xs[..|xs| - 1];
    }
  }
}
