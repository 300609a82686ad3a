/** The sample-array generators executors fall back on when Execute gets no
    input. Both "shuffle" with `j := i % (i + 1)`, which is always `i`, so
    every shuffle swap exchanges an element with itself. */
module Generators {
  import opened Sequences

  /** The shuffle index is the loop index itself. */
  lemma ShuffleIndexIsSelf(i: nat)
    ensures i % (i + 1) == i
  {
  }

  /** generateRandomArray: fill with 1..size, then the no-op shuffle. */
  method GenerateRandomArray(size: nat) returns (a: array<int>)
    ensures fresh(a)
    ensures a[..] == Ascending(size)
  {
    a := new int[size];
    for i := 0 to size
      invariant forall k :: 0 <= k < i ==> a[k] == k + 1
    {
      a[i] := i + 1;
    }
    var i := a.Length - 1;
    while i > 0
      invariant -1 <= i < a.Length
      invariant a[..] == Ascending(size)
    {
      var j := i % (i + 1);
      ShuffleIndexIsSelf(i);
      a[i], a[j] := a[j], a[i];
      i := i - 1;
    }
  }

  /** The array `[1, 2, ..., |m|, 1, 2, ...]` of length `size`. Go's `%`
      agrees with Dafny's here because `k` is never negative, and both
      ignore the sign of the divisor. */
  function Cyclic(size: nat, m: int): (s: seq<int>)
    requires m != 0
    ensures |s| == size
    ensures forall k :: 0 <= k < size ==> 1 <= s[k] <= if m > 0 then m else -m
  {
    seq(size, k => k % m + 1)
  }

  /** generateRandomArrayWithMax: element `k` is `(k % maxValue) + 1`, and
      the shuffle is again a no-op. A zero `maxValue` is a division by zero
      in the source. */
  method GenerateRandomArrayWithMax(size: nat, maxValue: int) returns (a: array<int>)
    requires maxValue != 0
    ensures fresh(a)
    ensures a[..] == Cyclic(size, maxValue)
  {
    a := new int[size];
    for i := 0 to size
      invariant forall k :: 0 <= k < i ==> a[k] == k % maxValue + 1
    {
      a[i] := i % maxValue + 1;
    }
    var i := a.Length - 1;
    while i > 0
      invariant -1 <= i < a.Length
      invariant a[..] == Cyclic(size, maxValue)
    {
      var j := i % (i + 1);
      ShuffleIndexIsSelf(i);
      a[i], a[j] := a[j], a[i];
      i := i - 1;
    }
  }
}
