/** Order and permutation facts about integer sequences that the sorting and
    searching executors share, and the in-place swap they all perform. */
module Sequences {

  /** Non-decreasing order: what every sorting executor promises of its output. */
  ghost predicate Sorted(s: seq<int>)
  {
    forall i, j :: 0 <= i < j < |s| ==> s[i] <= s[j]
  }

  /** Each element is at most its right neighbour. */
  ghost predicate AdjacentSorted(s: seq<int>)
  {
    forall k :: 0 <= k < |s| - 1 ==> s[k] <= s[k + 1]
  }

  /** Every element is at most `v`. */
  ghost predicate AllAtMost(s: seq<int>, v: int)
  {
    forall k :: 0 <= k < |s| ==> s[k] <= v
  }

  /** Every element is at least `v`. */
  ghost predicate AllAtLeast(s: seq<int>, v: int)
  {
    forall k :: 0 <= k < |s| ==> v <= s[k]
  }

  /** Every element is greater than `v`. */
  ghost predicate AllAbove(s: seq<int>, v: int)
  {
    forall k :: 0 <= k < |s| ==> v < s[k]
  }

  /** `after` is `before` with the elements of the inclusive range
      `[lo, hi]` rearranged among themselves and every index outside it
      untouched. */
  ghost predicate Rearranged(before: seq<int>, after: seq<int>, lo: int, hi: int)
  {
    && |after| == |before|
    && 0 <= lo <= hi + 1 <= |before|
    && multiset(after[lo..hi + 1]) == multiset(before[lo..hi + 1])
    && forall k :: 0 <= k < |before| && !(lo <= k <= hi) ==> after[k] == before[k]
  }

  /** Exchanging two elements inside the range keeps a rearrangement. */
  lemma RearrangedSwap(before: seq<int>, cur: seq<int>, next: seq<int>, x: int, y: int, lo: int, hi: int)
    requires Rearranged(before, cur, lo, hi) && lo <= x <= hi && lo <= y <= hi
    requires next == cur[x := cur[y]][y := cur[x]]
    ensures Rearranged(before, next, lo, hi)
  {
    SwapPermutes(cur, next, x, y, lo, hi + 1);
    forall k | 0 <= k < |before| && !(lo <= k <= hi)
      ensures next[k] == before[k]
    {
      assert next[k] == cur[k];
    }
  }

  /** Two rearrangements of the same range make one. */
  lemma RearrangedTrans(s0: seq<int>, s1: seq<int>, s2: seq<int>, lo: int, hi: int)
    requires Rearranged(s0, s1, lo, hi) && Rearranged(s1, s2, lo, hi)
    ensures Rearranged(s0, s2, lo, hi)
  {
  }

  /** `after` is `before` with the inclusive range `[lo, hi]` sorted and
      every index outside it untouched: what the recursive sorts promise of
      each call. */
  ghost predicate SortsRange(before: seq<int>, after: seq<int>, lo: int, hi: int)
  {
    Rearranged(before, after, lo, hi) && Sorted(after[lo..hi + 1])
  }

  /** Sorting a range after rearranging it sorts the original range. */
  lemma RearrangedThenSorted(s0: seq<int>, s1: seq<int>, s2: seq<int>, lo: int, hi: int)
    requires Rearranged(s0, s1, lo, hi) && SortsRange(s1, s2, lo, hi)
    ensures SortsRange(s0, s2, lo, hi)
  {
  }

  /** Sorting the whole of a sequence sorts it and keeps its elements. */
  lemma SortsWhole(before: seq<int>, after: seq<int>)
    requires SortsRange(before, after, 0, |before| - 1)
    ensures Sorted(after) && multiset(after) == multiset(before)
  {
    assert after == after[0..|before|];
    assert before == before[0..|before|];
  }

  /** The array `[1, 2, ..., n]`. */
  function Ascending(n: nat): (s: seq<int>)
    ensures |s| == n
    ensures forall k :: 0 <= k < n ==> s[k] == k + 1
  {
    seq(n, k => k + 1)
  }

  /** The members of `[1, 2, ..., n]` are exactly the integers from 1 to n. */
  lemma AscendingMembers(n: nat, x: int)
    ensures x in Ascending(n) <==> 1 <= x <= n
  {
    if 1 <= x <= n {
      assert Ascending(n)[x - 1] == x;
    }
  }

  /** Adjacent order implies order, by induction on the distance `j - i`. */
  lemma {:induction false} AdjacentSortedIsSorted(s: seq<int>)
    requires AdjacentSorted(s)
    ensures Sorted(s)
  {
    forall i, j | 0 <= i < j < |s|
      ensures s[i] <= s[j]
    {
      AdjacentChain(s, i, j);
    }
  }

  lemma {:induction false} AdjacentChain(s: seq<int>, i: int, j: int)
    requires AdjacentSorted(s)
    requires 0 <= i <= j < |s|
    ensures s[i] <= s[j]
    decreases j - i
  {
    if i < j {
      AdjacentChain(s, i + 1, j);
    }
  }

  /** The ascending array is sorted. */
  lemma AscendingSorted(n: nat)
    ensures Sorted(Ascending(n))
  {
  }

  /** Two sorted arrangements of the same multiset are equal: whichever sort
      an executor runs, its sorted output is determined by the input alone. */
  lemma {:induction false} SortedPermutationUnique(s: seq<int>, t: seq<int>)
    requires Sorted(s) && Sorted(t)
    requires multiset(s) == multiset(t)
    ensures s == t
    decreases |s|
  {
    assert |t| == |multiset(t)| == |multiset(s)| == |s|;
    if |s| != 0 {
      SortedHeadIsLeast(s, t[0]);
      SortedHeadIsLeast(t, s[0]);
      SortedTail(s);
      SortedTail(t);
      TailsPermutation(s, t);
      SortedPermutationUnique(s[1..], t[1..]);
      SameHeadSameTail(s, t);
    }
  }

  /** The head of a sorted sequence is at most any of its elements. */
  lemma SortedHeadIsLeast(s: seq<int>, x: int)
    requires Sorted(s) && x in multiset(s)
    ensures s[0] <= x
  {
    var k :| 0 <= k < |s| && s[k] == x;
  }

  /** Dropping the head keeps a sequence sorted. */
  lemma SortedTail(s: seq<int>)
    requires Sorted(s) && s != []
    ensures Sorted(s[1..])
  {
    forall i, j | 0 <= i < j < |s| - 1
      ensures s[1..][i] <= s[1..][j]
    {
      assert s[1..][i] == s[i + 1] && s[1..][j] == s[j + 1];
    }
  }

  /** Equal heads of two permutations of each other leave tails that are
      permutations of each other. */
  lemma TailsPermutation(s: seq<int>, t: seq<int>)
    requires s != [] && t != [] && s[0] == t[0] && multiset(s) == multiset(t)
    ensures multiset(s[1..]) == multiset(t[1..])
  {
    assert multiset(s) == multiset([s[0]]) + multiset(s[1..]) by {
      assert s == [s[0]] + s[1..];
    }
    assert multiset(t) == multiset([t[0]]) + multiset(t[1..]) by {
      assert t == [t[0]] + t[1..];
    }
    assert multiset(s[1..]) == multiset(s) - multiset([s[0]]);
    assert multiset(t[1..]) == multiset(t) - multiset([t[0]]);
  }

  /** Two permutations of each other that agree from `i` on are
      permutations of each other before `i` as well. */
  lemma PrefixPermutation(s: seq<int>, t: seq<int>, i: nat)
    requires i <= |s| == |t| && multiset(s) == multiset(t) && s[i..] == t[i..]
    ensures multiset(s[..i]) == multiset(t[..i])
  {
    assert multiset(s) == multiset(s[..i]) + multiset(s[i..]) by {
      assert s == s[..i] + s[i..];
    }
    assert multiset(t) == multiset(t[..i]) + multiset(t[i..]) by {
      assert t == t[..i] + t[i..];
    }
    assert multiset(s[..i]) == multiset(s) - multiset(s[i..]);
    assert multiset(t[..i]) == multiset(t) - multiset(t[i..]);
  }

  /** Sequences that agree on their head and their tail are equal. */
  lemma SameHeadSameTail(s: seq<int>, t: seq<int>)
    requires s != [] && t != [] && s[0] == t[0] && s[1..] == t[1..]
    ensures s == t
  {
    assert s == [s[0]] + s[1..];
    assert t == [t[0]] + t[1..];
  }

  /** A bound on every element survives any rearrangement of the elements. */
  lemma PermutationKeepsUpperBound(s: seq<int>, t: seq<int>, v: int)
    requires multiset(s) == multiset(t)
    requires AllAtMost(t, v)
    ensures AllAtMost(s, v)
  {
    forall k | 0 <= k < |s|
      ensures s[k] <= v
    {
      assert s[k] in multiset(t);
    }
  }

  /** The same for a lower bound. */
  lemma PermutationKeepsLowerBound(s: seq<int>, t: seq<int>, v: int)
    requires multiset(s) == multiset(t)
    requires AllAtLeast(t, v)
    ensures AllAtLeast(s, v)
  {
    forall k | 0 <= k < |s|
      ensures v <= s[k]
    {
      assert s[k] in multiset(t);
    }
  }

  /** And for a strict lower bound. */
  lemma PermutationKeepsStrictLowerBound(s: seq<int>, t: seq<int>, v: int)
    requires multiset(s) == multiset(t)
    requires AllAbove(t, v)
    ensures AllAbove(s, v)
  {
    forall k | 0 <= k < |s|
      ensures v < s[k]
    {
      assert s[k] in multiset(t);
    }
  }

  /** `make([]int, len(a))` followed by `copy`: a fresh array with the
      same elements. */
  method CopyOf(a: array<int>) returns (c: array<int>)
    ensures fresh(c) && c[..] == a[..]
  {
    c := new int[a.Length](k requires 0 <= k < a.Length reads a => a[k]);
  }

  /** A sorted rearrangement of `[1, ..., n]` is `[1, ..., n]` itself. */
  lemma SortedAscending(s: seq<int>, n: nat)
    requires Sorted(s) && multiset(s) == multiset(Ascending(n))
    ensures s == Ascending(n)
  {
    AscendingSorted(n);
    SortedPermutationUnique(s, Ascending(n));
  }

  /** The exchange `a[x], a[y] = a[y], a[x]`, stated on the whole array. */
  method Exchange(a: array<int>, x: nat, y: nat)
    requires x < a.Length && y < a.Length
    modifies a
    ensures a[..] == old(a[..])[x := old(a[y])][y := old(a[x])]
  {
    a[x], a[y] := a[y], a[x];
  }

  /** The Go swap `a[x], a[y] = a[y], a[x]`, seen as a rearrangement of the
      range `a[lo..hi)` that contains both indices. */
  method SwapElements(a: array<int>, x: nat, y: nat, lo: nat, hi: nat)
    requires lo <= x < hi && lo <= y < hi && hi <= a.Length
    modifies a
    ensures a[x] == old(a[y]) && a[y] == old(a[x])
    ensures forall k :: 0 <= k < a.Length && k != x && k != y ==> a[k] == old(a[k])
    ensures multiset(a[lo..hi]) == old(multiset(a[lo..hi]))
    ensures multiset(a[..]) == old(multiset(a[..]))
  {
    a[x], a[y] := a[y], a[x];
    assert a[..] == old(a[..])[x := old(a[y])][y := old(a[x])];
    SwapPermutes(old(a[..]), a[..], x, y, lo, hi);
  }

  /** Exchanging two elements of a range keeps the multiset of the range
      and of the whole sequence. */
  lemma SwapPermutes(s0: seq<int>, s1: seq<int>, x: nat, y: nat, lo: nat, hi: nat)
    requires lo <= x < hi && lo <= y < hi && hi <= |s0|
    requires s1 == s0[x := s0[y]][y := s0[x]]
    ensures multiset(s1[lo..hi]) == multiset(s0[lo..hi])
    ensures multiset(s1) == multiset(s0)
  {
    assert s1[lo..hi] == s0[lo..hi][x - lo := s0[y]][y - lo := s0[x]];
  }
}
