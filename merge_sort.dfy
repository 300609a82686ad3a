/** The merge sort executor: top-down recursive merge sort over a copy of the
    input, merging through two temporary slices. */
module MergeSort {
  import opened Types
  import opened Sequences
  import Generators

  /** The description GetMetadata reports. */
  const Description := "A divide-and-conquer algorithm that divides the array into two halves, sorts them separately, and then merges them back together."

  function Metadata(): Descriptor
  {
    Descriptor(
      "merge_sort", "Merge Sort", Sorting,
      Description,
      "Time: O(n log n), Space: O(n)",
      [ ParamSpec("array_size", "int", "Size of the array to sort", IntV(10), Some(3), Some(100), true),
        ParamSpec("show_divisions", "bool", "Show division steps in visualization", BoolV(true), None, None, false) ])
  }

  /** Rejects an int `array_size` outside [3, 100]; `show_divisions` is not
      checked. */
  function ValidateParameters(params: Params): (r: Outcome)
    ensures r.Pass? <==> 3 <= IntParam(params, "array_size", 10) <= 100
  {
    CheckIntRange(params, "array_size", 10, 3, 100, "array_size must be between 3 and 100")
  }

  /** The sequence `merge` writes back: repeatedly take the smaller head, the
      left one on a tie. */
  function Merged(l: seq<int>, r: seq<int>): (m: seq<int>)
    ensures |m| == |l| + |r|
    decreases |l| + |r|
  {
    if l == [] then r
    else if r == [] then l
    else if l[0] <= r[0] then [l[0]] + Merged(l[1..], r)
    else [r[0]] + Merged(l, r[1..])
  }

  /** Merging loses and invents nothing. */
  lemma {:induction false} MergedPermutation(l: seq<int>, r: seq<int>)
    ensures multiset(Merged(l, r)) == multiset(l) + multiset(r)
    decreases |l| + |r|
  {
    if l == [] || r == [] {
    } else if l[0] <= r[0] {
      MergedPermutation(l[1..], r);
      assert Merged(l, r) == [l[0]] + Merged(l[1..], r);
      assert l == [l[0]] + l[1..];
      assert multiset(l) == multiset{l[0]} + multiset(l[1..]);
    } else {
      MergedPermutation(l, r[1..]);
      assert Merged(l, r) == [r[0]] + Merged(l, r[1..]);
      assert r == [r[0]] + r[1..];
      assert multiset(r) == multiset{r[0]} + multiset(r[1..]);
    }
  }

  /** Merging two sorted halves gives a sorted whole. */
  lemma {:induction false} MergedSorted(l: seq<int>, r: seq<int>)
    requires Sorted(l) && Sorted(r)
    ensures Sorted(Merged(l, r))
    decreases |l| + |r|
  {
    if l == [] || r == [] {
    } else if l[0] <= r[0] {
      var rest := Merged(l[1..], r);
      MergedSorted(l[1..], r);
      MergedPermutation(l[1..], r);
      HeadBelowAll(l, r);
      PermutationKeepsLowerBound(rest, l[1..] + r, l[0]);
      SortedCons(l[0], rest);
    } else {
      var rest := Merged(l, r[1..]);
      MergedSorted(l, r[1..]);
      MergedPermutation(l, r[1..]);
      HeadBelowAll(r, l);
      assert multiset(r[1..] + l) == multiset(l + r[1..]);
      PermutationKeepsLowerBound(rest, r[1..] + l, r[0]);
      SortedCons(r[0], rest);
    }
  }

  /** The smaller of two sorted heads is a lower bound of everything else. */
  lemma HeadBelowAll(l: seq<int>, r: seq<int>)
    requires Sorted(l) && Sorted(r) && l != [] && r != [] && l[0] <= r[0]
    ensures AllAtLeast(l[1..] + r, l[0])
  {
    forall k | 0 <= k < |l[1..] + r|
      ensures l[0] <= (l[1..] + r)[k]
    {
      if k < |l| - 1 {
        assert (l[1..] + r)[k] == l[k + 1];
      } else {
        assert (l[1..] + r)[k] == r[k - |l| + 1];
      }
    }
  }

  /** A lower bound of a sorted sequence can go in front of it. */
  lemma SortedCons(x: int, s: seq<int>)
    requires Sorted(s) && AllAtLeast(s, x)
    ensures Sorted([x] + s)
  {
    forall i, j | 0 <= i < j < |s| + 1
      ensures ([x] + s)[i] <= ([x] + s)[j]
    {
      assert ([x] + s)[j] == s[j - 1];
      if i > 0 {
        assert ([x] + s)[i] == s[i - 1];
      }
    }
  }

  /** merge: copy both halves out, then write the merge back into
      `a[left..right]`, touching nothing else. */
  method MergeHalves(a: array<int>, left: nat, mid: nat, right: nat) returns (actions: seq<Action>)
    requires left <= mid < right < a.Length
    modifies a
    ensures MergedAt(old(a[..]), a[..], left, mid, right)
  {
    var leftArr := a[left..mid + 1];
    var rightArr := a[mid + 1..right + 1];
    assert leftArr == a[..][left..mid + 1] && rightArr == a[..][mid + 1..right + 1];
    ghost var merged := Merged(leftArr, rightArr);
    var i, j;
    i, j, actions := MergeHeads(a, left, right, leftArr, rightArr);
    var k := left + i + j;
    ghost var tail := leftArr[i..] + rightArr[j..];
    MergedWithEmpty(leftArr[i..], rightArr[j..]);
    CopyTail(a, k, right, leftArr[i..], rightArr[j..]);
    Assembled(a[..], left, k, right, merged, tail);
  }

  /** A merged prefix followed by the rest of the merge reads back as the
      whole merge. */
  lemma Assembled(s: seq<int>, left: int, k: int, right: int, merged: seq<int>, tail: seq<int>)
    requires 0 <= left <= k <= right + 1 <= |s| && |merged| == right - left + 1
    requires tail == merged[k - left..]
    requires forall m :: left <= m < k ==> s[m] == merged[m - left]
    requires forall m :: k <= m <= right ==> s[m] == tail[m - k]
    ensures s[left..right + 1] == merged
  {
  }

  /** `after` is `before` with the sorted halves `[left, mid]` and
      `[mid + 1, right]` merged in place and nothing else changed. */
  ghost predicate MergedAt(before: seq<int>, after: seq<int>, left: int, mid: int, right: int)
  {
    && |after| == |before|
    && 0 <= left <= mid < right < |before|
    && after[left..right + 1] == Merged(before[left..mid + 1], before[mid + 1..right + 1])
    && forall k :: 0 <= k < |before| && !(left <= k <= right) ==> after[k] == before[k]
  }

  /** Once one side is used up, the merge is the other side. */
  lemma MergedWithEmpty(l: seq<int>, r: seq<int>)
    requires l == [] || r == []
    ensures Merged(l, r) == l + r
  {
    if l == [] {
      assert l + r == r;
    } else {
      assert l + r == l;
    }
  }

  /** The first loop of merge: while both temporary slices have elements,
      write the smaller head (the left one on a tie) to `a[left + i + j]`.
      On exit one slice is used up, and what is left of the merge is the
      remainder of the other. */
  method MergeHeads(a: array<int>, left: nat, right: nat, leftArr: seq<int>, rightArr: seq<int>)
    returns (i: nat, j: nat, actions: seq<Action>)
    requires left + |leftArr| + |rightArr| == right + 1 <= a.Length
    modifies a
    ensures i <= |leftArr| && j <= |rightArr| && (i == |leftArr| || j == |rightArr|)
    ensures Merged(leftArr[i..], rightArr[j..]) == Merged(leftArr, rightArr)[i + j..]
    ensures forall m :: left <= m < left + i + j ==> a[m] == Merged(leftArr, rightArr)[m - left]
    ensures forall m :: 0 <= m < a.Length && !(left <= m <= right) ==> a[m] == old(a[m])
    ensures |actions| == i + j && forall t :: 0 <= t < |actions| ==> actions[t] == CompareMerge
  {
    ghost var merged := Merged(leftArr, rightArr);
    i, j, actions := 0, 0, [];
    var k := left;
    assert leftArr[0..] == leftArr && rightArr[0..] == rightArr;
    while i < |leftArr| && j < |rightArr|
      invariant 0 <= i <= |leftArr| && 0 <= j <= |rightArr| && k == left + i + j
      invariant Merged(leftArr[i..], rightArr[j..]) == merged[i + j..]
      invariant forall m :: left <= m < k ==> a[m] == merged[m - left]
      invariant forall m :: 0 <= m < a.Length && !(left <= m <= right) ==> a[m] == old(a[m])
      invariant |actions| == i + j && forall t :: 0 <= t < |actions| ==> actions[t] == CompareMerge
    {
      actions := actions + [CompareMerge];
      i, j := TakeSmaller(a, k, leftArr, rightArr, i, j, merged);
      assert a[k] == merged[k - left];
      k := k + 1;
    }
  }

  /** The body of the first merge loop: write the smaller head (the left one
      on a tie) to `a[k]` and advance past it. */
  method TakeSmaller(a: array<int>, k: nat, leftArr: seq<int>, rightArr: seq<int>, i: nat, j: nat, ghost merged: seq<int>)
    returns (i': nat, j': nat)
    requires k < a.Length && i < |leftArr| && j < |rightArr| && i + j < |merged|
    requires Merged(leftArr[i..], rightArr[j..]) == merged[i + j..]
    modifies a
    ensures (i', j') == (i + 1, j) || (i', j') == (i, j + 1)
    ensures a[k] == merged[i + j] && Merged(leftArr[i'..], rightArr[j'..]) == merged[i' + j'..]
    ensures forall m :: 0 <= m < a.Length && m != k ==> a[m] == old(a[m])
  {
    MergedStep(leftArr, rightArr, i, j, merged);
    if leftArr[i] <= rightArr[j] {
      a[k] := leftArr[i];
      i', j' := i + 1, j;
    } else {
      a[k] := rightArr[j];
      i', j' := i, j + 1;
    }
  }

  /** One step of the merge loop: when `merged` continues with the merge of
      the remainders, the smaller head (the left one on a tie) comes next and
      the merge of what is left after it follows. */
  lemma MergedStep(l: seq<int>, r: seq<int>, i: nat, j: nat, merged: seq<int>)
    requires i < |l| && j < |r| && i + j <= |merged|
    requires Merged(l[i..], r[j..]) == merged[i + j..]
    ensures l[i] <= r[j] ==> merged[i + j] == l[i] && Merged(l[i + 1..], r[j..]) == merged[i + j + 1..]
    ensures r[j] < l[i] ==> merged[i + j] == r[j] && Merged(l[i..], r[j + 1..]) == merged[i + j + 1..]
  {
    assert l[i..][1..] == l[i + 1..];
    assert r[j..][1..] == r[j + 1..];
    assert merged[i + j..][1..] == merged[i + j + 1..];
  }

  /** The two trailing loops of merge: whatever is left of one temporary slice
      is copied to `a[k..]`; nothing else changes. */
  method CopyRemaining(a: array<int>, rest: seq<int>, k: nat)
    requires k + |rest| <= a.Length
    modifies a
    ensures forall m :: k <= m < k + |rest| ==> a[m] == rest[m - k]
    ensures forall m :: 0 <= m < a.Length && !(k <= m < k + |rest|) ==> a[m] == old(a[m])
  {
    var i := 0;
    while i < |rest|
      invariant 0 <= i <= |rest|
      invariant forall m :: k <= m < k + i ==> a[m] == rest[m - k]
      invariant forall m :: 0 <= m < a.Length && !(k <= m < k + i) ==> a[m] == old(a[m])
    {
      a[k + i] := rest[i];
      i := i + 1;
    }
  }

  /** The two copy-back loops of merge: what is left of the left half,
      then what is left of the right half, from index `k` on. */
  method CopyTail(a: array<int>, k: nat, right: nat, l: seq<int>, r: seq<int>)
    requires k + |l| + |r| == right + 1 <= a.Length
    modifies a
    ensures forall m :: k <= m <= right ==> a[m] == (l + r)[m - k]
    ensures forall m :: 0 <= m < a.Length && !(k <= m <= right) ==> a[m] == old(a[m])
  {
    CopyRemaining(a, l, k);
    CopyRemaining(a, r, k + |l|);
    forall m | k <= m <= right
      ensures a[m] == (l + r)[m - k]
    {
      if m < k + |l| {
        assert (l + r)[m - k] == l[m - k];
      } else {
        assert (l + r)[m - k] == r[m - k - |l|];
      }
    }
  }

  /** mergeSort: sorts `a[left..right]` and leaves every other index alone. */
  method MergeSortRange(a: array<int>, left: int, right: int, showDivisions: bool) returns (actions: seq<Action>)
    requires 0 <= left <= right + 1 <= a.Length
    modifies a
    ensures SortsRange(old(a[..]), a[..], left, right)
    decreases right - left
  {
    actions := [];
    if left < right {
      var mid := left + (right - left) / 2;
      if showDivisions {
        actions := actions + [Divide];
      }
      ghost var a0 := a[..];
      var leftActions := MergeSortRange(a, left, mid, showDivisions);
      ghost var a1 := a[..];
      var rightActions := MergeSortRange(a, mid + 1, right, showDivisions);
      ghost var a2 := a[..];
      actions := actions + leftActions + rightActions + [Merge];
      var mergeActions := MergeHalves(a, left, mid, right);
      actions := actions + mergeActions;
      SortedRun(a0, a1, a2, a[..], left, mid, right);
    } else {
      assert a[left..right + 1] == [] || a[left..right + 1] == [a[left]];
    }
  }

  /** The bookkeeping behind MergeSortRange: `a0` is the range before the
      recursive calls, `a1` after sorting the left half, `a2` after sorting
      the right half and `a3` after merging. */
  lemma SortedRun(a0: seq<int>, a1: seq<int>, a2: seq<int>, a3: seq<int>, left: nat, mid: nat, right: nat)
    requires left <= mid < right < |a0|
    requires SortsRange(a0, a1, left, mid) && SortsRange(a1, a2, mid + 1, right)
    requires MergedAt(a2, a3, left, mid, right)
    ensures SortsRange(a0, a3, left, right)
  {
    assert a2[left..mid + 1] == a1[left..mid + 1];
    assert a1[mid + 1..right + 1] == a0[mid + 1..right + 1];
    assert a0[left..right + 1] == a0[left..mid + 1] + a0[mid + 1..right + 1];
    MergedSorted(a2[left..mid + 1], a2[mid + 1..right + 1]);
    MergedPermutation(a2[left..mid + 1], a2[mid + 1..right + 1]);
  }

  /** Execute: sorts a copy, so a supplied slice is left as it was. */
  method Execute(input: Input, params: Params) returns (r: Result<seq<int>>, actions: seq<Action>)
    requires ValidateParameters(params).Pass?
    ensures r.Err? <==> input.OtherInput?
    ensures r.Err? ==> actions == []
    ensures r.Ok? ==> Sorted(r.value)
    ensures r.Ok? ==> |actions| >= 2 && actions[0] == Initialize && actions[|actions| - 1] == Complete
    ensures input.IntSlice? ==> r.Ok? && multiset(r.value) == multiset(input.arr[..])
    ensures input.NoInput? ==> r.Ok? && r.value == Ascending(IntParam(params, "array_size", 10))
  {
    var arr: array<int>;
    match input {
      case OtherInput(_) =>
        return Err("invalid input type, expected []int"), [];
      case IntSlice(a) =>
        arr := a;
      case NoInput =>
        arr := Generators.GenerateRandomArray(IntParam(params, "array_size", 10));
    }
    var sortedArr := CopyOf(arr);
    ghost var before := sortedArr[..];
    var sortActions := MergeSortRange(sortedArr, 0, sortedArr.Length - 1, BoolParam(params, "show_divisions", true));
    SortsWhole(before, sortedArr[..]);
    actions := [Initialize] + sortActions + [Complete];
    r := Ok(sortedArr[..]);
    if input.NoInput? {
      SortedAscending(sortedArr[..], arr.Length);
    }
  }
}
