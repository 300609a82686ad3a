/** The binary search executor: sorts the array in place, then narrows the
    inclusive window `[left, right]` around the target by halving. */
module BinarySearch {
  import opened Types
  import opened Sequences
  import Generators
  import HeapSort

  /** The description GetMetadata reports. */
  const Description := "A search algorithm that finds the position of a target value within a sorted array by repeatedly dividing the search interval in half."

  function Metadata(): Descriptor
  {
    Descriptor(
      "binary_search", "Binary Search", Searching,
      Description,
      "Time: O(log n), Space: O(1)",
      [ ParamSpec("array_size", "int", "Size of the array to search", IntV(10), Some(3), Some(100), true),
        ParamSpec("target", "int", "Value to search for", IntV(5), None, None, true) ])
  }

  /** ValidateParameters: only `array_size` is checked; `target` may be any int. */
  function ValidateParameters(params: Params): (r: Outcome)
    ensures r.Pass? <==> 3 <= IntParam(params, "array_size", 10) <= 100
  {
    CheckIntRange(params, "array_size", 10, 3, 100, "array_size must be between 3 and 100")
  }

  /** The result map of a search: `found`, `index` (-1 when not found),
      `value` (nil when not found) and the number of middle elements checked. */
  datatype SearchResult = SearchResult(found: bool, index: int, value: Option<int>, comparisons: nat)

  /** 2 to the power `k`. */
  function Pow2(k: nat): (p: nat)
    ensures p >= 1
  {
    if k == 0 then 1 else 2 * Pow2(k - 1)
  }

  /** The number of binary digits of `n`, 0 for 0. */
  function Bits(n: nat): nat
  {
    if n == 0 then 0 else 1 + Bits(n / 2)
  }

  /** `Bits(n)` is the `b` with `2^(b-1) <= n < 2^b`: the bound on the
      checks of Search is floor(log2 n) + 1. */
  lemma {:induction false} BitsIsLog(n: nat)
    ensures n < Pow2(Bits(n))
    ensures n > 0 ==> Bits(n) >= 1 && Pow2(Bits(n) - 1) <= n
  {
    if n > 0 {
      BitsIsLog(n / 2);
    }
  }

  /** A longer window never has fewer digits. */
  lemma {:induction false} BitsMonotone(a: nat, b: nat)
    requires a <= b
    ensures Bits(a) <= Bits(b)
  {
    if a > 0 {
      BitsMonotone(a / 2, b / 2);
    }
  }

  /** What the loop keeps: the window `[left, right]` lies in the array,
      every index left of it holds something below the target and every
      index right of it something above; the checks made so far plus the
      digits of the window's length are at most the digits of `n`. */
  ghost predicate Window(s: seq<int>, target: int, left: int, right: int, comparisons: nat)
  {
    && 0 <= left <= right + 1 <= |s|
    && (forall k :: 0 <= k < left ==> s[k] < target)
    && (forall k :: right < k < |s| ==> s[k] > target)
    && comparisons + Bits(right - left + 1) <= Bits(|s|)
  }

  /** Halving a window of length `n` costs one digit. */
  lemma HalfBits(n: nat, m: nat)
    requires n >= 1 && m <= n / 2
    ensures 1 + Bits(m) <= Bits(n)
  {
    BitsMonotone(m, n / 2);
  }

  /** `arr[mid] < target`: the target can only be right of `mid`. */
  lemma GoRight(s: seq<int>, target: int, left: int, mid: int, right: int, comparisons: nat)
    requires Sorted(s) && Window(s, target, left, right, comparisons)
    requires left <= right && mid == left + (right - left) / 2 && s[mid] < target
    ensures Window(s, target, mid + 1, right, comparisons + 1)
  {
    HalfBits(right - left + 1, right - mid);
    assert Bits(right - (mid + 1) + 1) == Bits(right - mid);
    forall k | 0 <= k < mid + 1
      ensures s[k] < target
    {
      if k < mid {
        assert s[k] <= s[mid];
      }
    }
  }

  /** `arr[mid] > target`: the target can only be left of `mid`. */
  lemma GoLeft(s: seq<int>, target: int, left: int, mid: int, right: int, comparisons: nat)
    requires Sorted(s) && Window(s, target, left, right, comparisons)
    requires left <= right && mid == left + (right - left) / 2 && s[mid] > target
    ensures Window(s, target, left, mid - 1, comparisons + 1)
  {
    HalfBits(right - left + 1, mid - left);
    assert Bits(mid - 1 - left + 1) == Bits(mid - left);
    forall k | mid - 1 < k < |s|
      ensures s[k] > target
    {
      if mid < k {
        assert s[mid] <= s[k];
      }
    }
  }

  /** An empty window leaves no place for the target. */
  lemma Exhausted(s: seq<int>, target: int, left: int, right: int, comparisons: nat)
    requires Window(s, target, left, right, comparisons) && left > right
    ensures target !in s && comparisons <= Bits(|s|)
  {
    forall k | 0 <= k < |s|
      ensures s[k] != target
    {
      if k >= left {
        assert right < k;
      }
    }
  }

  /** One probe's steps: CheckMiddle, then the step saying what it found. */
  lemma Probe(actions: seq<Action>, comparisons: nat, step: Action)
    requires multiset(actions)[CheckMiddle] == comparisons && step != CheckMiddle
    ensures multiset(actions + [CheckMiddle, step])[CheckMiddle] == comparisons + 1
  {
  }

  /** The loop of Execute over an array already sorted. */
  method Search(arr: array<int>, target: int) returns (res: SearchResult, actions: seq<Action>)
    requires Sorted(arr[..])
    ensures res.found ==> 0 <= res.index < arr.Length && arr[res.index] == target && res.value == Some(target)
    ensures !res.found ==> target !in arr[..] && res.index == -1 && res.value == None
    ensures res.comparisons <= Bits(arr.Length)
    ensures multiset(actions)[CheckMiddle] == res.comparisons
    ensures |actions| > 0 && actions[|actions| - 1] == if res.found then Found else NotFound
  {
    ghost var s := arr[..];
    var left, right := 0, arr.Length - 1;
    var comparisons := 0;
    actions := [];
    while left <= right
      invariant Window(s, target, left, right, comparisons)
      invariant multiset(actions)[CheckMiddle] == comparisons
      decreases right - left
    {
      var mid := left + (right - left) / 2;
      if arr[mid] == target {
        Probe(actions, comparisons, Found);
        actions := actions + [CheckMiddle, Found];
        return SearchResult(true, mid, Some(arr[mid]), comparisons + 1), actions;
      }
      if arr[mid] < target {
        GoRight(s, target, left, mid, right, comparisons);
        left := mid + 1;
        Probe(actions, comparisons, SearchRight);
        actions := actions + [CheckMiddle, SearchRight];
      } else {
        GoLeft(s, target, left, mid, right, comparisons);
        right := mid - 1;
        Probe(actions, comparisons, SearchLeft);
        actions := actions + [CheckMiddle, SearchLeft];
      }
      comparisons := comparisons + 1;
    }
    Exhausted(s, target, left, right, comparisons);
    actions := actions + [NotFound];
    res := SearchResult(false, -1, None, comparisons);
  }

  /** `sort.Ints(arr)` followed by the search loop. */
  method SortThenSearch(arr: array<int>, target: int) returns (res: SearchResult, actions: seq<Action>)
    modifies arr
    ensures Sorted(arr[..]) && multiset(arr[..]) == old(multiset(arr[..]))
    ensures res.found <==> target in old(multiset(arr[..]))
    ensures res.found ==> 0 <= res.index < arr.Length && arr[res.index] == target
    ensures res.comparisons <= Bits(arr.Length)
    ensures |actions| > 0 && actions[|actions| - 1] == if res.found then Found else NotFound
  {
    var _ := HeapSort.HeapSortInPlace(arr, false);
    res, actions := Search(arr, target);
    assert res.found <==> target in multiset(arr[..]) by {
      if res.found {
        assert arr[..][res.index] == target;
      }
    }
  }

  /** Execute: the caller's slice (or the generated `[1..array_size]`) is
      sorted in place first, so a supplied slice comes back reordered; the
      library sort is played by the verified heap sort. */
  method Execute(input: Input, params: Params) returns (r: Result<SearchResult>, actions: seq<Action>)
    requires ValidateParameters(params).Pass?
    modifies input.Footprint()
    ensures r.Err? <==> input.OtherInput?
    ensures r.Err? ==> actions == []
    ensures r.Ok? ==> |actions| >= 2 && actions[0] == Initialize
    ensures r.Ok? ==> actions[|actions| - 1] == if r.value.found then Found else NotFound
    ensures input.IntSlice? ==> Sorted(input.arr[..]) && multiset(input.arr[..]) == old(multiset(input.arr[..]))
    ensures input.IntSlice? ==> r.Ok? && (r.value.found <==> IntParam(params, "target", 5) in old(input.arr[..]))
    ensures input.IntSlice? ==> r.Ok? && (r.value.found ==> 0 <= r.value.index < input.arr.Length && input.arr[r.value.index] == IntParam(params, "target", 5))
    ensures input.IntSlice? ==> r.Ok? && r.value.comparisons <= Bits(input.arr.Length)
    ensures input.NoInput? ==> r.Ok? && (r.value.found <==> 1 <= IntParam(params, "target", 5) <= IntParam(params, "array_size", 10))
    ensures input.NoInput? ==> r.Ok? && (r.value.found ==> r.value.index == IntParam(params, "target", 5) - 1)
  {
    var arr: array<int>;
    match input {
      case OtherInput(_) =>
        return Err("invalid input type, expected []int"), [];
      case IntSlice(a) =>
        arr := a;
      case NoInput =>
        arr := Generators.GenerateRandomArray(IntParam(params, "array_size", 10));
    }
    var target := IntParam(params, "target", 5);
    ghost var start := arr[..];
    var res, searchActions := SortThenSearch(arr, target);
    actions := [Initialize] + searchActions;
    r := Ok(res);
    if input.NoInput? {
      SortedAscending(arr[..], |start|);
      AscendingMembers(|start|, target);
    }
  }
}
