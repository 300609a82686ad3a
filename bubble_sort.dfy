/** The bubble sort executor: repeated passes of adjacent compare-and-swap
    over the array, stopping early after a pass without a swap. It sorts the
    caller's slice itself, without a copy. */
module BubbleSort {
  import opened Types
  import opened Sequences
  import Generators

  /** The description GetMetadata reports. */
  const Description := "A simple sorting algorithm that repeatedly steps through the list, compares adjacent elements and swaps them if they are in the wrong order."

  function Metadata(): Descriptor
  {
    Descriptor(
      "bubble_sort", "Bubble Sort", Sorting,
      Description,
      "Time: O(n²), Space: O(1)",
      [ ParamSpec("array_size", "int", "Size of the array to sort", IntV(10), Some(3), Some(100), true),
        ParamSpec("show_comparisons", "bool", "Show comparison steps in visualization", BoolV(true), None, None, false) ])
  }

  /** Rejects an int `array_size` outside [3, 100]; anything else passes. */
  function ValidateParameters(params: Params): (r: Outcome)
    ensures r.Pass? <==> 3 <= IntParam(params, "array_size", 10) <= 100
  {
    CheckIntRange(params, "array_size", 10, 3, 100, "array_size must be between 3 and 100")
  }

  /** The number of inner-loop iterations of the first `passes` outer passes
      over `n` elements: pass `p` compares the pairs `0 .. n - p - 2`. */
  function PassComparisons(n: int, passes: nat): int
  {
    if passes == 0 then 0 else PassComparisons(n, passes - 1) + (n - passes)
  }

  /** `actions` holds the given numbers of OuterLoop, Swap and
      EarlyTermination steps, one Compare step per comparison when `show`
      is set and none otherwise. */
  ghost predicate Tally(actions: seq<Action>, show: bool, outer: int, compares: int, swaps: int, early: int)
  {
    && multiset(actions)[OuterLoop] == outer
    && multiset(actions)[Compare] == (if show then compares else 0)
    && multiset(actions)[Swap] == swaps
    && multiset(actions)[EarlyTermination] == early
  }

  lemma AddCompare(a: seq<Action>, o: int, c: int, s: int, e: int)
    requires Tally(a, true, o, c, s, e)
    ensures Tally(a + [Compare], true, o, c + 1, s, e)
  {
  }

  lemma AddSwap(a: seq<Action>, show: bool, o: int, c: int, s: int, e: int)
    requires Tally(a, show, o, c, s, e)
    ensures Tally(a + [Swap], show, o, c, s + 1, e)
  {
  }

  lemma AddEarlyTermination(a: seq<Action>, show: bool, o: int, c: int, s: int)
    requires Tally(a, show, o, c, s, 0)
    ensures Tally(a + [EarlyTermination], show, o, c, s, 1)
  {
  }

  /** An outer iteration's steps: one OuterLoop step, then its pass. */
  lemma AddOuterLoop(p: seq<Action>, show: bool, c: int, s: int)
    requires Tally(p, show, 0, c, s, 0)
    ensures Tally([OuterLoop] + p, show, 1, c, s, 0)
  {
  }

  /** Tallies add up under concatenation. */
  lemma TallyAppend(a: seq<Action>, b: seq<Action>, show: bool, o1: int, c1: int, s1: int, o2: int, c2: int, s2: int)
    requires Tally(a, show, o1, c1, s1, 0) && Tally(b, show, o2, c2, s2, 0)
    ensures Tally(a + b, show, o1 + o2, c1 + c2, s1 + s2, 0)
  {
  }

  /** The state of a pass over the prefix `before[..m]` after its first `j`
      comparisons: `cur[j]` is the largest of `cur[..j + 1]`, the prefix is a
      rearrangement of `before[..m]` and the rest is untouched; before the
      first swap nothing has moved and the pairs compared so far were in
      order. */
  ghost predicate Swept(before: seq<int>, cur: seq<int>, m: nat, j: nat, swapped: bool)
  {
    && |cur| == |before| && j < m <= |cur|
    && (forall k :: 0 <= k <= j ==> cur[k] <= cur[j])
    && (forall k :: m <= k < |cur| ==> cur[k] == before[k])
    && multiset(cur[..m]) == multiset(before[..m])
    && (!swapped ==> cur == before && AdjacentSorted(cur[..j + 1]))
  }

  /** A comparison that swaps keeps Swept. */
  lemma SweptSwap(before: seq<int>, cur: seq<int>, m: nat, j: nat, swapped: bool)
    requires Swept(before, cur, m, j, swapped) && j + 1 < m && cur[j] > cur[j + 1]
    ensures Swept(before, cur[j := cur[j + 1]][j + 1 := cur[j]], m, j + 1, true)
  {
    SwapPermutes(cur, cur[j := cur[j + 1]][j + 1 := cur[j]], j, j + 1, 0, m);
  }

  /** A comparison that finds the pair in order keeps Swept. */
  lemma SweptKeep(before: seq<int>, cur: seq<int>, m: nat, j: nat, swapped: bool)
    requires Swept(before, cur, m, j, swapped) && j + 1 < m && cur[j] <= cur[j + 1]
    ensures Swept(before, cur, m, j + 1, swapped)
  {
    if !swapped {
      assert cur[..j + 2] == cur[..j + 1] + [cur[j + 1]];
    }
  }

  /** One pass of the inner loop over the unsorted prefix `arr[..m]`: compare
      each adjacent pair left to right and swap it when out of order. The
      largest prefix element ends at `m - 1`; a pass without a swap leaves
      the array as it was and has found every adjacent pair in order. */
  method Pass(arr: array<int>, m: nat, showComparisons: bool)
    returns (comparisons: nat, swaps: nat, swapped: bool, actions: seq<Action>)
    requires 1 <= m <= arr.Length
    modifies arr
    ensures Swept(old(arr[..]), arr[..], m, m - 1, swapped)
    ensures comparisons == m - 1 && swaps <= comparisons
    ensures swapped <==> swaps > 0
    ensures Tally(actions, showComparisons, 0, comparisons, swaps, 0)
  {
    comparisons, swaps, swapped, actions := 0, 0, false, [];
    ghost var before := arr[..];
    ghost var cur := before;
    assert cur[..1] == [cur[0]];
    var j := 0;
    while j < m - 1
      invariant 0 <= j <= m - 1
      invariant arr[..] == cur && Swept(before, cur, m, j, swapped)
      invariant comparisons == j && swaps <= comparisons
      invariant swapped <==> swaps > 0
      invariant Tally(actions, showComparisons, 0, comparisons, swaps, 0)
    {
      comparisons := comparisons + 1;
      if showComparisons {
        AddCompare(actions, 0, comparisons - 1, swaps, 0);
        actions := actions + [Compare];
      }
      if arr[j] > arr[j + 1] {
        SweptSwap(before, cur, m, j, swapped);
        Exchange(arr, j, j + 1);
        cur := cur[j := cur[j + 1]][j + 1 := cur[j]];
        AddSwap(actions, showComparisons, 0, comparisons, swaps, 0);
        swaps := swaps + 1;
        swapped := true;
        actions := actions + [Swap];
      } else {
        SweptKeep(before, cur, m, j, swapped);
      }
      j := j + 1;
    }
  }

  /** The outer loop of Execute. `comparisons`, `swaps` and the step tags are
      what the source reports; `passes` counts outer iterations and
      `earlyExit` records that a pass made no swap. */
  method SortInPlace(arr: array<int>, showComparisons: bool)
    returns (comparisons: nat, swaps: nat, passes: nat, earlyExit: bool, actions: seq<Action>)
    modifies arr
    ensures Sorted(arr[..])
    ensures multiset(arr[..]) == old(multiset(arr[..]))
    ensures swaps <= comparisons
    ensures comparisons == PassComparisons(arr.Length, passes)
    ensures earlyExit || passes == if arr.Length == 0 then 0 else arr.Length - 1
    ensures earlyExit ==> 1 <= passes
    ensures Tally(actions, showComparisons, passes, comparisons, swaps, if earlyExit then 1 else 0)
  {
    var n := arr.Length;
    comparisons, swaps, passes, earlyExit, actions := 0, 0, 0, false, [];
    ghost var start := arr[..];
    var i := 0;
    while i < n - 1
      invariant 0 <= i && (n > 0 ==> i <= n - 1) && (n == 0 ==> i == 0)
      invariant passes == i && !earlyExit
      invariant Bubbled(start, arr[..], i)
      invariant swaps <= comparisons == PassComparisons(n, i)
      invariant Tally(actions, showComparisons, passes, comparisons, swaps, 0)
    {
      var c, s, swapped, steps := Round(arr, i, showComparisons, start);
      TallyAppend(actions, steps, showComparisons, passes, comparisons, swaps, 1, c, s);
      comparisons, swaps, passes := comparisons + c, swaps + s, passes + 1;
      actions := actions + steps;
      if !swapped {
        AddEarlyTermination(actions, showComparisons, passes, comparisons, swaps);
        actions := actions + [EarlyTermination];
        earlyExit := true;
        return;
      }
      i := i + 1;
    }
    BubbledDone(start, arr[..], i);
  }

  /** One iteration of the outer loop: an OuterLoop step, then a pass over
      the unsorted prefix `arr[..arr.Length - i]`. */
  method Round(arr: array<int>, i: nat, showComparisons: bool, ghost start: seq<int>)
    returns (comparisons: nat, swaps: nat, swapped: bool, steps: seq<Action>)
    requires Bubbled(start, arr[..], i) && i + 1 < arr.Length
    modifies arr
    ensures Bubbled(start, arr[..], i + 1)
    ensures !swapped ==> Sorted(arr[..])
    ensures comparisons == arr.Length - i - 1 && swaps <= comparisons
    ensures swapped <==> swaps > 0
    ensures Tally(steps, showComparisons, 1, comparisons, swaps, 0)
  {
    var m := arr.Length - i;
    ghost var before := arr[..];
    var passSteps;
    comparisons, swaps, swapped, passSteps := Pass(arr, m, showComparisons);
    BubbledStep(start, before, arr[..], i, m, swapped);
    if !swapped {
      BubbledEarly(start, arr[..], i, m);
    }
    AddOuterLoop(passSteps, showComparisons, comparisons, swaps);
    steps := [OuterLoop] + passSteps;
  }

  /** After `i` passes: `cur` is a rearrangement of `start` whose last `i`
      elements are in order and at least every element before them. */
  ghost predicate Bubbled(start: seq<int>, cur: seq<int>, i: nat)
  {
    && |cur| == |start| && i <= |cur|
    && multiset(cur) == multiset(start)
    && (forall p, q :: |cur| - i <= p < q < |cur| ==> cur[p] <= cur[q])
    && (forall p, q :: 0 <= p < |cur| - i <= q < |cur| ==> cur[p] <= cur[q])
  }

  /** A pass over the unsorted prefix extends the sorted suffix by one. */
  lemma BubbledStep(start: seq<int>, before: seq<int>, after: seq<int>, i: nat, m: nat, swapped: bool)
    requires Bubbled(start, before, i) && i + 1 < |before| && m == |before| - i
    requires Swept(before, after, m, m - 1, swapped)
    ensures Bubbled(start, after, i + 1)
  {
    SweptWhole(before, after, m, swapped);
    PrefixStaysBelow(start, before, after, i, m, swapped);
    forall p, q | 0 <= p < m - 1 < q < |after|
      ensures after[p] <= after[q]
    {
      assert after[p] <= after[m - 1];
    }
  }

  /** A pass rearranges the whole array and leaves the suffix as it was. */
  lemma SweptWhole(before: seq<int>, after: seq<int>, m: nat, swapped: bool)
    requires 0 < m && Swept(before, after, m, m - 1, swapped)
    ensures after[m..] == before[m..] && multiset(after) == multiset(before)
  {
    assert after == after[..m] + after[m..] && before == before[..m] + before[m..];
  }

  /** The elements a pass rearranges stay below the sorted suffix. */
  lemma PrefixStaysBelow(start: seq<int>, before: seq<int>, after: seq<int>, i: nat, m: nat, swapped: bool)
    requires Bubbled(start, before, i) && i + 1 < |before| && m == |before| - i
    requires Swept(before, after, m, m - 1, swapped)
    requires after[m..] == before[m..]
    ensures forall p, q :: 0 <= p < m <= q < |after| ==> after[p] <= after[q]
  {
    forall q | m <= q < |after|
      ensures AllAtMost(after[..m], after[q])
    {
      assert AllAtMost(before[..m], before[q]);
      PermutationKeepsUpperBound(after[..m], before[..m], after[q]);
    }
    forall p, q | 0 <= p < m <= q < |after|
      ensures after[p] <= after[q]
    {
      assert after[p] == after[..m][p];
    }
  }

  /** After a pass without a swap the unsorted prefix is in order too, so
      the whole array is sorted. */
  lemma BubbledEarly(start: seq<int>, cur: seq<int>, i: nat, m: nat)
    requires Bubbled(start, cur, i + 1) && m == |cur| - i && 0 < m
    requires AdjacentSorted(cur[..m])
    ensures Sorted(cur) && multiset(cur) == multiset(start)
  {
    assert forall k :: 0 <= k < m - 1 ==> cur[..m][k] <= cur[..m][k + 1];
    assert AdjacentSorted(cur);
    AdjacentSortedIsSorted(cur);
  }

  /** Once all but the first element are placed, the array is sorted. */
  lemma BubbledDone(start: seq<int>, cur: seq<int>, i: nat)
    requires Bubbled(start, cur, i) && (|cur| > 0 ==> i == |cur| - 1) && (|cur| == 0 ==> i == 0)
    ensures Sorted(cur) && multiset(cur) == multiset(start)
  {
  }

  /** Execute: a supplied `[]int` is sorted in place and returned; no input
      means the generated array; any other input is an error with no steps. */
  method Execute(input: Input, params: Params) returns (r: Result<seq<int>>, actions: seq<Action>)
    requires ValidateParameters(params).Pass?
    modifies input.Footprint()
    ensures r.Err? <==> input.OtherInput?
    ensures r.Err? ==> actions == []
    ensures r.Ok? ==> Sorted(r.value)
    ensures r.Ok? ==> |actions| >= 2 && actions[0] == Initialize && actions[|actions| - 1] == Complete
    ensures input.IntSlice? ==> r.Ok? && r.value == input.arr[..]
    ensures input.IntSlice? ==> multiset(r.value) == old(multiset(input.arr[..]))
    ensures input.NoInput? ==> r.Ok? && r.value == Ascending(IntParam(params, "array_size", 10))
  {
    var arr: array<int>;
    match input {
      case OtherInput(_) =>
        return Err("invalid input type, expected []int"), [];
      case IntSlice(a) =>
        arr := a;
      case NoInput =>
        arr := Generators.GenerateRandomArray(IntParam(params, "array_size", 10));
    }
    var showComparisons := BoolParam(params, "show_comparisons", true);
    ghost var start := arr[..];
    var _, _, _, _, sortActions := SortInPlace(arr, showComparisons);
    actions := [Initialize] + sortActions + [Complete];
    r := Ok(arr[..]);
    if input.NoInput? {
      AscendingSorted(|start|);
      SortedPermutationUnique(arr[..], start);
    }
  }
}
