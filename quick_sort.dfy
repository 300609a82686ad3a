/** The quick sort executor: recursive quick sort over a copy of the input,
    with a Lomuto partition around a pivot chosen by the `pivot_strategy`
    parameter and first moved to the end of the range. */
module QuickSort {
  import opened Types
  import opened Sequences
  import Generators

  /** The description GetMetadata reports. */
  const Description := "A divide-and-conquer algorithm that picks a pivot element and partitions the array around the pivot."

  function Metadata(): Descriptor
  {
    Descriptor(
      "quick_sort", "Quick Sort", Sorting,
      Description,
      "Time: O(n log n) average, O(n²) worst case, Space: O(log n)",
      [ ParamSpec("array_size", "int", "Size of the array to sort", IntV(10), Some(3), Some(100), true),
        ParamSpec("pivot_strategy", "string", "Pivot selection strategy", StrV("middle"), None, None, false) ])
  }

  /** The strategies ValidateParameters accepts, in the order it tries them. */
  const ValidStrategies: seq<string> := ["first", "last", "middle"]

  /** What ValidateParameters accepts: an int `array_size` in [3, 100] (or no
      int at all) and a string `pivot_strategy` among ValidStrategies (or no
      string at all). */
  predicate ParametersValid(params: Params)
  {
    && 3 <= IntParam(params, "array_size", 10) <= 100
    && ("pivot_strategy" in params && params["pivot_strategy"].StrV? ==> params["pivot_strategy"].s in ValidStrategies)
  }

  /** ValidateParameters: the size check first, then a linear scan of the
      valid strategy names with early exit. */
  method ValidateParameters(params: Params) returns (r: Outcome)
    ensures r.Pass? <==> ParametersValid(params)
    ensures !(3 <= IntParam(params, "array_size", 10) <= 100) ==> r == Fail("array_size must be between 3 and 100")
    ensures 3 <= IntParam(params, "array_size", 10) <= 100 && !ParametersValid(params) ==>
              r == Fail("pivot_strategy must be one of: first, last, middle")
  {
    if "array_size" in params && params["array_size"].IntV? {
      var arraySize := params["array_size"].i;
      if arraySize < 3 || arraySize > 100 {
        return Fail("array_size must be between 3 and 100");
      }
    }
    if "pivot_strategy" in params && params["pivot_strategy"].StrV? {
      var strategy := params["pivot_strategy"].s;
      var valid := false;
      var k := 0;
      while k < |ValidStrategies|
        invariant 0 <= k <= |ValidStrategies|
        invariant valid <==> strategy in ValidStrategies[..k]
      {
        if ValidStrategies[k] == strategy {
          valid := true;
          assert strategy in ValidStrategies[..k + 1];
          break;
        }
        assert ValidStrategies[..k + 1] == ValidStrategies[..k] + [ValidStrategies[k]];
        k := k + 1;
      }
      assert ValidStrategies[..|ValidStrategies|] == ValidStrategies;
      if !valid {
        return Fail("pivot_strategy must be one of: first, last, middle");
      }
    }
    return Pass;
  }

  /** The pivot index partition picks: "first" the low end, "last" the high
      end, and "middle" or any other string the lower middle. */
  function PivotIndex(strategy: string, low: int, high: int): (p: int)
    requires low <= high
    ensures low <= p <= high
    ensures strategy == "first" ==> p == low
    ensures strategy == "last" ==> p == high
    ensures strategy != "first" && strategy != "last" ==> p - low == (high - low) / 2
  {
    match strategy
    case "first" => low
    case "last" => high
    case _ => low + (high - low) / 2
  }

  /** partition: move the pivot to `high`, run the Lomuto sweep, then swap
      the pivot into `i + 1` and return that index. */
  method Partition(a: array<int>, low: nat, high: nat, strategy: string)
    returns (p: int, actions: seq<Action>)
    requires low < high < a.Length
    modifies a
    ensures low <= p <= high
    ensures a[p] == old(a[PivotIndex(strategy, low, high)])
    ensures PartitionedAt(a[..], low, p, high)
    ensures Rearranged(old(a[..]), a[..], low, high)
    ensures |actions| >= 2 && actions[0] == SelectPivot && actions[|actions| - 1] == PivotPositioned
    ensures multiset(actions)[ComparePivot] == high - low
  {
    var pivotIndex := PivotIndex(strategy, low, high);
    ghost var s0 := a[..];
    Exchange(a, pivotIndex, high);
    ghost var s1 := a[..];
    var i, sweepActions := Sweep(a, low, high);
    ghost var s2 := a[..];
    p := i + 1;
    Exchange(a, p, high);
    PivotPlaced(s0, s1, s2, a[..], pivotIndex, low, i, high);
    actions := [SelectPivot] + sweepActions + [PivotPositioned];
  }

  /** The pivot at `p` splits the inclusive range `[low, high]`: nothing
      before it is larger, everything after it is larger. */
  ghost predicate PartitionedAt(s: seq<int>, low: int, p: int, high: int)
  {
    && 0 <= low <= p <= high < |s|
    && (forall k :: low <= k < p ==> s[k] <= s[p])
    && (forall k :: p < k <= high ==> s[k] > s[p])
  }

  /** The state of the sweep after looking at `before[low..j]`, with the
      pivot held at `high`: `cur[low..i+1]` is at most the pivot and
      `cur[i+1..j]` is above it. */
  ghost predicate Sweeping(before: seq<int>, cur: seq<int>, low: int, i: int, j: int, high: int)
  {
    && low <= j <= high && low - 1 <= i < j
    && Rearranged(before, cur, low, high) && cur[high] == before[high]
    && (forall k :: low <= k <= i ==> cur[k] <= cur[high])
    && (forall k :: i < k < j ==> cur[k] > cur[high])
  }

  /** An element at most the pivot is swapped to the end of the low block. */
  lemma SweepTake(before: seq<int>, cur: seq<int>, low: nat, i: int, j: nat, high: nat)
    requires Sweeping(before, cur, low, i, j, high) && j < high && cur[j] <= cur[high]
    ensures Sweeping(before, cur[i + 1 := cur[j]][j := cur[i + 1]], low, i + 1, j + 1, high)
  {
    var next := cur[i + 1 := cur[j]][j := cur[i + 1]];
    RearrangedSwap(before, cur, next, i + 1, j, low, high);
    assert next[high] == cur[high];
    forall k | low <= k <= i + 1
      ensures next[k] <= next[high]
    {
      if k <= i {
        assert next[k] == cur[k];
      }
    }
    forall k | i + 1 < k < j + 1
      ensures next[k] > next[high]
    {
      if k < j {
        assert next[k] == cur[k];
      }
    }
  }

  /** An element above the pivot stays where it is. */
  lemma SweepSkip(before: seq<int>, cur: seq<int>, low: nat, i: int, j: nat, high: nat)
    requires Sweeping(before, cur, low, i, j, high) && j < high && cur[j] > cur[high]
    ensures Sweeping(before, cur, low, i, j + 1, high)
  {
  }

  /** The two exchanges of partition around the sweep: `s0` to `s1` brings
      the pivot from `pivotIndex` to `high`, `s1` to `s2` is the sweep, and
      `s2` to `s3` brings the pivot to `i + 1`. */
  lemma PivotPlaced(s0: seq<int>, s1: seq<int>, s2: seq<int>, s3: seq<int>, pivotIndex: nat, low: nat, i: int, high: nat)
    requires low <= pivotIndex <= high < |s0| == |s2|
    requires s1 == s0[pivotIndex := s0[high]][high := s0[pivotIndex]]
    requires Sweeping(s1, s2, low, i, high, high)
    requires s3 == s2[i + 1 := s2[high]][high := s2[i + 1]]
    ensures PartitionedAt(s3, low, i + 1, high) && s3[i + 1] == s0[pivotIndex]
    ensures Rearranged(s0, s3, low, high)
  {
    PivotSplits(s1, s2, s3, low, i, high);
    RearrangedSwap(s0, s0, s1, pivotIndex, high, low, high);
    RearrangedTrans(s0, s1, s3, low, high);
  }

  /** The last exchange of partition, from the end of the sweep `s2` to
      `s3`, puts the pivot between the two blocks. */
  lemma PivotSplits(s1: seq<int>, s2: seq<int>, s3: seq<int>, low: nat, i: int, high: nat)
    requires Sweeping(s1, s2, low, i, high, high)
    requires s3 == s2[i + 1 := s2[high]][high := s2[i + 1]]
    ensures PartitionedAt(s3, low, i + 1, high) && s3[i + 1] == s1[high]
    ensures Rearranged(s1, s3, low, high)
  {
    RearrangedSwap(s1, s2, s3, i + 1, high, low, high);
    forall k | low <= k < i + 1
      ensures s3[k] <= s3[i + 1]
    {
      assert s3[k] == s2[k];
    }
    forall k | i + 1 < k <= high
      ensures s3[k] > s3[i + 1]
    {
      if k < high {
        assert s3[k] == s2[k];
      }
    }
  }

  /** What the sweep's steps hold: one ComparePivot per element looked at,
      and none of partition's own steps. */
  ghost predicate SweepTally(actions: seq<Action>, compares: int)
  {
    && multiset(actions)[ComparePivot] == compares
    && multiset(actions)[SelectPivot] == 0 && multiset(actions)[PivotPositioned] == 0
  }

  lemma AddComparePivot(actions: seq<Action>, compares: int)
    requires SweepTally(actions, compares)
    ensures SweepTally(actions + [ComparePivot], compares + 1)
  {
  }

  lemma AddSwapPartition(actions: seq<Action>, compares: int)
    requires SweepTally(actions, compares)
    ensures SweepTally(actions + [SwapPartition], compares)
  {
  }

  /** The loop of partition, with the pivot already at `high`: `j` runs over
      `low..high-1`, and every element at most the pivot is swapped to the
      growing block `a[low..i]`. On exit `a[i+1..high-1]` holds the elements
      above the pivot. */
  method Sweep(a: array<int>, low: nat, high: nat) returns (i: int, actions: seq<Action>)
    requires low < high < a.Length
    modifies a
    ensures Sweeping(old(a[..]), a[..], low, i, high, high)
    ensures SweepTally(actions, high - low)
  {
    var pivot := a[high];
    i, actions := low - 1, [];
    ghost var before := a[..];
    ghost var cur := before;
    var j := low;
    while j < high
      invariant a[..] == cur && Sweeping(before, cur, low, i, j, high)
      invariant SweepTally(actions, j - low)
    {
      AddComparePivot(actions, j - low);
      actions := actions + [ComparePivot];
      if a[j] <= pivot {
        SweepTake(before, cur, low, i, j, high);
        Exchange(a, i + 1, j);
        cur := cur[i + 1 := cur[j]][j := cur[i + 1]];
        i := i + 1;
        AddSwapPartition(actions, j + 1 - low);
        actions := actions + [SwapPartition];
      } else {
        SweepSkip(before, cur, low, i, j, high);
      }
      j := j + 1;
    }
  }

  /** The bookkeeping behind QuickSortRange: `a0` is the array right after
      partition put the pivot at `p`, `a1` after sorting the left part and
      `a2` after sorting the right part. */
  lemma PartitionedRun(start: seq<int>, a0: seq<int>, a1: seq<int>, a2: seq<int>, low: nat, p: nat, high: nat)
    requires Rearranged(start, a0, low, high) && PartitionedAt(a0, low, p, high)
    requires SortsRange(a0, a1, low, p - 1) && SortsRange(a1, a2, p + 1, high)
    ensures SortsRange(start, a2, low, high)
  {
    PartitionedRange(a0, a1, a2, low, p, high);
    RearrangedThenSorted(start, a0, a2, low, high);
  }

  lemma PartitionedRange(a0: seq<int>, a1: seq<int>, a2: seq<int>, low: nat, p: nat, high: nat)
    requires PartitionedAt(a0, low, p, high)
    requires SortsRange(a0, a1, low, p - 1) && SortsRange(a1, a2, p + 1, high)
    ensures SortsRange(a0, a2, low, high)
  {
    var pivot := a0[p];
    assert a2[p] == pivot;
    assert a2[low..p] == a1[low..p];
    assert a1[p + 1..high + 1] == a0[p + 1..high + 1];
    assert AllAtMost(a0[low..p], pivot);
    PermutationKeepsUpperBound(a1[low..p], a0[low..p], pivot);
    assert AllAbove(a1[p + 1..high + 1], pivot);
    PermutationKeepsStrictLowerBound(a2[p + 1..high + 1], a1[p + 1..high + 1], pivot);
    assert a2[low..high + 1] == a2[low..p] + [pivot] + a2[p + 1..high + 1];
    assert a0[low..high + 1] == a0[low..p] + [pivot] + a0[p + 1..high + 1];
    forall x, y | low <= x < y <= high
      ensures a2[x] <= a2[y]
    {
      if y < p {
        assert a2[x] == a2[low..p][x - low] && a2[y] == a2[low..p][y - low];
      } else if p < x {
        assert a2[x] == a2[p + 1..high + 1][x - p - 1] && a2[y] == a2[p + 1..high + 1][y - p - 1];
      } else if x < p {
        assert a2[x] == a2[low..p][x - low];
        if p < y {
          assert a2[y] == a2[p + 1..high + 1][y - p - 1];
        }
      } else {
        assert a2[y] == a2[p + 1..high + 1][y - p - 1];
      }
    }
  }

  /** quickSort: sorts `a[low..high]` in place and leaves every other index
      alone; a range of fewer than two elements is left as it is. */
  method QuickSortRange(a: array<int>, low: int, high: int, strategy: string) returns (actions: seq<Action>)
    requires 0 <= low <= high + 1 <= a.Length
    modifies a
    ensures SortsRange(old(a[..]), a[..], low, high)
    ensures high - low + 1 < 2 ==> actions == []
    decreases high - low
  {
    actions := [];
    if low < high {
      ghost var start := a[..];
      var p, partActions := Partition(a, low, high, strategy);
      ghost var a0 := a[..];
      var leftActions := QuickSortRange(a, low, p - 1, strategy);
      ghost var a1 := a[..];
      var rightActions := QuickSortRange(a, p + 1, high, strategy);
      ghost var a2 := a[..];
      actions := partActions + leftActions + rightActions;
      PartitionedRun(start, a0, a1, a2, low, p, high);
    } else {
      assert a[low..high + 1] == [] || a[low..high + 1] == [a[low]];
    }
  }

  /** Execute: sorts a copy, so a supplied slice is left as it was. */
  method Execute(input: Input, params: Params) returns (r: Result<seq<int>>, actions: seq<Action>)
    requires ParametersValid(params)
    ensures r.Err? <==> input.OtherInput?
    ensures r.Err? ==> actions == []
    ensures r.Ok? ==> Sorted(r.value)
    ensures r.Ok? ==> |actions| >= 2 && actions[0] == Initialize && actions[|actions| - 1] == Complete
    ensures input.IntSlice? ==> r.Ok? && multiset(r.value) == multiset(input.arr[..])
    ensures input.NoInput? ==> r.Ok? && r.value == Ascending(IntParam(params, "array_size", 10))
  {
    var arr: array<int>;
    match input {
      case OtherInput(_) =>
        return Err("invalid input type, expected []int"), [];
      case IntSlice(a) =>
        arr := a;
      case NoInput =>
        arr := Generators.GenerateRandomArray(IntParam(params, "array_size", 10));
    }
    var pivotStrategy := StrParam(params, "pivot_strategy", "middle");
    var sortedArr := CopyOf(arr);
    ghost var before := sortedArr[..];
    var sortActions := QuickSortRange(sortedArr, 0, sortedArr.Length - 1, pivotStrategy);
    SortsWhole(before, sortedArr[..]);
    actions := [Initialize] + sortActions + [Complete];
    r := Ok(sortedArr[..]);
    if input.NoInput? {
      SortedAscending(sortedArr[..], arr.Length);
    }
  }
}
