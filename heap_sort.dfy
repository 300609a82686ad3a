/** The heap sort executor: build a max-heap over a copy of the input with
    bottom-up heapify, then repeatedly swap the root to the end of the
    shrinking heap and sift the new root down. */
module HeapSort {
  import opened Types
  import opened Sequences
  import Generators

  /** The description GetMetadata reports. */
  const Description := "A comparison-based sorting algorithm that uses a binary heap data structure to sort elements."

  function Metadata(): Descriptor
  {
    Descriptor(
      "heap_sort", "Heap Sort", Sorting,
      Description,
      "Time: O(n log n), Space: O(1)",
      [ ParamSpec("array_size", "int", "Size of the array to sort", IntV(10), Some(3), Some(100), true),
        ParamSpec("show_heap_structure", "bool", "Show heap structure in visualization", BoolV(true), None, None, false) ])
  }

  /** Rejects an int `array_size` outside [3, 100]; anything else passes. */
  function ValidateParameters(params: Params): (r: Outcome)
    ensures r.Pass? <==> 3 <= IntParam(params, "array_size", 10) <= 100
  {
    CheckIntRange(params, "array_size", 10, 3, 100, "array_size must be between 3 and 100")
  }

  /** The parent of node `k > 0` in the implicit binary tree, whose children
      of `i` are `2i + 1` and `2i + 2`. */
  function Parent(k: nat): (p: nat)
    requires k > 0
    ensures p < k && (k == 2 * p + 1 || k == 2 * p + 2)
  {
    (k - 1) / 2
  }

  /** Max-heap order on the prefix `s[..n]`, for every parent–child pair
      whose parent index is at least `lo`. `HeapOrdered(s, n, 0)` says the
      whole prefix is a max-heap. */
  ghost predicate HeapOrdered(s: seq<int>, n: nat, lo: nat)
    requires n <= |s|
  {
    forall k :: 0 < k < n && lo <= Parent(k) ==> s[k] <= s[Parent(k)]
  }

  /** The root of a max-heap is its largest element. */
  lemma {:induction false} RootIsMax(s: seq<int>, n: nat, k: nat)
    requires n <= |s| && HeapOrdered(s, n, 0)
    requires k < n
    ensures s[k] <= s[0]
    decreases k
  {
    if k > 0 {
      RootIsMax(s, n, Parent(k));
    }
  }

  /** The state heapify expects at node `i`: every parent–child pair from
      `lo` on is in order except those whose parent is `i`, and `s[i]`'s own
      parent (when it is from `lo` on) already dominates `i`'s children. */
  ghost predicate HeapExceptAt(s: seq<int>, n: nat, i: nat, lo: nat)
  {
    && n <= |s|
    && (forall k :: 0 < k < n && lo <= Parent(k) && Parent(k) != i ==> s[k] <= s[Parent(k)])
    && (0 < i && lo <= Parent(i) && 2 * i + 1 < n ==> s[2 * i + 1] <= s[Parent(i)])
    && (0 < i && lo <= Parent(i) && 2 * i + 2 < n ==> s[2 * i + 2] <= s[Parent(i)])
  }

  /** `c` is the index heapify picks at node `i`: the largest of `i` and
      its children inside the heap, `i` itself on a tie with it and the
      left child on a tie between the children. */
  ghost predicate LargestOf(s: seq<int>, n: nat, i: nat, c: nat)
  {
    && i < n <= |s|
    && (c == i || c == 2 * i + 1 || c == 2 * i + 2) && c < n
    && (2 * i + 1 < n ==> s[2 * i + 1] <= s[c])
    && (2 * i + 2 < n ==> s[2 * i + 2] <= s[c])
    && s[i] <= s[c]
  }

  /** heapify(arr, n, i): sift `a[i]` down within the heap `a[..n]`;
      afterwards every pair from `lo` on is in order. Only `a[i..n)` is
      rearranged. */
  method Heapify(a: array<int>, n: nat, i: nat, showHeapStructure: bool, ghost lo: nat) returns (actions: seq<Action>)
    requires lo <= i < n <= a.Length
    requires HeapExceptAt(a[..], n, i, lo)
    modifies a
    ensures HeapOrdered(a[..], n, lo)
    ensures multiset(a[..]) == old(multiset(a[..]))
    ensures forall k :: 0 <= k < a.Length && !(i <= k < n) ==> a[k] == old(a[k])
    ensures !showHeapStructure ==> actions == []
    ensures forall t :: t in actions ==> t == HeapifyCheck || t == HeapifySwap
    decreases n - i
  {
    var largest := i;
    var left := 2 * i + 1;
    var right := 2 * i + 2;
    actions := if showHeapStructure then [HeapifyCheck] else [];
    if left < n && a[left] > a[largest] {
      largest := left;
    }
    if right < n && a[right] > a[largest] {
      largest := right;
    }
    assert LargestOf(a[..], n, i, largest);
    if largest != i {
      ghost var s0 := a[..];
      SwapElements(a, i, largest, i, n);
      SiftStep(s0, a[..], n, i, largest, lo);
      if showHeapStructure {
        actions := actions + [HeapifySwap];
      }
      var more := Heapify(a, n, largest, showHeapStructure, lo);
      actions := actions + more;
    } else {
      SiftDone(a[..], n, i, lo);
    }
  }

  /** Swapping `s0[i]` with the largest of it and its children moves the
      hole down to `c`. */
  lemma SiftStep(s0: seq<int>, s1: seq<int>, n: nat, i: nat, c: nat, lo: nat)
    requires lo <= i && HeapExceptAt(s0, n, i, lo) && LargestOf(s0, n, i, c) && c != i
    requires |s1| == |s0| && s1[i] == s0[c] && s1[c] == s0[i]
    requires forall k :: 0 <= k < |s0| && k != i && k != c ==> s1[k] == s0[k]
    ensures HeapExceptAt(s1, n, c, lo)
  {
    forall k | 0 < k < n && lo <= Parent(k) && Parent(k) != c
      ensures s1[k] <= s1[Parent(k)]
    {
      var p := Parent(k);
      if k == c {
        assert p == i && s1[k] == s0[i] && s1[p] == s0[c];
      } else if p == i {
        assert s1[k] == s0[k] && s1[p] == s0[c];
      } else if k == i {
        assert s1[k] == s0[c] && s1[p] == s0[p];
      } else {
        assert s1[k] == s0[k] && s1[p] == s0[p];
      }
    }
    assert Parent(c) == i;
    if 2 * c + 1 < n {
      assert Parent(2 * c + 1) == c;
    }
    if 2 * c + 2 < n {
      assert Parent(2 * c + 2) == c;
    }
  }

  /** When `s[i]` is already the largest of it and its children, the heap
      is in order. */
  lemma SiftDone(s: seq<int>, n: nat, i: nat, lo: nat)
    requires lo <= i && HeapExceptAt(s, n, i, lo) && LargestOf(s, n, i, i)
    ensures HeapOrdered(s, n, lo)
  {
  }

  /** The build loop: heapify every internal node from `n/2 - 1` down to the
      root, after which `a[..n]` is a max-heap. */
  method BuildMaxHeap(a: array<int>, showHeapStructure: bool) returns (actions: seq<Action>)
    modifies a
    ensures HeapOrdered(a[..], a.Length, 0)
    ensures multiset(a[..]) == old(multiset(a[..]))
    ensures !showHeapStructure ==> actions == []
    ensures forall t :: t in actions ==> t == HeapifyCheck || t == HeapifySwap
  {
    var n := a.Length;
    actions := [];
    var i := n / 2 - 1;
    while i >= 0
      invariant -1 <= i <= n / 2 - 1
      invariant HeapOrdered(a[..], n, i + 1)
      invariant multiset(a[..]) == old(multiset(a[..]))
      invariant !showHeapStructure ==> actions == []
      invariant forall t :: t in actions ==> t == HeapifyCheck || t == HeapifySwap
    {
      ghost var before := a[..];
      var more := Heapify(a, n, i, showHeapStructure, i);
      assert a[..n] == a[..] && before[..n] == before;
      actions := actions + more;
      i := i - 1;
    }
  }

  /** The elements from `i` on are in order and none is below an element
      before `i`: the sorted tail the extraction loop builds. */
  ghost predicate TailAbove(s: seq<int>, i: nat)
  {
    && (forall x, y :: 0 <= x < i <= y < |s| ==> s[x] <= s[y])
    && (forall x, y :: i <= x < y < |s| ==> s[x] <= s[y])
  }

  /** The extraction loop: swap the heap's root (its maximum) to position
      `i`, shrink the heap to `a[..i]` and heapify from the root. The tail
      `a[i..]` stays sorted and at least as large as anything in the heap. */
  method ExtractAll(a: array<int>, showHeapStructure: bool) returns (actions: seq<Action>)
    requires HeapOrdered(a[..], a.Length, 0)
    modifies a
    ensures Sorted(a[..])
    ensures multiset(a[..]) == old(multiset(a[..]))
    ensures multiset(actions)[ExtractMax] == if a.Length == 0 then 0 else a.Length - 1
  {
    var n := a.Length;
    actions := [];
    var i := n - 1;
    while i > 0
      invariant -1 <= i < n && (n > 0 ==> 0 <= i)
      invariant HeapOrdered(a[..], i + 1, 0)
      invariant TailAbove(a[..], i + 1)
      invariant multiset(a[..]) == old(multiset(a[..]))
      invariant multiset(actions)[ExtractMax] == n - 1 - i
    {
      var more := ExtractRound(a, i, showHeapStructure);
      actions := actions + more;
      i := i - 1;
    }
  }

  /** One round of the extraction loop over the heap `a[..i + 1]`. */
  method ExtractRound(a: array<int>, i: nat, showHeapStructure: bool) returns (actions: seq<Action>)
    requires 0 < i < a.Length
    requires HeapOrdered(a[..], i + 1, 0) && TailAbove(a[..], i + 1)
    modifies a
    ensures HeapOrdered(a[..], i, 0) && TailAbove(a[..], i)
    ensures multiset(a[..]) == old(multiset(a[..]))
    ensures multiset(actions)[ExtractMax] == 1
  {
    ghost var s0 := a[..];
    SwapElements(a, 0, i, 0, a.Length);
    RootSwapped(s0, a[..], i);
    ghost var s1 := a[..];
    var more := Heapify(a, i, 0, showHeapStructure, 0);
    HeapShrunk(s1, a[..], i);
    assert ExtractMax !in more;
    actions := [ExtractMax] + more;
  }

  /** What swapping the root of the heap `s0[..i + 1]` with `s0[i]` gives:
      the rest of the heap is still in order below the root, and the
      extracted maximum at `i` bounds the new heap and starts the sorted
      tail. */
  lemma RootSwapped(s0: seq<int>, s1: seq<int>, i: nat)
    requires 0 < i < |s0| == |s1|
    requires HeapOrdered(s0, i + 1, 0) && TailAbove(s0, i + 1)
    requires s1[0] == s0[i] && s1[i] == s0[0]
    requires forall k :: 0 <= k < |s0| && k != 0 && k != i ==> s1[k] == s0[k]
    ensures HeapExceptAt(s1, i, 0, 0) && TailAbove(s1, i)
  {
    forall k | 0 <= k <= i
      ensures s0[k] <= s0[0]
    {
      RootIsMax(s0, i + 1, k);
    }
  }

  /** Heapifying the shrunk heap `s1[..i]` into `s2` keeps the tail: it is
      untouched, and still bounds every heap element because the heap was
      only rearranged. */
  lemma HeapShrunk(s1: seq<int>, s2: seq<int>, i: nat)
    requires 0 < i < |s1| == |s2|
    requires multiset(s2) == multiset(s1)
    requires forall k :: i <= k < |s1| ==> s2[k] == s1[k]
    requires TailAbove(s1, i)
    ensures TailAbove(s2, i)
  {
    assert s2[i..] == s1[i..];
    PrefixPermutation(s2, s1, i);
    forall y | i <= y < |s2|
      ensures AllAtMost(s2[..i], s2[y])
    {
      assert AllAtMost(s1[..i], s1[y]);
      PermutationKeepsUpperBound(s2[..i], s1[..i], s2[y]);
    }
    forall x, y | 0 <= x < i <= y < |s2|
      ensures s2[x] <= s2[y]
    {
      assert s2[x] == s2[..i][x];
    }
  }

  /** The in-place core of Execute: build the heap, then extract. */
  method HeapSortInPlace(a: array<int>, showHeapStructure: bool) returns (actions: seq<Action>)
    modifies a
    ensures Sorted(a[..])
    ensures multiset(a[..]) == old(multiset(a[..]))
    ensures multiset(actions)[ExtractMax] == if a.Length == 0 then 0 else a.Length - 1
  {
    var built := BuildMaxHeap(a, showHeapStructure);
    assert ExtractMax !in built;
    var extracted := ExtractAll(a, showHeapStructure);
    actions := [BuildHeap] + built + extracted;
  }

  /** Execute: sorts a copy, so a supplied slice is left as it was. */
  method Execute(input: Input, params: Params) returns (r: Result<seq<int>>, actions: seq<Action>)
    requires ValidateParameters(params).Pass?
    ensures r.Err? <==> input.OtherInput?
    ensures r.Err? ==> actions == []
    ensures r.Ok? ==> Sorted(r.value)
    ensures r.Ok? ==> |actions| >= 2 && actions[0] == Initialize && actions[|actions| - 1] == Complete
    ensures input.IntSlice? ==> r.Ok? && multiset(r.value) == multiset(input.arr[..])
    ensures input.NoInput? ==> r.Ok? && r.value == Ascending(IntParam(params, "array_size", 10))
  {
    var arr: array<int>;
    match input {
      case OtherInput(_) =>
        return Err("invalid input type, expected []int"), [];
      case IntSlice(a) =>
        arr := a;
      case NoInput =>
        arr := Generators.GenerateRandomArray(IntParam(params, "array_size", 10));
    }
    var showHeapStructure := BoolParam(params, "show_heap_structure", true);
    var sortedArr := CopyOf(arr);
    var sortActions := HeapSortInPlace(sortedArr, showHeapStructure);
    actions := [Initialize] + sortActions + [Complete];
    r := Ok(sortedArr[..]);
    if input.NoInput? {
      SortedAscending(sortedArr[..], arr.Length);
    }
  }
}
