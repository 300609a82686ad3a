# Algorithm executors of algorthmia

algorthmia is a web service that runs textbook algorithms step by step.
Each algorithm is an *executor* with three operations:

- `GetMetadata` returns a descriptor: id, name, category, description, complexity and parameter list.
- `ValidateParameters` checks the untyped parameter map.
- `Execute` runs the algorithm on an optional `[]int` input, or on a generated sample. It reports every step to a callback and returns the result.

A registry maps ids to the ten executors. It answers lookups by id, listings of all descriptors, and listings by category.

This project models the ten executors and the registry in Dafny, and proves what each one computes:

- **Sorts.**
  - Bubble sort works in place on the caller's slice, with an early exit.
  - Merge, quick, heap and counting sort work on a copy.
  - Every sort returns a sorted permutation of its input. The counting sort result is also proved equal to a closed-form specification.
- **Searches.**
  - Linear search finds the first match.
  - Binary search sorts the slice in place first, then halves an inclusive window. Its checks are bounded by floor(log2 n) + 1.
- **Graph traversals.**
  - Depth-first search (stack) and breadth-first search (queue) run over the generated graph.
  - `path` holds distinct nodes and agrees with `visited`.
  - When the target is not found, every node was reached.
  - Depth-first search appends each node as a neighbour of an earlier path node after which every path node already has all its neighbours visited: it backs up only out of finished nodes.
  - Breadth-first search appends nodes to `path` in non-decreasing distance from the start, as its descriptor's "depth level" claim says. The distance is proved to be the shortest-walk length in the generated graph.
- **Hash lookup.**
  - The modular code-point hash is proved equal to a closed form.
  - The toy chained table and the bucket scan are modelled.
- **Registry.**
  - The map field is updated by `RegisterAlgorithm`.
  - The queries are loops over the map's keys.

The module layout follows the source files:

- `Types` holds parameters, inputs, descriptors and step tags.
- `Sequences` holds sortedness and permutation facts.
- `Generators` holds the sample-array generators.
- There is one module per executor.
- `Graphs` holds the generated graph and the traversal invariant that DFS and BFS share.
- `Algorithms` holds the registry.

Conventions:

- **Untyped values.** An untyped parameter value is the tagged datatype `Types.Value`. A failed Go type assertion becomes "use the default" (`IntParam`, `StrParam`).
- **Steps.** The step callback becomes a returned sequence of action tags.
- **Execute preconditions.** The HTTP handler always calls `ValidateParameters` before `Execute`, so each `Execute` requires that validation passed.
- **Sort in binary search.** The library sort that binary search calls is played by the verified heap sort.

## Model

| member | source | states |
|---|---|---|
| Types.CheckIntRange | internal/algorithms/sorting/bubble_sort.go:195-202 | an integer parameter passes exactly when its value (or the default when it is absent or not an int) is in range; a failure carries the given message |
| Types.AndThen | internal/algorithms/sorting/counting_sort.go:218-232 | validators run in sequence: the combination passes iff both pass, and the first failure is the one reported |
| Types.UniformCount | internal/algorithms/searching/linear_search.go:87-125 | a run of `n` identical step tags counts `n` of that tag and none of any other |
| Sequences.Ascending | internal/algorithms/sorting/bubble_sort.go:205-211 | the sequence `[1..n]`: length `n`, element `k` is `k + 1` |
| Sequences.AscendingMembers | internal/algorithms/searching/linear_search.go:159-172 | a value occurs in `[1..n]` exactly when it lies in `[1, n]` |
| Sequences.AscendingSorted | internal/algorithms/sorting/bubble_sort.go:205-218 | `[1..n]` is sorted |
| Sequences.AdjacentSortedIsSorted | internal/algorithms/sorting/bubble_sort.go:159-174 | a sequence whose adjacent pairs are in order is sorted |
| Sequences.SortedPermutationUnique | internal/algorithms/searching/binary_search.go:76 | two sorted sequences with the same elements are equal, so any correct sort of the input yields the same array |
| Sequences.SortedAscending | internal/algorithms/searching/binary_search.go:67-76 | sorting a permutation of `[1..n]` yields `[1..n]` |
| Sequences.SwapPermutes | internal/algorithms/sorting/bubble_sort.go:133-137 | exchanging two elements inside a range permutes both the range and the whole array |
| Sequences.SwapElements | internal/algorithms/sorting/quick_sort.go:178 | the in-place exchange swaps the two entries, leaves every other index alone and permutes the array |
| Sequences.RearrangedTrans | internal/algorithms/sorting/quick_sort.go:156-198 | rearrangements of a range that leave the outside alone compose |
| Sequences.RearrangedThenSorted | internal/algorithms/sorting/quick_sort.go:109-121 | a rearrangement followed by a sort of the same range is a sort of the range |
| Sequences.SortsWhole | internal/algorithms/sorting/merge_sort.go:91 | sorting the range `[0, n - 1]` sorts the whole array and permutes it |
| Sequences.PermutationKeepsUpperBound | internal/algorithms/sorting/heap_sort.go:109-128 | an upper bound on all elements survives any permutation |
| Generators.ShuffleIndexIsSelf | internal/algorithms/sorting/bubble_sort.go:212-215 | the shuffle index `i % (i + 1)` is `i` itself |
| Generators.GenerateRandomArray | internal/algorithms/sorting/bubble_sort.go:205-218 | the generated array is exactly `[1..size]` in ascending order: the shuffle swaps each element with itself |
| Generators.Cyclic | internal/algorithms/sorting/counting_sort.go:235-239 | the cyclic sample has the requested length and every value lies in `[1, abs(maxValue)]` |
| Generators.GenerateRandomArrayWithMax | internal/algorithms/sorting/counting_sort.go:235-248 | element `k` is `(k % maxValue) + 1`; the shuffle is again a no-op |
| BubbleSort.ValidateParameters | internal/algorithms/sorting/bubble_sort.go:195-202 | passes iff `array_size` (default 10) lies in `[3, 100]`; `show_comparisons` is not checked |
| BubbleSort.SweptSwap | internal/algorithms/sorting/bubble_sort.go:133-137 | swapping an out-of-order pair carries the pass maximum one place right and keeps the prefix a rearrangement |
| BubbleSort.SweptKeep | internal/algorithms/sorting/bubble_sort.go:114-131 | an in-order pair carries the pass maximum one place right; before the first swap the compared pairs are all in order |
| BubbleSort.Pass | internal/algorithms/sorting/bubble_sort.go:111-156 | one inner pass over the unsorted prefix moves its largest element to its end, makes `m - 1` comparisons and at most that many swaps, reports `swapped` iff it swapped, and leaves the array untouched when it did not swap |
| BubbleSort.BubbledStep | internal/algorithms/sorting/bubble_sort.go:94-156 | a pass extends the sorted suffix of elements at least every earlier element by one |
| BubbleSort.PrefixStaysBelow | internal/algorithms/sorting/bubble_sort.go:111-156 | the elements a pass rearranges stay below the sorted suffix |
| BubbleSort.BubbledEarly | internal/algorithms/sorting/bubble_sort.go:159-174 | when a pass makes no swap the whole array is already sorted and a permutation of the start, so the early exit is sound |
| BubbleSort.BubbledDone | internal/algorithms/sorting/bubble_sort.go:94-175 | after `n - 1` passes the array is sorted and a permutation of the start |
| BubbleSort.Round | internal/algorithms/sorting/bubble_sort.go:97-174 | one outer iteration extends the sorted suffix, and a round without a swap leaves the array sorted |
| BubbleSort.SortInPlace | internal/algorithms/sorting/bubble_sort.go:94-175 | the array ends sorted and a permutation of its start; `swaps <= comparisons`; `comparisons` equals the inner iterations of the passes run; there are `n - 1` passes unless one made no swap, and then one EarlyTermination step |
| BubbleSort.Execute | internal/algorithms/sorting/bubble_sort.go:51-192 | a `[]int` input is sorted in place and the caller's slice is the result; no input sorts `[1..array_size]`; any other input is an error with no steps; steps start with Initialize and end with Complete |
| MergeSort.ValidateParameters | internal/algorithms/sorting/merge_sort.go:214-221 | passes iff `array_size` (default 10) lies in `[3, 100]`; `show_divisions` is not checked |
| MergeSort.MergedPermutation | internal/algorithms/sorting/merge_sort.go:160-211 | the merged sequence holds exactly the elements of the two halves |
| MergeSort.MergedSorted | internal/algorithms/sorting/merge_sort.go:160-211 | merging two sorted halves yields a sorted sequence |
| MergeSort.SortedCons | internal/algorithms/sorting/merge_sort.go:189-195 | a value no larger than every element of a sorted sequence can be put in front of it |
| MergeSort.MergedStep | internal/algorithms/sorting/merge_sort.go:189-195 | each step of the merge loop takes the smaller head, the left one on a tie |
| MergeSort.MergedWithEmpty | internal/algorithms/sorting/merge_sort.go:199-210 | once one half is exhausted the merge is the rest of the other |
| MergeSort.TakeSmaller | internal/algorithms/sorting/merge_sort.go:189-196 | one iteration of the merge loop writes the next merged element at `k` and advances exactly one of `i`, `j` |
| MergeSort.MergeHeads | internal/algorithms/sorting/merge_sort.go:169-197 | the first merge loop writes the merged prefix into `arr[left..]` until one half is exhausted, one CompareMerge step per element written |
| MergeSort.CopyRemaining | internal/algorithms/sorting/merge_sort.go:200-204 | a copy loop writes the remaining elements from `k` on and nothing else |
| MergeSort.CopyTail | internal/algorithms/sorting/merge_sort.go:199-210 | the two copy loops together fill `arr[k..right]` with the rest of both halves |
| MergeSort.Assembled | internal/algorithms/sorting/merge_sort.go:160-211 | the merged prefix followed by the copied tail is the whole merge |
| MergeSort.MergeHalves | internal/algorithms/sorting/merge_sort.go:160-211 | `merge` leaves `arr[left..right]` equal to the merge of its two halves and every other index untouched |
| MergeSort.SortedRun | internal/algorithms/sorting/merge_sort.go:131-152 | sorting each half and merging sorts the range and permutes it |
| MergeSort.MergeSortRange | internal/algorithms/sorting/merge_sort.go:109-157 | `mergeSort(arr, left, right)` sorts `arr[left..right]`, permutes it and leaves every other index alone |
| MergeSort.Execute | internal/algorithms/sorting/merge_sort.go:51-106 | the result is a sorted permutation of the input; the input slice is not written; non-`[]int` input is an error with no steps |
| QuickSort.ValidateParameters | internal/algorithms/sorting/quick_sort.go:217-239 | passes iff `array_size` (default 10) lies in `[3, 100]` and a string `pivot_strategy` is one of first, last, middle; the size message comes first |
| QuickSort.PivotIndex | internal/algorithms/sorting/quick_sort.go:127-136 | "first" picks `low`, "last" picks `high`, anything else the middle `low + (high - low) / 2`; always inside `[low, high]` |
| QuickSort.SweepTake | internal/algorithms/sorting/quick_sort.go:176-178 | moving an element at most the pivot into the low part keeps the sweep invariant |
| QuickSort.SweepSkip | internal/algorithms/sorting/quick_sort.go:160-176 | an element above the pivot stays in the high part and keeps the sweep invariant |
| QuickSort.Sweep | internal/algorithms/sorting/quick_sort.go:158-195 | the Lomuto loop leaves `arr[low..i]` at most the pivot and `arr[i+1..high-1]` above it, a rearrangement, with `high - low` ComparePivot steps |
| QuickSort.PivotSplits | internal/algorithms/sorting/quick_sort.go:198 | the final swap puts the pivot at `i + 1` between the two parts |
| QuickSort.PivotPlaced | internal/algorithms/sorting/quick_sort.go:156-213 | moving the pivot to the end, sweeping and moving it back partitions the range around the chosen pivot |
| QuickSort.Partition | internal/algorithms/sorting/quick_sort.go:124-214 | `partition` returns `p` in `[low, high]` holding the chosen pivot, with everything before it at most the pivot and everything after it above; it only permutes `arr[low..high]` |
| QuickSort.PartitionedRange | internal/algorithms/sorting/quick_sort.go:109-121 | sorting both sides of a partitioned range sorts the range |
| QuickSort.PartitionedRun | internal/algorithms/sorting/quick_sort.go:109-121 | a partition followed by the two recursive sorts sorts and permutes the range |
| QuickSort.QuickSortRange | internal/algorithms/sorting/quick_sort.go:109-121 | `quickSort(arr, low, high)` sorts `arr[low..high]`, permutes it and leaves every other index alone |
| QuickSort.Execute | internal/algorithms/sorting/quick_sort.go:51-106 | the result is a sorted permutation of the input; the input slice is not written; non-`[]int` input is an error with no steps |
| HeapSort.ValidateParameters | internal/algorithms/sorting/heap_sort.go:204-211 | passes iff `array_size` (default 10) lies in `[3, 100]` |
| HeapSort.Parent | internal/algorithms/sorting/heap_sort.go:147-149 | index `k > 0` is child `2p + 1` or `2p + 2` of a smaller index `p` |
| HeapSort.RootIsMax | internal/algorithms/sorting/heap_sort.go:109-128 | in a max-heap over `arr[..n)` the root is at least every element |
| HeapSort.SiftStep | internal/algorithms/sorting/heap_sort.go:169-180 | swapping `i` with its largest child moves the only heap violation down to that child |
| HeapSort.SiftDone | internal/algorithms/sorting/heap_sort.go:169-179 | when `i` is at least both children inside `n`, the heap is whole |
| HeapSort.Heapify | internal/algorithms/sorting/heap_sort.go:146-201 | if both subtrees of `i` are max-heaps, afterwards the subtree rooted at `i` is one; only indices in `[i, n)` change, and they are permuted |
| HeapSort.BuildMaxHeap | internal/algorithms/sorting/heap_sort.go:104-106 | after the build loop the whole array is a max-heap and a permutation of its start |
| HeapSort.RootSwapped | internal/algorithms/sorting/heap_sort.go:109-111 | moving the root to position `i` extends the sorted suffix of elements above the heap |
| HeapSort.HeapShrunk | internal/algorithms/sorting/heap_sort.go:126-127 | re-heapifying the shrunk heap keeps every suffix element at least every heap element |
| HeapSort.ExtractRound | internal/algorithms/sorting/heap_sort.go:109-128 | one extraction keeps `arr[0..i)` a heap below the sorted `arr[i..n)` and emits one ExtractMax step |
| HeapSort.ExtractAll | internal/algorithms/sorting/heap_sort.go:109-128 | the extraction loop leaves the array sorted and permuted, with `n - 1` ExtractMax steps |
| HeapSort.HeapSortInPlace | internal/algorithms/sorting/heap_sort.go:90-128 | the build and extract loops sort the array in place and permute it |
| HeapSort.Execute | internal/algorithms/sorting/heap_sort.go:51-143 | the result is a sorted permutation of the input; the input slice is not written; non-`[]int` input is an error with no steps |
| CountingSort.ValidateParameters | internal/algorithms/sorting/counting_sort.go:218-232 | passes iff `array_size` (default 10) lies in `[3, 50]` and `max_value` (default 20) in `[5, 100]`; the size message comes first |
| CountingSort.Repeat | internal/algorithms/sorting/counting_sort.go:183-185 | `c` copies of `v` |
| CountingSort.BelowSorted | internal/algorithms/sorting/counting_sort.go:183-214 | the reference output (each value below `k` repeated by its count, in value order) is sorted and holds only values below `k` |
| CountingSort.BelowCount | internal/algorithms/sorting/counting_sort.go:183-214 | the reference output holds each value below `k` as often as the input, and nothing else |
| CountingSort.BelowIsSortedPermutation | internal/algorithms/sorting/counting_sort.go:183-214 | with every element in `[0, k)`, the reference output is a sorted permutation of the input |
| CountingSort.FindMaximum | internal/algorithms/sorting/counting_sort.go:87-92 | `max` is an element of the array and at least every element |
| CountingSort.CountValues | internal/algorithms/sorting/counting_sort.go:105-137 | after the counting loop `count[v]` is the number of occurrences of `v`, with one CountElement step per element |
| CountingSort.PrefixSums | internal/algorithms/sorting/counting_sort.go:152-167 | after the prefix loop `count[v]` is the number of elements at most `v`, with `max` ModifyCountElement steps |
| CountingSort.RunSize | internal/algorithms/sorting/counting_sort.go:152-167 | the run of value `v` in the output spans `[count[v - 1], count[v])`, of length the occurrences of `v` |
| CountingSort.RunsOrdered | internal/algorithms/sorting/counting_sort.go:152-167 | runs of smaller values end before runs of larger values start |
| CountingSort.PlaceStep | internal/algorithms/sorting/counting_sort.go:183-185 | placing `arr[i]` at `count[arr[i]] - 1` and decrementing the counter keeps every run filled from its top |
| CountingSort.PlaceOne | internal/algorithms/sorting/counting_sort.go:184-185 | one placement writes `x` at `count[x] - 1` and decrements `count[x]`, nothing else |
| CountingSort.Place | internal/algorithms/sorting/counting_sort.go:183-200 | the right-to-left placement fills every run of the output, one PlaceElement step per element, without writing `arr` |
| CountingSort.FilledIsBelow | internal/algorithms/sorting/counting_sort.go:183-214 | an output whose runs are all filled is the reference output |
| CountingSort.PlacedIsBelow | internal/algorithms/sorting/counting_sort.go:183-214 | the placed output is the reference output, hence sorted and a permutation of the input |
| CountingSort.CountRuns | internal/algorithms/sorting/counting_sort.go:86-167 | the maximum, counting and prefix phases leave `count` holding the end of each value's run |
| CountingSort.SortInto | internal/algorithms/sorting/counting_sort.go:86-214 | the three phases produce the reference output: sorted, a permutation of `arr`, with the step counts of each phase |
| CountingSort.Trace | internal/algorithms/sorting/counting_sort.go:75-212 | the emitted steps start with Initialize and end with Complete |
| CountingSort.TraceCounts | internal/algorithms/sorting/counting_sort.go:122-200 | the trace holds `n` CountElement, `max` ModifyCountElement and `n` PlaceElement steps |
| CountingSort.SortWithSteps | internal/algorithms/sorting/counting_sort.go:75-214 | the sort with its steps: a sorted permutation, one CountElement and one PlaceElement step per element |
| CountingSort.Execute | internal/algorithms/sorting/counting_sort.go:53-215 | the output is a sorted permutation of the input, or for no input of the sample `(k % max_value) + 1`; the input slice is not written; one CountElement and one PlaceElement step per element; non-`[]int` input is an error with no steps |
| LinearSearch.ValidateParameters | internal/algorithms/searching/linear_search.go:149-156 | passes iff `array_size` (default 10) lies in `[3, 100]`; `target` is not checked |
| LinearSearch.Scan | internal/algorithms/searching/linear_search.go:86-145 | when found, `index` is the first position holding `target`, `value` is that element and `comparisons == index + 1`; when not found no element equals `target`, `index == -1`, `value` is nil and `comparisons == len(arr)`; the array is only read |
| LinearSearch.Execute | internal/algorithms/searching/linear_search.go:51-146 | found iff `target` occurs in the input (first position), or for generated input iff `1 <= target <= array_size` at `target - 1`; non-`[]int` input is an error |
| BinarySearch.ValidateParameters | internal/algorithms/searching/binary_search.go:193-200 | passes iff `array_size` (default 10) lies in `[3, 100]`; `target` may be any int |
| BinarySearch.Pow2 | internal/algorithms/searching/binary_search.go:90-169 | powers of two are positive |
| BinarySearch.BitsIsLog | internal/algorithms/searching/binary_search.go:90-169 | `Bits(n)` is floor(log2 n) + 1: `2^(Bits(n) - 1) <= n < 2^Bits(n)` |
| BinarySearch.BitsMonotone | internal/algorithms/searching/binary_search.go:90-169 | a window no longer than another has no more digits |
| BinarySearch.HalfBits | internal/algorithms/searching/binary_search.go:136-153 | halving the window removes a binary digit |
| BinarySearch.GoRight | internal/algorithms/searching/binary_search.go:136-137 | when `arr[mid] < target` every index up to `mid` holds a smaller value, so the target lies right of `mid` |
| BinarySearch.GoLeft | internal/algorithms/searching/binary_search.go:152-153 | when `arr[mid] > target` every index from `mid` on holds a larger value, so the target lies left of `mid` |
| BinarySearch.Exhausted | internal/algorithms/searching/binary_search.go:171-189 | an empty window means the target does not occur |
| BinarySearch.Probe | internal/algorithms/searching/binary_search.go:95-99 | each probe adds one CheckMiddle step |
| BinarySearch.Search | internal/algorithms/searching/binary_search.go:90-189 | on a sorted array: found gives `arr[index] == target` and `value == target`; not found means the target is absent, `index == -1` and `value` is nil; `comparisons` counts the probes and is at most floor(log2 n) + 1 |
| BinarySearch.SortThenSearch | internal/algorithms/searching/binary_search.go:76-189 | sorting in place then searching: found iff the target occurs in the original slice, which ends sorted and permuted |
| BinarySearch.Execute | internal/algorithms/searching/binary_search.go:52-190 | a supplied slice is left sorted in place; found iff `target` occurs in it; for generated input found iff `1 <= target <= array_size`, at index `target - 1`; non-`[]int` input is an error |
| Graphs.Neighbours | internal/algorithms/searching/dfs.go:207-220 | node `i`'s neighbours are `i - 1`, `i + 1`, `i + 2` where they exist, in that order, all in `[0, n)` |
| Graphs.GenerateGraph | internal/algorithms/searching/dfs.go:203-223 | `generateGraph(n)` has `n` nodes with those neighbour lists |
| Graphs.GeneratedGraph | internal/algorithms/searching/dfs.go:203-223 | the graph of size `n` as a value |
| Graphs.GeneratedUnique | internal/algorithms/searching/dfs.go:203-223 | the generated graph is determined by its size |
| Graphs.GeneratedInRange | internal/algorithms/searching/dfs.go:149-150 | every neighbour is a node, so `visited[neighbor]` is in range |
| Graphs.ClosedUp | internal/algorithms/searching/dfs.go:172-189 | a node set closed under neighbours that holds the start holds every node above it |
| Graphs.ClosedDown | internal/algorithms/searching/dfs.go:172-189 | such a set holds every node below the start |
| Graphs.ClosedHoldsAll | internal/algorithms/searching/dfs.go:172-189 | such a set holds every node: all nodes are reachable |
| Graphs.UnvisitedMembers | internal/algorithms/searching/dfs.go:149-153 | the pushed neighbours are exactly the unvisited ones |
| Graphs.PushUnvisited | internal/algorithms/searching/dfs.go:149-153 | the push loop appends the unvisited neighbours in list order |
| Graphs.UnvisitedFrom | internal/algorithms/searching/dfs.go:149-153 | one iteration of the push loop appends the neighbour iff it is unvisited |
| Graphs.MarkSeen | internal/algorithms/searching/dfs.go:107 | marking an unvisited node leaves one fewer unvisited node, which bounds the loop |
| Graphs.SkipVisited | internal/algorithms/searching/dfs.go:103-105 | popping a visited node keeps the traversal invariant |
| Graphs.VisitStep | internal/algorithms/searching/dfs.go:107-153 | visiting a node keeps `visited` equal to the nodes of `path`, `path` distinct, and the frontier covering every unvisited neighbour of a visited node |
| Graphs.FoundTraced | internal/algorithms/searching/dfs.go:126-146 | when the visited node is the target, the path ends with it and the result is found |
| Graphs.ExhaustedTraced | internal/algorithms/searching/dfs.go:172-189 | an empty stack means every node was visited, so the target is not a node |
| Graphs.VisitsCount | internal/algorithms/searching/dfs.go:110-124 | the recursive count of VisitNode steps is their multiplicity among the steps |
| Graphs.VisitsAppend | internal/algorithms/searching/dfs.go:110-124 | the VisitNode steps of two runs of steps add up |
| Graphs.PredIsNearer | internal/algorithms/searching/dfs.go:207-220 | every node but the start is a neighbour of a node one step nearer the start |
| Graphs.DistEdge | internal/algorithms/searching/dfs.go:207-220 | following an edge raises the distance from the start by at most one |
| Graphs.WalkAtLeastDist | internal/algorithms/searching/dfs.go:203-223 | no walk in the generated graph is shorter than the distance between its ends |
| Graphs.DistWalk | internal/algorithms/searching/dfs.go:203-223 | a walk from the start reaches each node in exactly that distance, so the distance is the shortest-walk length |
| Dfs.Pop | internal/algorithms/searching/dfs.go:99-153 | takes the top of the stack (`Graphs.Handled`): if it was visited, nothing changes and no step is emitted; otherwise it is marked visited and appended to `path`, `found` holds iff it is the target, and when it is not, the new stack is the rest followed by its unvisited neighbours in adjacency order; on the target, steps VisitNode, Found and a traced result; otherwise the traversal invariant, the ownership of every stack entry and the depth-first order are kept, and either one more node is visited or the stack shrinks |
| Dfs.OwnedSkip | internal/algorithms/searching/dfs.go:100-105 | dropping a visited top keeps every stack entry a neighbour of its owner on the path, and every unvisited neighbour of a path node still stacked at or above that node's entries |
| Dfs.OwnersVisit | internal/algorithms/searching/dfs.go:107-153 | the owners of the stack stay non-decreasing from bottom to top when the pushed neighbours are owned by the newly visited node |
| Dfs.EntriesVisit | internal/algorithms/searching/dfs.go:149-153 | each pushed entry is a neighbour of the node just appended to `path` |
| Dfs.WaitingVisit | internal/algorithms/searching/dfs.go:107-153 | after a visit, every unvisited neighbour of a path node is still on the stack at or above that node's entries |
| Dfs.OwnedVisit | internal/algorithms/searching/dfs.go:107-153 | visiting the top and pushing its unvisited neighbours keeps the stack's ownership invariant |
| Dfs.OwnedTop | internal/algorithms/searching/dfs.go:99-101 | an unvisited neighbour of the path node at position `k` forces the top of the stack to be owned by `k` or a later node |
| Dfs.DepthFirstVisit | internal/algorithms/searching/dfs.go:99-108 | the node visited next is a neighbour of an earlier path node after which every path node is finished, so the path stays in depth-first order |
| Dfs.ValidateParameters | internal/algorithms/searching/dfs.go:193-200 | passes iff `graph_size` (default 6) lies in `[3, 20]`; start and target are not checked |
| Dfs.StartNodeUnchecked | internal/algorithms/searching/dfs.go:193-200 | the check passes a `start_node` of 7 on the default 6-node graph |
| Dfs.ValidateParametersChecked | internal/algorithms/searching/dfs.go:95-103 | passes iff `graph_size` is in range and `start_node` is a node of that graph |
| Dfs.Search | internal/algorithms/searching/dfs.go:94-153 | the stack loop: on the target, a traced result ending with Found; on an empty stack, the traversal invariant with nothing pending; in both, the path is in depth-first order and has one VisitNode step per node |
| Dfs.Traverse | internal/algorithms/searching/dfs.go:94-189 | the stack traversal yields a distinct path starting at the start node, matching `visited`, in depth-first order; found iff the target is a node, and then the path ends with it; not found means every node was visited; one VisitNode step per path node |
| Dfs.Execute | internal/algorithms/searching/dfs.go:62-190 | the same over `generateGraph(graph_size)`, path in depth-first order, with steps starting with Initialize and ending with Found or NotFound |
| Bfs.ValidateParameters | internal/algorithms/searching/bfs.go:193-200 | passes iff `graph_size` (default 6) lies in `[3, 20]`; start and target are not checked |
| Bfs.StartNodeUnchecked | internal/algorithms/searching/bfs.go:193-200 | the check passes a `start_node` of 7 on the default 6-node graph |
| Bfs.ValidateParametersChecked | internal/algorithms/searching/bfs.go:95-103 | passes iff `graph_size` is in range and `start_node` is a node of that graph |
| Bfs.LevelStart | internal/algorithms/searching/bfs.go:94-96 | before the loop, with only the start queued, the breadth-first order holds at level 0 |
| Bfs.LevelShift | internal/algorithms/searching/bfs.go:99-101 | once the entries of one level are used up, every node at that distance is visited and the queue holds the next level only |
| Bfs.LevelAdvance | internal/algorithms/searching/bfs.go:99-101 | the front of a non-empty queue belongs to the current level, or to the next once the current one is used up |
| Bfs.LevelNext | internal/algorithms/searching/bfs.go:103-108 | an unvisited node taken from the front is at the current level, so appending it keeps `path` in non-decreasing distance |
| Bfs.LevelSkip | internal/algorithms/searching/bfs.go:100-105 | dropping a visited entry from the front keeps the breadth-first order |
| Bfs.QueueLevelsVisit | internal/algorithms/searching/bfs.go:149-153 | the neighbours enqueued while visiting a node of the current level are at most one level further |
| Bfs.PushedVisit | internal/algorithms/searching/bfs.go:149-153 | visiting a node enqueues every unvisited node one step further whose shortest walk passes through it |
| Bfs.QueuedVisit | internal/algorithms/searching/bfs.go:100-108 | after a visit, the other unvisited nodes of the current level are still queued ahead of the next level |
| Bfs.LevelVisit | internal/algorithms/searching/bfs.go:100-153 | visiting the front entry and enqueueing its unvisited neighbours keeps the breadth-first order |
| Bfs.Dequeue | internal/algorithms/searching/bfs.go:99-153 | takes the front of the queue (`Graphs.Handled`): if it was visited, nothing changes and no step is emitted; otherwise it is marked visited and appended to `path`, `found` holds iff it is the target, and when it is not, the new queue is the rest followed by its unvisited neighbours in adjacency order; on the target, steps VisitNode, Found and a traced result; otherwise the traversal invariant and the breadth-first order are kept, and either one more node is visited or the queue shrinks |
| Bfs.Search | internal/algorithms/searching/bfs.go:94-153 | the queue loop: on the target, a traced result ending with Found; on an empty queue, the traversal invariant with nothing pending; in both, the path is in non-decreasing distance from the start and has one VisitNode step per node |
| Bfs.Traverse | internal/algorithms/searching/bfs.go:94-189 | the queue traversal yields a distinct path from the start matching `visited`, in non-decreasing distance from the start; found iff the target is a node, and then the path ends with it; not found means every node was visited; one VisitNode step per path node |
| Bfs.Execute | internal/algorithms/searching/bfs.go:62-190 | the same over `generateGraph(graph_size)`, path in non-decreasing distance from `start_node`, with steps starting with Initialize and ending with Found or NotFound |
| HashLookup.ValidateParameters | internal/algorithms/searching/hash_lookup.go:174-181 | passes iff `table_size` (default 10) lies in `[5, 50]`; `key` is not checked |
| HashLookup.ModAdd | internal/algorithms/searching/hash_lookup.go:191-194 | reducing before adding gives the same remainder: `(a % n + c) % n == (a + c) % n` |
| HashLookup.ReduceStep | internal/algorithms/searching/hash_lookup.go:192-193 | one loop step of the hash adds the next code point modulo the table size |
| HashLookup.HashFunction | internal/algorithms/searching/hash_lookup.go:190-196 | `hashFunction` returns the sum of the key's code points modulo `tableSize`, which lies in `[0, tableSize)` |
| HashLookup.Entries | internal/algorithms/searching/hash_lookup.go:203-204 | the first `i` sample pairs `key1/value1 ...` |
| HashLookup.SampleCount | internal/algorithms/searching/hash_lookup.go:206-209 | `min(size, 10)` samples are inserted, none for a size of 0 or less |
| HashLookup.BucketMembers | internal/algorithms/searching/hash_lookup.go:199-220 | a bucket holds exactly the inserted entries whose key hashes to it |
| HashLookup.BucketSnoc | internal/algorithms/searching/hash_lookup.go:216 | appending an entry grows only its own bucket, at the end |
| HashLookup.Append | internal/algorithms/searching/hash_lookup.go:215-216 | one insertion keeps the table equal to the buckets of the entries inserted so far |
| HashLookup.GenerateHashTable | internal/algorithms/searching/hash_lookup.go:199-220 | the table holds exactly `key1..key{min(size, 10)}`, each in bucket `hash(key)`, buckets in insertion order |
| HashLookup.TableShape | internal/algorithms/searching/hash_lookup.go:199-220 | every bucket index lies in `[0, size)` and every inserted entry sits in its key's bucket |
| HashLookup.ScanBucket | internal/algorithms/searching/hash_lookup.go:110-149 | the bucket scan finds the first entry with the key, after one CheckEntry step per entry checked, or reports that no entry has it |
| HashLookup.Lookup | internal/algorithms/searching/hash_lookup.go:95-170 | found iff the key was inserted, with its paired value and `collisions == len(bucket) - 1`; otherwise no value and no collision count |
| HashLookup.Execute | internal/algorithms/searching/hash_lookup.go:51-171 | the reported hash is the key's hash in `[0, table_size)`; found iff the key is among the inserted samples, with the paired value; steps start with Initialize, CalculateHash |
| Algorithms.NewBubbleSort | internal/algorithms/sorting/bubble_sort.go:15-43 | a bubble sort executor with id `bubble_sort` in category sorting |
| Algorithms.NewMergeSort | internal/algorithms/sorting/merge_sort.go:15-43 | a merge sort executor with id `merge_sort` in category sorting |
| Algorithms.NewQuickSort | internal/algorithms/sorting/quick_sort.go:15-43 | a quick sort executor with id `quick_sort` in category sorting |
| Algorithms.NewHeapSort | internal/algorithms/sorting/heap_sort.go:15-43 | a heap sort executor with id `heap_sort` in category sorting |
| Algorithms.NewCountingSort | internal/algorithms/sorting/counting_sort.go:15-45 | a counting sort executor with id `counting_sort` in category sorting |
| Algorithms.NewLinearSearch | internal/algorithms/searching/linear_search.go:15-43 | a linear search executor with id `linear_search` in category searching |
| Algorithms.NewBinarySearch | internal/algorithms/searching/binary_search.go:16-44 | a binary search executor with id `binary_search` in category searching |
| Algorithms.NewDFS | internal/algorithms/searching/dfs.go:15-54 | a DFS executor with id `dfs` in category searching |
| Algorithms.NewBFS | internal/algorithms/searching/bfs.go:15-54 | a BFS executor with id `bfs` in category searching |
| Algorithms.NewHashLookup | internal/algorithms/searching/hash_lookup.go:15-43 | a hash lookup executor with id `hash_lookup` in category searching |
| Algorithms.CategoryIds | internal/algorithms/registry.go:60-73 | the ids of a category are registered ids |
| Algorithms.ListNext | internal/algorithms/registry.go:50-55 | one loop iteration over the map lists one more id, exactly when it belongs to the listed set |
| Algorithms.Registry.constructor | internal/algorithms/registry.go:17-26 | a new registry holds exactly the ten ids, each filed under its own id with its executor type and category |
| Algorithms.Registry.RegisterAlgorithm | internal/algorithms/registry.go:29-35 | the executor is stored under its metadata id, replacing an earlier one; every other entry is unchanged |
| Algorithms.Registry.GetAlgorithm | internal/algorithms/registry.go:38-44 | returns the executor and true iff the id is registered, nothing and false otherwise; the registry is not changed |
| Algorithms.Registry.GetAllAlgorithms | internal/algorithms/registry.go:47-57 | one descriptor per registered id, each the metadata of that id's executor, no id twice, length the map size |
| Algorithms.Registry.GetAlgorithmsByCategory | internal/algorithms/registry.go:60-73 | exactly the descriptors of the registered executors of category `c`, each once |
| Algorithms.Registry.RegisterAlgorithms | internal/algorithms/registry.go:76-92 | the ten executors are added under their ids with their types and categories; other ids keep their executors |
| Algorithms.Registration | internal/algorithms/registry.go:78-91 | the ten registrations in source order add the ten ids, file each executor under its own id and keep every other entry |
| Algorithms.CategorySubset | internal/algorithms/registry.go:47-73 | every descriptor listed for a category is among the descriptors listed for all algorithms |
| Algorithms.StandardIdsCount | internal/algorithms/registry.go:78-91 | the ten ids are distinct |
| Algorithms.StandardSize | internal/algorithms/registry.go:17-26 | a freshly built registry holds ten executors |

## Left out

- The step callback is modelled as the returned sequence of action tags. Step numbers, messages, timestamps and `Data` maps are not modelled, including the live array the `Data` maps alias.
- Registry: the mutex is not modelled; the registry is single-threaded.
- The HTTP handlers, the goroutine that runs an execution, the websocket hub, configuration and `main` are not part of this model.
- `GetMetadata` is the `metadata` field of `Algorithms.Executor`; the executor types are constructors of `Algorithms.ExecutorKind`, because an interface with ten implementations has no counterpart here.
- Algorithms.NewBubbleSort: the contract of each of the ten constructors states the executor type, id and category, not the name, description, complexity or parameter list, which the bodies copy from the source literals.
- Algorithms.Registry.GetAllAlgorithms: Go's map iteration order is random; the model picks ids in an unspecified order and proves only what holds for every order.
- Algorithms.Registry.GetAlgorithmsByCategory: Go returns a nil slice when no descriptor matches; the model returns the empty sequence.
- The library sort that binary search calls (`sort.Ints`) is played by the verified in-place heap sort. Any correct sort gives the same array (`Sequences.SortedPermutationUnique`).
- DFS, BFS and hash lookup ignore their `input` argument in the source. Their `Execute` methods take no input.
- `Execute` of every executor except DFS and BFS requires that its `ValidateParameters` passed, because the HTTP handler always validates first. Without it, a negative `array_size` would make Go's `make` panic.
- Dfs.Execute: requires `Dfs.ValidateParametersChecked`, which also excludes a `start_node` outside `[0, graph_size)`. The source's `ValidateParameters` lets such a node through, and `visited[current]` at dfs.go:103 then panics. The panic is not modelled as a result; see "## Findings".
- Bfs.Execute: requires `Bfs.ValidateParametersChecked`, which also excludes a `start_node` outside `[0, graph_size)`. The source's `ValidateParameters` lets such a node through, and `visited[current]` at bfs.go:103 then panics. The panic is not modelled as a result; see "## Findings".
- Parameters arriving over HTTP: every executor reads its integer parameters with `.(int)`, but a JSON number decodes to a float64, so over HTTP the assertion fails and the defaults are used. The model takes the parameter map as given. An `IntV` is what a Go caller that builds the map itself would pass.
- CountingSort.Execute: the contract requires a non-empty `[]int` of non-negative values. The source reads `arr[0]` and indexes `count[arr[i]]`, so it panics on anything else. That panic is not modelled as a result.
- HashLookup.HashFunction requires `tableSize > 0`. A zero table size is a division by zero in the source, and validation excludes it.
- HashLookup.GenerateHashTable computes each entry's bucket with `HashFunction` rather than a copy of the same loop inlined at hash_lookup.go:210-213. `HashLookup.HashFunction` proves that loop equal to the closed-form hash, so the two agree.
- MergeSort.MergedStep: stability is stated as "the left head is taken on a tie". The elements are plain ints, so equal elements cannot be told apart in the output.
- MergeSort.MergeSortRange: the step number `mergeSort` returns is not modelled, because step numbers are not modelled.
- Floating-point and list parameter values are kept in `Types.Value` for completeness. No executor reads them.

## Findings

| source | as written | input that shows it | evidently intended | confidence | as-written member | corrected member |
|---|---|---|---|---|---|---|
| internal/algorithms/searching/dfs.go:193-200 | `ValidateParameters` checks only `graph_size`; `Execute` then indexes `visited[startNode]` | a Go caller passing the map `{"start_node": 7}` (an `int`), with the default `graph_size` 6: validation passes, and `visited[7]` is out of range | reject a `start_node` outside `[0, graph_size)` | not executed | Dfs.StartNodeUnchecked | Dfs.ValidateParametersChecked |
| internal/algorithms/searching/bfs.go:193-200 | the same check as DFS; `Execute` then indexes `visited[startNode]` | a Go caller passing the map `{"start_node": 7}` (an `int`), with the default `graph_size` 6 | reject a `start_node` outside `[0, graph_size)` | not executed | Bfs.StartNodeUnchecked | Bfs.ValidateParametersChecked |
