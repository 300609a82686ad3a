/** The counting sort executor: find the maximum, count each value's
    occurrences, turn the counts into prefix sums, then place the elements
    right to left into a fresh output array. The input is only read. */
module CountingSort {
  import opened Types
  import opened Sequences
  import Generators

  /** The description GetMetadata reports. */
  const Description := "A non-comparison-based sorting algorithm that counts the number of objects having distinct key values."

  function Metadata(): Descriptor
  {
    Descriptor(
      "counting_sort", "Counting Sort", Sorting,
      Description,
      "Time: O(n + k), Space: O(k) where k is the range of input",
      [ ParamSpec("array_size", "int", "Size of the array to sort", IntV(10), Some(3), Some(50), true),
        ParamSpec("max_value", "int", "Maximum value in the array", IntV(20), Some(5), Some(100), true) ])
  }

  /** Rejects an int `array_size` outside [3, 50], then an int `max_value`
      outside [5, 100]. */
  function ValidateParameters(params: Params): (r: Outcome)
    ensures r.Pass? <==> 3 <= IntParam(params, "array_size", 10) <= 50 && 5 <= IntParam(params, "max_value", 20) <= 100
    ensures !(3 <= IntParam(params, "array_size", 10) <= 50) ==> r == Fail("array_size must be between 3 and 50")
  {
    AndThen(
      CheckIntRange(params, "array_size", 10, 3, 50, "array_size must be between 3 and 50"),
      CheckIntRange(params, "max_value", 20, 5, 100, "max_value must be between 5 and 100"))
  }

  /** `c` copies of `v`. */
  function Repeat<T>(v: T, c: nat): (s: seq<T>)
    ensures |s| == c && forall k :: 0 <= k < c ==> s[k] == v
  {
    seq(c, _ => v)
  }

  /** The elements of `s` below `k`, in ascending order: the runs of 0s, 1s,
      ..., (k-1)s, each as long as that value's count in `s`. For `k` one
      past the maximum this is the array counting sort produces. */
  ghost function Below(s: seq<int>, k: nat): seq<int>
  {
    if k == 0 then [] else Below(s, k - 1) + Repeat(k - 1, multiset(s)[k - 1])
  }

  /** Every element of `Below(s, k)` lies in [0, k), and they are in order. */
  lemma {:induction false} BelowSorted(s: seq<int>, k: nat)
    ensures Sorted(Below(s, k))
    ensures forall p :: 0 <= p < |Below(s, k)| ==> 0 <= Below(s, k)[p] < k
  {
    if k > 0 {
      BelowSorted(s, k - 1);
    }
  }

  /** Taking more values never shortens the runs. */
  lemma {:induction false} BelowGrows(s: seq<int>, v: nat, w: nat)
    requires v <= w
    ensures |Below(s, v)| <= |Below(s, w)|
    decreases w
  {
    if v < w {
      BelowGrows(s, v, w - 1);
    }
  }

  /** Position `p` of the runs holds `v` exactly when `p` lies in `v`'s run,
      `[|Below(s, v)|, |Below(s, v + 1)|)`. */
  lemma {:induction false} BelowAt(s: seq<int>, k: nat, p: nat)
    requires p < |Below(s, k)|
    ensures 0 <= Below(s, k)[p] < k
    ensures |Below(s, Below(s, k)[p])| <= p < |Below(s, Below(s, k)[p] + 1)|
  {
    if p < |Below(s, k - 1)| {
      BelowAt(s, k - 1, p);
    }
  }

  /** The runs below `k` hold each value below `k` as often as `s` does, and
      no other value. */
  lemma {:induction false} BelowCount(s: seq<int>, k: nat, v: int)
    ensures multiset(Below(s, k))[v] == if 0 <= v < k then multiset(s)[v] else 0
  {
    if k > 0 {
      BelowCount(s, k - 1, v);
      BelowStep(s, k, v);
    }
  }

  /** Going from `k - 1` to `k` adds the run of `k - 1`s and nothing else. */
  lemma BelowStep(s: seq<int>, k: nat, v: int)
    requires k > 0
    ensures multiset(Below(s, k))[v] == multiset(Below(s, k - 1))[v] + if v == k - 1 then multiset(s)[v] else 0
  {
    RepeatCount(k - 1, multiset(s)[k - 1], v);
  }

  /** `Repeat(v, c)` holds `c` copies of `v` and nothing else. */
  lemma {:induction false} RepeatCount<T>(v: T, c: nat, w: T)
    ensures multiset(Repeat(v, c))[w] == if w == v then c else 0
  {
    if c > 0 {
      RepeatCount(v, c - 1, w);
      assert Repeat(v, c) == Repeat(v, c - 1) + [v];
    }
  }

  /** For an array of values in [0, k), the runs below `k` are a sorted
      permutation of it. */
  lemma {:induction false} BelowIsSortedPermutation(s: seq<int>, k: nat)
    requires forall p :: 0 <= p < |s| ==> 0 <= s[p] < k
    ensures Sorted(Below(s, k))
    ensures multiset(Below(s, k)) == multiset(s)
  {
    BelowSorted(s, k);
    forall v
      ensures multiset(Below(s, k))[v] == multiset(s)[v]
    {
      BelowCount(s, k, v);
      if !(0 <= v < k) {
        assert v !in s;
      }
    }
  }

  /** The "find the maximum" loop: `max` starts at `arr[0]`. */
  method FindMaximum(arr: array<int>) returns (max: int)
    requires arr.Length > 0
    ensures max in arr[..]
    ensures forall k :: 0 <= k < arr.Length ==> arr[k] <= max
  {
    max := arr[0];
    for i := 0 to arr.Length
      invariant max in arr[..]
      invariant forall k :: 0 <= k < i ==> arr[k] <= max
    {
      if arr[i] > max {
        max := arr[i];
      }
    }
  }

  /** The counting loop: afterwards `count[v]` is the number of occurrences
      of `v` in `arr`. */
  method CountValues(arr: array<int>, max: nat) returns (count: array<int>, actions: seq<Action>)
    requires forall k :: 0 <= k < arr.Length ==> 0 <= arr[k] <= max
    ensures fresh(count) && count.Length == max + 1
    ensures forall v :: 0 <= v <= max ==> count[v] == multiset(arr[..])[v]
    ensures Uniform(actions, CountElement, arr.Length)
  {
    count := new int[max + 1](_ => 0);
    actions := [];
    for i := 0 to arr.Length
      invariant forall v :: 0 <= v <= max ==> count[v] == multiset(arr[..i])[v]
      invariant Uniform(actions, CountElement, i)
    {
      assert arr[..i + 1] == arr[..i] + [arr[i]];
      count[arr[i]] := count[arr[i]] + 1;
      actions := actions + [CountElement];
    }
    assert arr[..arr.Length] == arr[..];
  }

  /** The prefix loop: afterwards `count[v]` is the number of elements at
      most `v`, that is, one past the last slot of `v`'s run. */
  method PrefixSums(count: array<int>, ghost s: seq<int>) returns (actions: seq<Action>)
    requires count.Length > 0
    requires forall v :: 0 <= v < count.Length ==> count[v] == multiset(s)[v]
    modifies count
    ensures forall v :: 0 <= v < count.Length ==> count[v] == |Below(s, v + 1)|
    ensures Uniform(actions, ModifyCountElement, count.Length - 1)
  {
    actions := [];
    for i := 1 to count.Length
      invariant forall v :: 0 <= v < i ==> count[v] == |Below(s, v + 1)|
      invariant forall v :: i <= v < count.Length ==> count[v] == multiset(s)[v]
      invariant Uniform(actions, ModifyCountElement, i - 1)
    {
      count[i] := count[i] + count[i - 1];
      actions := actions + [ModifyCountElement];
    }
  }

  /** For an array of values in [0, m), the runs below `m` have its length. */
  lemma {:induction false} BelowLength(s: seq<int>, m: nat)
    requires forall p :: 0 <= p < |s| ==> 0 <= s[p] < m
    ensures |Below(s, m)| == |s|
  {
    BelowIsSortedPermutation(s, m);
    assert |Below(s, m)| == |multiset(Below(s, m))| == |s|;
  }

  /** Where the runs of `s`'s values `0 .. |lo| - 1` go in the output: value
      `v` fills the slots `[lo[v], hi[v])`, as many as it occurs in `s`, and
      the runs of smaller values come first. */
  ghost predicate RunLayout(s: seq<int>, lo: seq<int>, hi: seq<int>)
  {
    && |lo| == |hi|
    && (forall v :: 0 <= v < |lo| ==> 0 <= lo[v] && hi[v] == lo[v] + multiset(s)[v] && hi[v] <= |s|)
    && (forall v, w :: 0 <= v < w < |lo| ==> hi[v] <= lo[w])
  }

  /** The start of each run in `Below(s, m)`. */
  ghost function RunStarts(s: seq<int>, m: nat): (r: seq<int>)
    ensures |r| == m && forall v :: 0 <= v < m ==> r[v] == |Below(s, v)|
  {
    seq(m, v requires 0 <= v < m => |Below(s, v)|)
  }

  /** One past the end of each run in `Below(s, m)`. */
  ghost function RunEnds(s: seq<int>, m: nat): (r: seq<int>)
    ensures |r| == m && forall v :: 0 <= v < m ==> r[v] == |Below(s, v + 1)|
  {
    seq(m, v requires 0 <= v < m => |Below(s, v + 1)|)
  }

  /** Run `v` is as long as `v`'s count and ends inside the array. */
  lemma {:induction false} RunSize(s: seq<int>, m: nat, v: nat)
    requires forall p :: 0 <= p < |s| ==> 0 <= s[p] < m
    requires v < m
    ensures RunEnds(s, m)[v] == RunStarts(s, m)[v] + multiset(s)[v]
    ensures 0 <= RunStarts(s, m)[v] && RunEnds(s, m)[v] <= |s|
  {
    BelowLength(s, m);
    BelowGrows(s, v + 1, m);
  }

  /** A smaller value's run ends before a larger value's run starts. */
  lemma {:induction false} RunOrder(s: seq<int>, m: nat, v: nat, w: nat)
    requires v < w < m
    ensures RunEnds(s, m)[v] <= RunStarts(s, m)[w]
  {
    BelowGrows(s, v + 1, w);
  }

  /** The runs of `Below(s, m)` are laid out as RunLayout says. */
  lemma {:induction false} BelowLayout(s: seq<int>, m: nat)
    requires forall p :: 0 <= p < |s| ==> 0 <= s[p] < m
    ensures RunLayout(s, RunStarts(s, m), RunEnds(s, m))
  {
    RunSizes(s, m);
    RunsOrdered(s, m);
  }

  lemma {:induction false} RunSizes(s: seq<int>, m: nat)
    requires forall p :: 0 <= p < |s| ==> 0 <= s[p] < m
    ensures forall v :: 0 <= v < m ==>
      0 <= RunStarts(s, m)[v] && RunEnds(s, m)[v] == RunStarts(s, m)[v] + multiset(s)[v] && RunEnds(s, m)[v] <= |s|
  {
    forall v | 0 <= v < m
      ensures 0 <= RunStarts(s, m)[v] && RunEnds(s, m)[v] == RunStarts(s, m)[v] + multiset(s)[v] && RunEnds(s, m)[v] <= |s|
    {
      RunSize(s, m, v);
    }
  }

  lemma {:induction false} RunsOrdered(s: seq<int>, m: nat)
    ensures forall v, w :: 0 <= v < w < m ==> RunEnds(s, m)[v] <= RunStarts(s, m)[w]
  {
    forall v, w | 0 <= v < w < m
      ensures RunEnds(s, m)[v] <= RunStarts(s, m)[w]
    {
      RunOrder(s, m, v, w);
    }
  }

  /** An array whose every run slot holds its run's value is `Below(s, m)`. */
  lemma {:induction false} FilledIsBelow(s: seq<int>, m: nat, o: seq<int>)
    requires forall p :: 0 <= p < |s| ==> 0 <= s[p] < m
    requires |o| == |s|
    requires RunsFilled(o, RunStarts(s, m), RunEnds(s, m))
    ensures o == Below(s, m)
  {
    BelowLength(s, m);
    forall p | 0 <= p < |s|
      ensures o[p] == Below(s, m)[p]
    {
      BelowAt(s, m, p);
      var v := Below(s, m)[p];
      assert RunStarts(s, m)[v] <= p < RunEnds(s, m)[v];
    }
  }

  /** Every slot of run `v`, `[lo[v], hi[v])`, holds `v`. */
  ghost predicate RunsFilled(o: seq<int>, lo: seq<int>, hi: seq<int>)
    requires |lo| == |hi|
  {
    forall v, p :: 0 <= v < |lo| && 0 <= p < |o| && lo[v] <= p < hi[v] ==> o[p] == v
  }

  /** `c[v]` is the start of `v`'s run plus the `v`s among `s[..j]`. */
  ghost predicate Counted(c: seq<int>, s: seq<int>, lo: seq<int>, j: nat)
    requires j <= |s|
  {
    |c| == |lo| && forall v :: 0 <= v < |lo| ==> c[v] == lo[v] + multiset(s[..j])[v]
  }

  /** The slot the placement loop fills for `s[i]`, one before `c[s[i]]`,
      lies in `s[i]`'s run; writing `s[i]` there and decrementing `c[s[i]]`
      keeps both loop facts, with one element fewer left to place. */
  lemma {:induction false} PlaceStep(s: seq<int>, lo: seq<int>, hi: seq<int>, c: seq<int>, o: seq<int>, i: nat)
    requires RunLayout(s, lo, hi) && |o| == |s|
    requires i < |s| && 0 <= s[i] < |lo|
    requires Counted(c, s, lo, i + 1) && RunsFilled(o, c, hi)
    ensures lo[s[i]] <= c[s[i]] - 1 < hi[s[i]]
    ensures Counted(c[s[i] := c[s[i]] - 1], s, lo, i)
    ensures RunsFilled(o[c[s[i]] - 1 := s[i]], c[s[i] := c[s[i]] - 1], hi)
  {
    var x := s[i];
    assert s[..i + 1] == s[..i] + [x];
    assert s == s[..i + 1] + s[i + 1..];
    assert multiset(s[..i + 1])[x] <= multiset(s)[x];
    var c1, o1 := c[x := c[x] - 1], o[c[x] - 1 := x];
    forall v, p | 0 <= v < |c1| && 0 <= p < |o1| && c1[v] <= p < hi[v]
      ensures o1[p] == v
    {
      if v < x {
        assert hi[v] <= lo[x];
      } else if x < v {
        assert hi[x] <= lo[v];
      }
    }
  }

  /** The placement loop, right to left: each element goes to the last free
      slot of its run. `count[v]` is the start of `v`'s run plus the number
      of `v`s not yet placed, and every slot from there to the end of the
      run already holds `v`. */
  method Place(arr: array<int>, count: array<int>, ghost lo: seq<int>, ghost hi: seq<int>)
    returns (output: array<int>, actions: seq<Action>)
    requires arr != count
    requires RunLayout(arr[..], lo, hi) && |lo| == count.Length
    requires forall k :: 0 <= k < arr.Length ==> 0 <= arr[k] < count.Length
    requires count[..] == hi
    modifies count
    ensures fresh(output) && output.Length == arr.Length
    ensures RunsFilled(output[..], lo, hi)
    ensures Uniform(actions, PlaceElement, arr.Length)
  {
    ghost var s := arr[..];
    output := new int[arr.Length];
    actions := [];
    assert s[..arr.Length] == s;
    var i := arr.Length - 1;
    ghost var c, o := count[..], output[..];
    while i >= 0
      invariant -1 <= i < arr.Length
      invariant count[..] == c && output[..] == o
      invariant Counted(c, s, lo, i + 1) && RunsFilled(o, c, hi)
      invariant Uniform(actions, PlaceElement, arr.Length - 1 - i)
    {
      PlaceStep(s, lo, hi, c, o, i);
      PlaceOne(output, count, arr[i]);
      c, o := c[s[i] := c[s[i]] - 1], o[c[s[i]] - 1 := s[i]];
      actions := actions + [PlaceElement];
      i := i - 1;
    }
    assert count[..] == lo by {
      assert s[..0] == [];
    }
  }

  /** One iteration of the placement loop: `x` goes to the slot before
      `count[x]`, which then moves down by one. */
  method PlaceOne(output: array<int>, count: array<int>, x: int)
    requires output != count && 0 <= x < count.Length && 0 <= count[x] - 1 < output.Length
    modifies output, count
    ensures output[..] == old(output[..])[old(count[x]) - 1 := x]
    ensures count[..] == old(count[..])[x := old(count[x]) - 1]
  {
    var slot := count[x] - 1;
    output[slot] := x;
    count[x] := slot;
  }

  /** The four phases of Execute over a non-empty array of non-negative
      values: the output is the array's runs in ascending order, that is,
      its sorted permutation. `arr` itself is only read. The three loops
      report one step per iteration. */
  method SortInto(arr: array<int>)
    returns (output: array<int>, max: int, countSteps: seq<Action>, prefixSteps: seq<Action>, placeSteps: seq<Action>)
    requires arr.Length > 0
    requires forall k :: 0 <= k < arr.Length ==> arr[k] >= 0
    ensures fresh(output)
    ensures max in arr[..] && forall k :: 0 <= k < arr.Length ==> arr[k] <= max
    ensures output[..] == Below(arr[..], max + 1)
    ensures Sorted(output[..]) && multiset(output[..]) == multiset(arr[..])
    ensures Uniform(countSteps, CountElement, arr.Length)
    ensures Uniform(prefixSteps, ModifyCountElement, max)
    ensures Uniform(placeSteps, PlaceElement, arr.Length)
  {
    var count;
    count, max, countSteps, prefixSteps := CountRuns(arr);
    ghost var s := arr[..];
    BelowLayout(s, max + 1);
    output, placeSteps := Place(arr, count, RunStarts(s, max + 1), RunEnds(s, max + 1));
    PlacedIsBelow(s, max + 1, output[..]);
  }

  /** The first three phases: the maximum, the counts, and their prefix sums,
      which mark where each value's run ends. */
  method CountRuns(arr: array<int>) returns (count: array<int>, max: int, countSteps: seq<Action>, prefixSteps: seq<Action>)
    requires arr.Length > 0
    requires forall k :: 0 <= k < arr.Length ==> arr[k] >= 0
    ensures fresh(count) && count.Length == max + 1
    ensures max in arr[..] && forall k :: 0 <= k < arr.Length ==> arr[k] <= max
    ensures forall p :: 0 <= p < arr.Length ==> 0 <= arr[..][p] < max + 1
    ensures count[..] == RunEnds(arr[..], max + 1)
    ensures Uniform(countSteps, CountElement, arr.Length)
    ensures Uniform(prefixSteps, ModifyCountElement, max)
  {
    max := FindMaximum(arr);
    assert max >= 0 by {
      var k :| 0 <= k < arr.Length && arr[k] == max;
    }
    count, countSteps := CountValues(arr, max);
    prefixSteps := PrefixSums(count, arr[..]);
    assert count[..] == RunEnds(arr[..], max + 1);
  }

  /** The placement result, every run slot filled with its run's value, is
      the sorted permutation `Below(s, m)`. */
  lemma PlacedIsBelow(s: seq<int>, m: nat, o: seq<int>)
    requires forall p :: 0 <= p < |s| ==> 0 <= s[p] < m
    requires |o| == |s|
    requires RunsFilled(o, RunStarts(s, m), RunEnds(s, m))
    ensures o == Below(s, m)
    ensures Sorted(o) && multiset(o) == multiset(s)
  {
    FilledIsBelow(s, m, o);
    BelowIsSortedPermutation(s, m);
  }

  /** The steps of Execute: the phase tags around the three loops' steps. */
  function Trace(countSteps: seq<Action>, prefixSteps: seq<Action>, placeSteps: seq<Action>): (t: seq<Action>)
    ensures |t| >= 2 && t[0] == Initialize && t[|t| - 1] == Complete
  {
    [Initialize, FindMax, CountOccurrences] + countSteps + [ModifyCount] + prefixSteps
      + [BuildOutput] + placeSteps + [Complete]
  }

  /** A loop-step tag occurs in the trace exactly as often as in the loop
      that emits it. */
  lemma TraceCount(countSteps: seq<Action>, prefixSteps: seq<Action>, placeSteps: seq<Action>, b: Action)
    requires b.CountElement? || b.ModifyCountElement? || b.PlaceElement?
    ensures multiset(Trace(countSteps, prefixSteps, placeSteps))[b] ==
      multiset(countSteps)[b] + multiset(prefixSteps)[b] + multiset(placeSteps)[b]
  {
  }

  /** One CountElement and one PlaceElement step per element, and one
      ModifyCountElement step per value from 1 to `max`. */
  lemma TraceCounts(countSteps: seq<Action>, prefixSteps: seq<Action>, placeSteps: seq<Action>, n: nat, max: nat)
    requires Uniform(countSteps, CountElement, n)
    requires Uniform(prefixSteps, ModifyCountElement, max)
    requires Uniform(placeSteps, PlaceElement, n)
    ensures multiset(Trace(countSteps, prefixSteps, placeSteps))[CountElement] == n
    ensures multiset(Trace(countSteps, prefixSteps, placeSteps))[ModifyCountElement] == max
    ensures multiset(Trace(countSteps, prefixSteps, placeSteps))[PlaceElement] == n
  {
    TraceCount(countSteps, prefixSteps, placeSteps, CountElement);
    TraceCount(countSteps, prefixSteps, placeSteps, ModifyCountElement);
    TraceCount(countSteps, prefixSteps, placeSteps, PlaceElement);
    UniformCount(countSteps, CountElement, n, CountElement);
    UniformCount(countSteps, CountElement, n, ModifyCountElement);
    UniformCount(countSteps, CountElement, n, PlaceElement);
    UniformCount(prefixSteps, ModifyCountElement, max, CountElement);
    UniformCount(prefixSteps, ModifyCountElement, max, ModifyCountElement);
    UniformCount(prefixSteps, ModifyCountElement, max, PlaceElement);
    UniformCount(placeSteps, PlaceElement, n, CountElement);
    UniformCount(placeSteps, PlaceElement, n, ModifyCountElement);
    UniformCount(placeSteps, PlaceElement, n, PlaceElement);
  }

  /** Execute. A supplied `[]int` must be non-empty (the source reads
      `arr[0]`) and free of negatives (the source indexes `count` with each
      element); it is never written. */
  method Execute(input: Input, params: Params) returns (r: Result<seq<int>>, actions: seq<Action>)
    requires ValidateParameters(params).Pass?
    requires input.IntSlice? ==> input.arr.Length > 0 && forall k :: 0 <= k < input.arr.Length ==> input.arr[k] >= 0
    ensures r.Err? <==> input.OtherInput?
    ensures r.Err? ==> actions == []
    ensures r.Ok? ==> Sorted(r.value)
    ensures r.Ok? ==> |actions| >= 2 && actions[0] == Initialize && actions[|actions| - 1] == Complete
    ensures input.IntSlice? ==> r.Ok? && multiset(r.value) == multiset(input.arr[..])
    ensures input.NoInput? ==> (r.Ok? && multiset(r.value) ==
      multiset(Generators.Cyclic(IntParam(params, "array_size", 10), IntParam(params, "max_value", 20))))
    ensures r.Ok? ==> multiset(actions)[CountElement] == |r.value| && multiset(actions)[PlaceElement] == |r.value|
  {
    var arr: array<int>;
    match input {
      case OtherInput(_) =>
        return Err("invalid input type, expected []int"), [];
      case IntSlice(a) =>
        arr := a;
      case NoInput =>
        arr := Generators.GenerateRandomArrayWithMax(IntParam(params, "array_size", 10), IntParam(params, "max_value", 20));
    }
    var sorted;
    sorted, actions := SortWithSteps(arr);
    r := Ok(sorted);
  }

  /** The body of Execute once the array is known: sort it and report the
      steps of the four phases. */
  method SortWithSteps(arr: array<int>) returns (sorted: seq<int>, actions: seq<Action>)
    requires arr.Length > 0
    requires forall k :: 0 <= k < arr.Length ==> arr[k] >= 0
    ensures Sorted(sorted) && multiset(sorted) == multiset(arr[..])
    ensures |actions| >= 2 && actions[0] == Initialize && actions[|actions| - 1] == Complete
    ensures multiset(actions)[CountElement] == |sorted| && multiset(actions)[PlaceElement] == |sorted|
  {
    var output, max, countSteps, prefixSteps, placeSteps := SortInto(arr);
    sorted := output[..];
    TraceCounts(countSteps, prefixSteps, placeSteps, arr.Length, max);
    actions := Trace(countSteps, prefixSteps, placeSteps);
  }
}
