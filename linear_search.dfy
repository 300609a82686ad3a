/** The linear search executor: scans the array from the left and stops at
    the first element equal to the target. */
module LinearSearch {
  import opened Types
  import opened Sequences
  import Generators

  /** The description GetMetadata reports. */
  const Description := "A simple search algorithm that checks each element in the array sequentially until the target is found."

  function Metadata(): Descriptor
  {
    Descriptor(
      "linear_search", "Linear Search", Searching,
      Description,
      "Time: O(n), Space: O(1)",
      [ ParamSpec("array_size", "int", "Size of the array to search", IntV(10), Some(3), Some(100), true),
        ParamSpec("target", "int", "Value to search for", IntV(5), None, None, true) ])
  }

  /** ValidateParameters: only `array_size` is checked; `target` may be any int. */
  function ValidateParameters(params: Params): (r: Outcome)
    ensures r.Pass? <==> 3 <= IntParam(params, "array_size", 10) <= 100
  {
    CheckIntRange(params, "array_size", 10, 3, 100, "array_size must be between 3 and 100")
  }

  /** The result map of a search: `found`, `index` (-1 when not found),
      `value` (nil when not found) and the number of comparisons made. */
  datatype SearchResult = SearchResult(found: bool, index: int, value: Option<int>, comparisons: nat)

  /** The loop of Execute: a CheckElement step per element looked at, then
      Found at the first match or NotFound once the array is exhausted. */
  method Scan(arr: array<int>, target: int) returns (res: SearchResult, actions: seq<Action>)
    ensures res.found ==> 0 <= res.index < arr.Length && arr[res.index] == target
    ensures res.found ==> forall k :: 0 <= k < res.index ==> arr[k] != target
    ensures res.found ==> res.value == Some(arr[res.index]) && res.comparisons == res.index + 1
    ensures !res.found ==> forall k :: 0 <= k < arr.Length ==> arr[k] != target
    ensures !res.found ==> res.index == -1 && res.value == None && res.comparisons == arr.Length
    ensures |actions| == res.comparisons + 1
    ensures Uniform(actions[..res.comparisons], CheckElement, res.comparisons)
    ensures actions[res.comparisons] == if res.found then Found else NotFound
  {
    var checks: seq<Action> := [];
    var i := 0;
    while i < arr.Length
      invariant 0 <= i <= arr.Length
      invariant forall k :: 0 <= k < i ==> arr[k] != target
      invariant Uniform(checks, CheckElement, i)
    {
      checks := checks + [CheckElement];
      if arr[i] == target {
        actions := checks + [Found];
        assert actions[..i + 1] == checks;
        return SearchResult(true, i, Some(arr[i]), i + 1), actions;
      }
      i := i + 1;
    }
    actions := checks + [NotFound];
    assert actions[..arr.Length] == checks;
    res := SearchResult(false, -1, None, arr.Length);
  }

  /** `i` is the first index of `s` holding `target`. */
  ghost predicate FirstAt(s: seq<int>, target: int, i: int)
  {
    0 <= i < |s| && s[i] == target && target !in s[..i]
  }

  /** Execute: searches the caller's slice as it is, or the generated
      `[1..array_size]`, for the int parameter `target` (default 5). */
  method Execute(input: Input, params: Params) returns (r: Result<SearchResult>, actions: seq<Action>)
    requires ValidateParameters(params).Pass?
    ensures r.Err? <==> input.OtherInput?
    ensures r.Err? ==> actions == []
    ensures r.Ok? ==> |actions| >= 2 && actions[0] == Initialize
    ensures r.Ok? ==> actions[|actions| - 1] == if r.value.found then Found else NotFound
    ensures input.IntSlice? ==> r.Ok? && (r.value.found <==> IntParam(params, "target", 5) in input.arr[..])
    ensures input.IntSlice? ==> r.Ok? && (r.value.found ==> FirstAt(input.arr[..], IntParam(params, "target", 5), r.value.index))
    ensures input.NoInput? ==> r.Ok? && (r.value.found <==> 1 <= IntParam(params, "target", 5) <= IntParam(params, "array_size", 10))
    ensures input.NoInput? ==> r.Ok? && (r.value.found ==> r.value.index == IntParam(params, "target", 5) - 1)
  {
    var arr: array<int>;
    match input {
      case OtherInput(_) =>
        return Err("invalid input type, expected []int"), [];
      case IntSlice(a) =>
        arr := a;
      case NoInput =>
        arr := Generators.GenerateRandomArray(IntParam(params, "array_size", 10));
    }
    var target := IntParam(params, "target", 5);
    var res, scanActions := Scan(arr, target);
    actions := [Initialize] + scanActions;
    r := Ok(res);
    assert res.found <==> target in arr[..] by {
      if res.found {
        assert arr[..][res.index] == target;
      }
    }
    if res.found {
      assert FirstAt(arr[..], target, res.index);
    }
    if input.NoInput? {
      AscendingMembers(arr.Length, target);
    }
  }
}
