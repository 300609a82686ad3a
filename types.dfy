/** Shapes every executor shares: the untyped parameter values the HTTP layer
    decodes, the optional `input` argument of Execute, algorithm descriptors,
    and the outcome of parameter validation. */
module Types {

  /** A parameter value. Go keeps these as `interface{}` and type-asserts
      them with `.(int)`; here the assertion is a pattern match on the tag.
      A number decoded from JSON is a float64 in Go (`FloatV` here), so an
      `IntV` arrives only from a Go caller that builds the map itself. */
  datatype Value =
    | IntV(i: int)
    | FloatV(f: real)
    | StrV(s: string)
    | BoolV(b: bool)
    | ListV(items: seq<Value>)
    | NullV

  /** The `parameters map[string]interface{}` argument of every executor. */
  type Params = map<string, Value>

  /** The `input interface{}` argument of Execute: nil, a `[]int` slice shared
      with the caller, or a value of any other dynamic type. */
  datatype Input = NoInput | IntSlice(arr: array<int>) | OtherInput(v: Value)
  {
    /** The caller-owned memory an executor may write through. */
    function Footprint(): set<object>
    {
      if IntSlice? then {arr} else {}
    }
  }

  datatype Option<T> = None | Some(value: T)

  /** The `(interface{}, error)` pair Execute returns. */
  datatype Result<T> = Ok(value: T) | Err(msg: string)

  /** The `error` ValidateParameters returns: nil, or a message. */
  datatype Outcome = Pass | Fail(reason: string)

  /** The `Action` tag of an emitted ExecutionStep, one constructor per tag
      the executors use. The rest of a step (its number, data map, message
      and timestamp) is not modelled. */
  datatype Action =
    | Initialize | Complete | Found | NotFound
    | OuterLoop | Compare | Swap | EarlyTermination
    | Divide | Merge | CompareMerge
    | SelectPivot | ComparePivot | SwapPartition | PivotPositioned
    | BuildHeap | HeapifyCheck | HeapifySwap | ExtractMax
    | FindMax | CountOccurrences | CountElement | ModifyCount | ModifyCountElement | BuildOutput | PlaceElement
    | CheckElement | CheckMiddle | SearchLeft | SearchRight
    | VisitNode | AddNeighbors
    | CalculateHash | CheckBucket | CheckEntry

  /** The algorithm categories of internal/types/algorithm.go. */
  datatype Category =
    | Sorting | Searching | GraphsTrees | Pathfinding | DynamicProgramming
    | Greedy | Strings | NumberTheory | Randomized | Optimization

  /** One entry of a descriptor's parameter list. */
  datatype ParamSpec = ParamSpec(
    name: string,
    kind: string,
    description: string,
    default: Value,
    min: Option<int>,
    max: Option<int>,
    required: bool)

  /** The metadata an executor reports through GetMetadata. */
  datatype Descriptor = Descriptor(
    id: string,
    name: string,
    category: Category,
    description: string,
    bigO: string,
    parameters: seq<ParamSpec>)

  /** `if v, ok := params[key].(int); ok { x = v }` with `x` starting at `default`. */
  function IntParam(params: Params, key: string, default: int): int
  {
    if key in params && params[key].IntV? then params[key].i else default
  }

  /** The same lookup for a `bool` parameter. */
  function BoolParam(params: Params, key: string, default: bool): bool
  {
    if key in params && params[key].BoolV? then params[key].b else default
  }

  /** The same lookup for a `string` parameter. */
  function StrParam(params: Params, key: string, default: string): string
  {
    if key in params && params[key].StrV? then params[key].s else default
  }

  /** The range check every ValidateParameters performs: a parameter that is
      present with dynamic type int must lie in [lo, hi]; a missing parameter,
      or one of another type, is accepted (Execute then uses its default). */
  function CheckIntRange(params: Params, key: string, default: int, lo: int, hi: int, reason: string): (r: Outcome)
    requires lo <= default <= hi
    ensures r.Pass? <==> lo <= IntParam(params, key, default) <= hi
    ensures r.Fail? ==> r.reason == reason
  {
    if key in params && params[key].IntV? && (params[key].i < lo || params[key].i > hi) then
      Fail(reason)
    else
      Pass
  }

  /** Sequencing of two checks: the first failure is reported. */
  function AndThen(first: Outcome, second: Outcome): (r: Outcome)
    ensures r.Pass? <==> first.Pass? && second.Pass?
    ensures first.Fail? ==> r == first
  {
    if first.Fail? then first else second
  }

  /** `n` steps, all of them `a`. */
  ghost predicate Uniform(steps: seq<Action>, a: Action, n: nat)
  {
    |steps| == n && forall k :: 0 <= k < n ==> steps[k] == a
  }

  /** Steps that are all `a` hold `a` once per step and nothing else. */
  lemma {:induction false} UniformCount(steps: seq<Action>, a: Action, n: nat, b: Action)
    requires Uniform(steps, a, n)
    ensures multiset(steps)[b] == if b == a then n else 0
  {
    if n > 0 {
      var init := steps[..n - 1];
      assert steps == init + [a];
      UniformCount(init, a, n - 1, b);
    }
  }
}
