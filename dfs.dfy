/** The depth-first search executor: a stack traversal of the generated
    graph from `start_node` that stops when it visits `target_node`. */
module Dfs {
  import opened Types
  import opened Graphs

  /** The description GetMetadata reports. */
  const Description := "A graph traversal algorithm that explores as far as possible along each branch before backtracking."

  function Metadata(): Descriptor
  {
    Descriptor(
      "dfs", "Depth-First Search", Searching,
      Description,
      "Time: O(V + E), Space: O(V) where V is vertices and E is edges",
      [ ParamSpec("graph_size", "int", "Number of nodes in the graph", IntV(6), Some(3), Some(20), true),
        ParamSpec("start_node", "int", "Starting node for DFS", IntV(0), Some(0), Some(19), true),
        ParamSpec("target_node", "int", "Target node to find", IntV(5), Some(0), Some(19), true) ])
  }

  /** ValidateParameters as written: only `graph_size` is checked. */
  function ValidateParameters(params: Params): (r: Outcome)
    ensures r.Pass? <==> 3 <= IntParam(params, "graph_size", 6) <= 20
  {
    CheckIntRange(params, "graph_size", 6, 3, 20, "graph_size must be between 3 and 20")
  }

  /** A `start_node` the check lets through although it is not a node:
      Execute would index `visited` out of range with it. */
  lemma StartNodeUnchecked()
    ensures ValidateParameters(map["start_node" := IntV(7)]).Pass?
    ensures !(0 <= IntParam(map["start_node" := IntV(7)], "start_node", 0) < IntParam(map["start_node" := IntV(7)], "graph_size", 6))
  {
  }

  /** The check Execute needs: `graph_size` in range, then `start_node` a
      node of the graph of that size. */
  function ValidateParametersChecked(params: Params): (r: Outcome)
    ensures r.Pass? <==> 3 <= IntParam(params, "graph_size", 6) <= 20 &&
                         0 <= IntParam(params, "start_node", 0) < IntParam(params, "graph_size", 6)
    ensures ValidateParameters(params).Fail? ==> r == ValidateParameters(params)
  {
    if ValidateParameters(params).Fail? then ValidateParameters(params)
    else CheckIntRange(params, "start_node", 0, 0, IntParam(params, "graph_size", 6) - 1,
                       "start_node must be a node of the graph")
  }

  /** The depth-first order of a path: each node after the first is a
      neighbour of an earlier node, and every node visited between that
      one and it had all its neighbours visited already. The search backs
      up only out of finished nodes. */
  ghost predicate DepthFirst(g: seq<seq<int>>, path: seq<int>)
    decreases |path|
  {
    |path| <= 1 ||
    var prior, last := path[..|path| - 1], path[|path| - 1];
    && DepthFirst(g, prior)
    && exists i :: 0 <= i < |prior| && 0 <= prior[i] < |g| && last in g[prior[i]] && Finished(g, prior, i)
  }

  /** Every node on `prior` after position `i` has all its neighbours on
      `prior`. */
  ghost predicate Finished(g: seq<seq<int>>, prior: seq<int>, i: int)
    requires 0 <= i
  {
    forall k, y :: i < k < |prior| && 0 <= prior[k] < |g| && y in g[prior[k]] ==> y in prior
  }

  /** What the stack remembers of the visits that filled it: `owner[e]` is
      the position on the path of the node whose visit pushed entry `e`, or
      -1 for the start node pushed before any visit. */
  ghost predicate Owned(g: seq<seq<int>>, visited: seq<bool>, path: seq<int>, stack: seq<int>, owner: seq<int>)
  {
    |owner| == |stack| && Owners(|path|, owner) && Entries(g, path, stack, owner) && Waiting(g, visited, path, stack, owner)
  }

  /** Each entry is a neighbour of its owner. */
  ghost predicate Entries(g: seq<seq<int>>, path: seq<int>, stack: seq<int>, owner: seq<int>)
    requires |owner| == |stack|
  {
    forall e {:trigger path[owner[e]]} :: 0 <= e < |stack| && 0 <= owner[e] < |path| ==> 0 <= path[owner[e]] < |g| && stack[e] in g[path[owner[e]]]
  }

  /** Every unvisited neighbour of the `k`-th node on the path still waits in
      an entry pushed by that node or a later one. */
  ghost predicate Waiting(g: seq<seq<int>>, visited: seq<bool>, path: seq<int>, stack: seq<int>, owner: seq<int>)
    requires |owner| == |stack|
  {
    forall k, y {:trigger Adjacent(g, path, k, y)} :: Adjacent(g, path, k, y) && 0 <= y < |visited| && !visited[y] ==>
      exists e :: 0 <= e < |stack| && stack[e] == y && k <= owner[e]
  }

  /** `y` is a neighbour of the `k`-th node on the path. */
  ghost predicate Adjacent(g: seq<seq<int>>, path: seq<int>, k: int, y: int)
  {
    0 <= k < |path| && 0 <= path[k] < |g| && y in g[path[k]]
  }

  /** The owners are positions on a path of length `n`, or -1 only before
      the first visit, and they never decrease up the stack. */
  ghost predicate Owners(n: int, owner: seq<int>)
  {
    && (forall e :: 0 <= e < |owner| ==> -1 <= owner[e] < n && (owner[e] < 0 ==> n == 0))
    && (forall e, f :: 0 <= e < f < |owner| ==> owner[e] <= owner[f])
  }

  /** Dropping a visited top of the stack keeps the owners. */
  lemma OwnedSkip(g: seq<seq<int>>, visited: seq<bool>, path: seq<int>, stack: seq<int>, owner: seq<int>)
    requires Owned(g, visited, path, stack, owner)
    requires |stack| > 0 && 0 <= stack[|stack| - 1] < |visited| && visited[stack[|stack| - 1]]
    ensures Owned(g, visited, path, stack[..|stack| - 1], owner[..|stack| - 1])
  {
    var n := |stack|;
    var stack', owner' := stack[..n - 1], owner[..n - 1];
    forall k, y {:trigger Adjacent(g, path, k, y)} | Adjacent(g, path, k, y) && 0 <= y < |visited| && !visited[y]
      ensures exists e :: 0 <= e < |stack'| && stack'[e] == y && k <= owner'[e]
    {
      var e :| 0 <= e < n && stack[e] == y && k <= owner[e];
      assert stack'[e] == y && owner'[e] == owner[e];
    }
  }

  /** A visit, with `m` entries pushed on what remains of a stack of
      `size` entries, keeps the owners ordered when the new entries are
      owned by the visited node's position. */
  lemma OwnersVisit(n: int, owner: seq<int>, size: int, m: nat)
    requires Owners(n, owner) && |owner| == size > 0 && (n == 0 ==> size == 1)
    ensures Owners(n + 1, owner[..size - 1] + seq(m, _ => n))
  {
    var owner' := owner[..size - 1] + seq(m, _ => n);
    forall e | 0 <= e < |owner'|
      ensures -1 <= owner'[e] < n + 1 && (owner'[e] < 0 ==> n + 1 == 0)
    {
      if e < size - 1 {
        assert owner'[e] == owner[e];
      } else {
        assert owner'[e] == n && -1 <= owner[size - 1] < n;
      }
    }
    forall e, f | 0 <= e < f < |owner'|
      ensures owner'[e] <= owner'[f]
    {
      if f < size - 1 {
        assert owner'[e] == owner[e] && owner'[f] == owner[f];
      } else if e < size - 1 {
        assert owner'[e] == owner[e] && owner'[f] == n;
      }
    }
  }

  /** The entries left on the stack after a visit, and the new ones it
      pushes, are neighbours of their owners. */
  lemma EntriesVisit(g: seq<seq<int>>, path: seq<int>, stack: seq<int>, owner: seq<int>, pushed: seq<int>)
    requires |owner| == |stack| > 0 && Owners(|path|, owner) && Entries(g, path, stack, owner) && 0 <= stack[|stack| - 1] < |g|
    requires forall w :: w in pushed ==> w in g[stack[|stack| - 1]]
    ensures var n, top := |stack|, stack[|stack| - 1];
            Entries(g, path + [top], stack[..n - 1] + pushed, owner[..n - 1] + seq(|pushed|, _ => |path|))
  {
    var n, top := |stack|, stack[|stack| - 1];
    var path', stack', owner' := path + [top], stack[..n - 1] + pushed, owner[..n - 1] + seq(|pushed|, _ => |path|);
    forall e {:trigger path'[owner'[e]]} | 0 <= e < |stack'| && 0 <= owner'[e] < |path'|
      ensures 0 <= path'[owner'[e]] < |g| && stack'[e] in g[path'[owner'[e]]]
    {
      if e < n - 1 {
        assert stack'[e] == stack[e] && owner'[e] == owner[e];
        assert path'[owner[e]] == path[owner[e]];
      } else {
        assert stack'[e] == pushed[e - (n - 1)] && pushed[e - (n - 1)] in pushed && owner'[e] == |path|;
      }
    }
  }

  /** After a visit, every unvisited neighbour of a node on the path still
      waits on the stack: those of the visited node among the entries it
      pushed, the others where they waited before. */
  lemma WaitingVisit(g: seq<seq<int>>, visited: seq<bool>, path: seq<int>, stack: seq<int>, owner: seq<int>, pushed: seq<int>)
    requires |owner| == |stack| > 0 && Waiting(g, visited, path, stack, owner)
    requires 0 <= stack[|stack| - 1] < |g| && 0 <= stack[|stack| - 1] < |visited|
    requires forall w :: w in g[stack[|stack| - 1]] && 0 <= w < |visited| && !visited[stack[|stack| - 1] := true][w] ==> w in pushed
    ensures var n, top := |stack|, stack[|stack| - 1];
            Waiting(g, visited[top := true], path + [top], stack[..n - 1] + pushed, owner[..n - 1] + seq(|pushed|, _ => |path|))
  {
    var n, top := |stack|, stack[|stack| - 1];
    var visited', path' := visited[top := true], path + [top];
    var stack', owner' := stack[..n - 1] + pushed, owner[..n - 1] + seq(|pushed|, _ => |path|);
    forall k, y {:trigger Adjacent(g, path', k, y)} | Adjacent(g, path', k, y) && 0 <= y < |visited'| && !visited'[y]
      ensures exists e :: 0 <= e < |stack'| && stack'[e] == y && k <= owner'[e]
    {
      if k == |path| {
        assert path'[k] == top && y in pushed;
        var d :| 0 <= d < |pushed| && pushed[d] == y;
        assert stack'[n - 1 + d] == y && owner'[n - 1 + d] == |path|;
      } else {
        assert path'[k] == path[k] && y != top && Adjacent(g, path, k, y);
        var e :| 0 <= e < n && stack[e] == y && k <= owner[e];
        assert e < n - 1;
        assert stack'[e] == y && owner'[e] == owner[e];
      }
    }
  }

  /** Visiting the top of the stack and pushing its unvisited neighbours
      `pushed`, owned by its position on the path, keeps the owners. */
  lemma OwnedVisit(g: seq<seq<int>>, visited: seq<bool>, path: seq<int>, stack: seq<int>, owner: seq<int>, pushed: seq<int>)
    requires Owned(g, visited, path, stack, owner)
    requires |stack| > 0 && 0 <= stack[|stack| - 1] < |g| && 0 <= stack[|stack| - 1] < |visited| && !visited[stack[|stack| - 1]]
    requires |path| == 0 ==> |stack| == 1
    requires forall w :: w in pushed <==> w in g[stack[|stack| - 1]] && 0 <= w < |visited| && !visited[stack[|stack| - 1] := true][w]
    ensures var n, top := |stack|, stack[|stack| - 1];
            Owned(g, visited[top := true], path + [top], stack[..n - 1] + pushed, owner[..n - 1] + seq(|pushed|, _ => |path|))
  {
    OwnersVisit(|path|, owner, |stack|, |pushed|);
    EntriesVisit(g, path, stack, owner, pushed);
    WaitingVisit(g, visited, path, stack, owner, pushed);
  }

  /** While the `k`-th node on the path has an unvisited neighbour, the top
      of the stack was pushed by that node or a later one. */
  lemma OwnedTop(g: seq<seq<int>>, visited: seq<bool>, path: seq<int>, stack: seq<int>, owner: seq<int>, k: int, y: int)
    requires Owned(g, visited, path, stack, owner) && |stack| > 0
    requires Adjacent(g, path, k, y) && 0 <= y < |visited| && !visited[y]
    ensures k <= owner[|stack| - 1]
  {
    var n := |stack|;
    var e :| 0 <= e < n && stack[e] == y && k <= owner[e];
    if e < n - 1 {
      assert owner[e] <= owner[n - 1];
    }
  }

  /** Visiting the top of the stack keeps the path in depth-first order:
      the top is a neighbour of its owner, and every node visited after the
      owner is finished, or its unvisited neighbour would sit above the top. */
  lemma DepthFirstVisit(g: seq<seq<int>>, visited: seq<bool>, path: seq<int>, stack: seq<int>, owner: seq<int>)
    requires Generated(g) && |visited| == |g| && Owned(g, visited, path, stack, owner)
    requires forall v :: 0 <= v < |g| && visited[v] ==> v in path
    requires DepthFirst(g, path)
    requires |stack| > 0 && 0 <= stack[|stack| - 1] < |g| && !visited[stack[|stack| - 1]]
    ensures DepthFirst(g, path + [stack[|stack| - 1]])
  {
    var n, top := |stack|, stack[|stack| - 1];
    if |path| > 0 {
      var i := owner[n - 1];
      assert 0 <= i < |path| && 0 <= path[i] < |g| && top in g[path[i]];
      forall k, y | i < k < |path| && 0 <= path[k] < |g| && y in g[path[k]]
        ensures y in path
      {
        GeneratedInRange(g, path[k], y);
        if !visited[y] {
          assert Adjacent(g, path, k, y);
          OwnedTop(g, visited, path, stack, owner, k, y);
        }
      }
      assert (path + [top])[..|path|] == path;
    }
  }

  /** The state the loop of Execute keeps: the traversal state shared with
      the breadth-first search, the owners of the stack entries, and a path
      in depth-first order. */
  ghost predicate Exploring(g: seq<seq<int>>, start: int, target: int, visited: seq<bool>, path: seq<int>, stack: seq<int>, owner: seq<int>)
  {
    Traversal(g, start, target, visited, path, stack) && Owned(g, visited, path, stack, owner) && DepthFirst(g, path)
  }

  /** One iteration of the loop of Execute: pop the top of the stack, skip
      it if visited, else visit it, stop if it is the target, and push its
      unvisited neighbours. */
  method Pop(g: seq<seq<int>>, start: int, target: int, visited: array<bool>, ghost vis: seq<bool>,
             path: seq<int>, stack: seq<int>, ghost owner: seq<int>)
    returns (ghost vis': seq<bool>, path': seq<int>, stack': seq<int>, found: bool, steps: seq<Action>, ghost owner': seq<int>)
    requires visited[..] == vis && Exploring(g, start, target, vis, path, stack, owner) && |stack| > 0
    requires 0 <= stack[|stack| - 1] < |g|
    modifies visited
    ensures visited[..] == vis'
    ensures Handled(g, target, vis, path, stack[|stack| - 1], stack[..|stack| - 1], vis', path', stack', found)
    ensures found ==> Traced(g, start, target, TraversalResult(true, target, path', vis')) && 0 <= target < |g|
    ensures found ==> steps == [VisitNode, Found] && |path'| == |path| + 1
    ensures !found ==> Exploring(g, start, target, vis', path', stack', owner')
    ensures DepthFirst(g, path')
    ensures !found ==> (Unseen(vis') < Unseen(vis) && steps == [VisitNode, AddNeighbors] && |path'| == |path| + 1) ||
                       (vis' == vis && steps == [] && path' == path && |stack'| < |stack|)
  {
    var current := stack[|stack| - 1];
    var rest := stack[..|stack| - 1];
    assert current in stack && stack == rest + [current];
    if visited[current] {
      SkipVisited(g, start, target, vis, path, stack, rest, current);
      OwnedSkip(g, vis, path, stack, owner);
      return vis, path, rest, false, [], owner[..|stack| - 1];
    }
    DepthFirstVisit(g, vis, path, stack, owner);
    if current == target {
      FoundTraced(g, start, target, vis, path, stack);
      visited[current] := true;
      return visited[..], path + [current], rest, true, [VisitNode, Found], owner;
    }
    VisitStep(g, start, target, vis, path, stack, rest, current);
    MarkSeen(vis, current);
    visited[current] := true;
    vis' := vis[current := true];
    path' := path + [current];
    stack' := PushUnvisited(rest, g[current], visited, vis');
    UnvisitedMembers(g[current], vis');
    OwnedVisit(g, vis, path, stack, owner, Unvisited(g[current], vis'));
    found, steps := false, [VisitNode, AddNeighbors];
    owner' := owner[..|stack| - 1] + seq(|stack'| - |rest|, _ => |path|);
  }

  /** The loop of Execute: pop and visit until the stack is empty or the
      target is found. An exhausted search leaves the traversal state with
      nothing pending. */
  method Search(g: seq<seq<int>>, start: int, target: int)
    returns (found: bool, path: seq<int>, visited: seq<bool>, actions: seq<Action>)
    requires Generated(g) && 0 <= start < |g|
    ensures found ==> Traced(g, start, target, TraversalResult(true, target, path, visited)) && 0 <= target < |g|
    ensures found ==> |actions| > 0 && actions[|actions| - 1] == Found
    ensures !found ==> Traversal(g, start, target, visited, path, [])
    ensures DepthFirst(g, path) && Visits(actions) == |path|
  {
    var flags := new bool[|g|](_ => false);
    ghost var vis := flags[..];
    var stack := [start];
    path := [];
    ghost var owner := [-1];
    actions := [];
    while |stack| > 0
      invariant flags[..] == vis && Exploring(g, start, target, vis, path, stack, owner)
      invariant Visits(actions) == |path|
      decreases Unseen(vis), |stack|
    {
      var steps;
      assert stack[|stack| - 1] in stack;
      vis, path, stack, found, steps, owner := Pop(g, start, target, flags, vis, path, stack, owner);
      VisitsAppend(actions, steps);
      actions := actions + steps;
      if found {
        return true, path, flags[..], actions;
      }
    }
    found, visited := false, flags[..];
  }

  /** Execute's traversal: the search, then the not-found step when it
      exhausts the stack. */
  method Traverse(g: seq<seq<int>>, start: int, target: int) returns (r: TraversalResult, actions: seq<Action>)
    requires Generated(g) && 0 <= start < |g|
    ensures Traced(g, start, target, r)
    ensures r.found <==> 0 <= target < |g|
    ensures DepthFirst(g, r.path)
    ensures Visits(actions) == |r.path|
    ensures |actions| > 0 && actions[|actions| - 1] == if r.found then Found else NotFound
  {
    var found, path, visited;
    found, path, visited, actions := Search(g, start, target);
    if !found {
      ExhaustedTraced(g, start, target, visited, path);
      VisitsAppend(actions, [NotFound]);
      actions := actions + [NotFound];
    }
    r := TraversalResult(found, target, path, visited);
  }

  /** Execute: `graph_size` (default 6), `start_node` (default 0) and
      `target_node` (default 5); the `input` argument is not read. */
  method Execute(params: Params) returns (r: TraversalResult, actions: seq<Action>)
    requires ValidateParametersChecked(params).Pass?
    ensures Traced(GeneratedGraph(IntParam(params, "graph_size", 6)), IntParam(params, "start_node", 0), IntParam(params, "target_node", 5), r)
    ensures r.found <==> 0 <= IntParam(params, "target_node", 5) < IntParam(params, "graph_size", 6)
    ensures DepthFirst(GeneratedGraph(IntParam(params, "graph_size", 6)), r.path)
    ensures |actions| >= 2 && actions[0] == Initialize
    ensures actions[|actions| - 1] == if r.found then Found else NotFound
  {
    var graphSize := IntParam(params, "graph_size", 6);
    var startNode := IntParam(params, "start_node", 0);
    var targetNode := IntParam(params, "target_node", 5);
    var g := GenerateGraph(graphSize);
    GeneratedUnique(g, graphSize);
    var traversal;
    r, traversal := Traverse(g, startNode, targetNode);
    actions := [Initialize] + traversal;
  }
}
