/** The sample graph the traversal executors search, and what their
    stack/queue loops share: the visited/path bookkeeping, the push of
    unvisited neighbours, and the closure argument that an exhausted
    traversal has seen every node reachable from its start. */
module Graphs {
  import opened Types

  /** The adjacency list generateGraph gives node `i` of a graph with `size`
      nodes: `i - 1`, `i + 1` and `i + 2`, each when it is a node. */
  function Neighbours(size: int, i: int): (r: seq<int>)
    requires 0 <= i < size
    ensures forall k :: 0 <= k < |r| ==> 0 <= r[k] < size
    ensures forall k, l :: 0 <= k < l < |r| ==> r[k] < r[l]
    ensures i > 0 ==> i - 1 in r
    ensures i + 1 < size ==> i + 1 in r
    ensures forall w :: w in r ==> w == i - 1 || w == i + 1 || w == i + 2
  {
    (if i > 0 then [i - 1] else []) + (if i < size - 1 then [i + 1] else []) + (if i + 2 < size then [i + 2] else [])
  }

  /** The graph generateGraph builds: node `i`'s list is Neighbours(size, i). */
  ghost predicate Generated(g: seq<seq<int>>)
  {
    forall i :: 0 <= i < |g| ==> g[i] == Neighbours(|g|, i)
  }

  /** generateGraph: one adjacency list per node, appended to in order. */
  method GenerateGraph(size: nat) returns (g: seq<seq<int>>)
    ensures |g| == size && Generated(g)
  {
    g := [];
    for i := 0 to size
      invariant |g| == i
      invariant forall u :: 0 <= u < i ==> g[u] == Neighbours(size, u)
    {
      var neighbours := [];
      if i > 0 {
        neighbours := neighbours + [i - 1];
      }
      if i < size - 1 {
        neighbours := neighbours + [i + 1];
      }
      if i + 2 < size {
        neighbours := neighbours + [i + 2];
      }
      g := g + [neighbours];
    }
  }

  /** The generated graph with `size` nodes. */
  ghost function GeneratedGraph(size: nat): (g: seq<seq<int>>)
    ensures |g| == size && Generated(g)
  {
    seq(size, i requires 0 <= i < size => Neighbours(size, i))
  }

  /** There is one generated graph of each size. */
  lemma GeneratedUnique(g: seq<seq<int>>, size: nat)
    requires |g| == size && Generated(g)
    ensures g == GeneratedGraph(size)
  {
  }

  /** Every neighbour is a node. */
  lemma GeneratedInRange(g: seq<seq<int>>, u: int, w: int)
    requires Generated(g) && 0 <= u < |g| && w in g[u]
    ensures 0 <= w < |g|
  {
  }

  /** No node appears twice. */
  ghost predicate Distinct(s: seq<int>)
  {
    forall k, l :: 0 <= k < l < |s| ==> s[k] != s[l]
  }

  /** The neighbours of every node on the path are on it. */
  ghost predicate Closed(g: seq<seq<int>>, path: seq<int>)
  {
    forall u, w :: u in path && 0 <= u < |g| && w in g[u] ==> w in path
  }

  /** In the generated graph each node reaches the next one, so a closed set
      holding `start` holds every node from `start` up. */
  lemma {:induction false} ClosedUp(g: seq<seq<int>>, path: seq<int>, start: int, v: int)
    requires Generated(g) && Closed(g, path) && 0 <= start <= v < |g| && start in path
    ensures v in path
    decreases v - start
  {
    if v > start {
      ClosedUp(g, path, start, v - 1);
      assert v in g[v - 1];
    }
  }

  /** ... and each node reaches the previous one, so it holds every node
      from `start` down. */
  lemma {:induction false} ClosedDown(g: seq<seq<int>>, path: seq<int>, start: int, v: int)
    requires Generated(g) && Closed(g, path) && 0 <= v <= start < |g| && start in path
    ensures v in path
    decreases start - v
  {
    if v < start {
      ClosedDown(g, path, start, v + 1);
      assert v in g[v + 1];
    }
  }

  /** The generated graph is connected: a closed set holding one node holds
      them all. */
  lemma ClosedHoldsAll(g: seq<seq<int>>, path: seq<int>, start: int)
    requires Generated(g) && Closed(g, path) && 0 <= start < |g| && start in path
    ensures forall v :: 0 <= v < |g| ==> v in path
  {
    forall v | 0 <= v < |g|
      ensures v in path
    {
      if v < start {
        ClosedDown(g, path, start, v);
      } else {
        ClosedUp(g, path, start, v);
      }
    }
  }

  /** The neighbours of `ns` not yet visited, in order. */
  function Unvisited(ns: seq<int>, visited: seq<bool>): seq<int>
    requires forall k :: 0 <= k < |ns| ==> 0 <= ns[k] < |visited|
  {
    if ns == [] then []
    else (if visited[ns[0]] then [] else [ns[0]]) + Unvisited(ns[1..], visited)
  }

  /** Unvisited keeps exactly the neighbours not visited. */
  lemma {:induction false} UnvisitedMembers(ns: seq<int>, visited: seq<bool>)
    requires forall k :: 0 <= k < |ns| ==> 0 <= ns[k] < |visited|
    ensures forall w :: w in Unvisited(ns, visited) <==> w in ns && !visited[w]
  {
    if ns != [] {
      UnvisitedMembers(ns[1..], visited);
      assert ns == [ns[0]] + ns[1..];
    }
  }

  /** The inner loop of both traversals: append every neighbour not yet
      visited to the pending stack or queue. */
  method PushUnvisited(pending: seq<int>, ns: seq<int>, visited: array<bool>, ghost vis: seq<bool>) returns (r: seq<int>)
    requires visited[..] == vis
    requires forall k :: 0 <= k < |ns| ==> 0 <= ns[k] < visited.Length
    ensures r == pending + Unvisited(ns, vis)
  {
    r := pending;
    var j := 0;
    while j < |ns|
      invariant 0 <= j <= |ns|
      invariant r + Unvisited(ns[j..], vis) == pending + Unvisited(ns, vis)
    {
      UnvisitedFrom(ns, vis, j);
      if !visited[ns[j]] {
        assert (r + [ns[j]]) + Unvisited(ns[j + 1..], vis) == r + ([ns[j]] + Unvisited(ns[j + 1..], vis));
        r := r + [ns[j]];
      } else {
        assert [] + Unvisited(ns[j + 1..], vis) == Unvisited(ns[j + 1..], vis);
      }
      j := j + 1;
    }
  }

  /** Unvisited, one neighbour at a time. */
  lemma UnvisitedFrom(ns: seq<int>, visited: seq<bool>, j: int)
    requires forall k :: 0 <= k < |ns| ==> 0 <= ns[k] < |visited|
    requires 0 <= j < |ns|
    ensures Unvisited(ns[j..], visited) == (if visited[ns[j]] then [] else [ns[j]]) + Unvisited(ns[j + 1..], visited)
  {
    assert ns[j..][1..] == ns[j + 1..];
  }

  /** The number of nodes not yet visited. */
  function Unseen(visited: seq<bool>): nat
  {
    if visited == [] then 0 else (if visited[0] then 0 else 1) + Unseen(visited[1..])
  }

  /** Visiting a node leaves one fewer unvisited: the measure both
      traversal loops decrease when they visit. */
  lemma {:induction false} MarkSeen(visited: seq<bool>, i: int)
    requires 0 <= i < |visited| && !visited[i]
    ensures Unseen(visited[i := true]) + 1 == Unseen(visited)
  {
    if i > 0 {
      assert visited[i := true][1..] == visited[1..][i - 1 := true];
      MarkSeen(visited[1..], i - 1);
    }
  }

  /** The state both traversal loops keep, with `pending` the stack or queue:
      `visited[v]` holds exactly for the nodes on `path`, which has no
      repeats, starts with `start` and does not hold `target`; every pending
      node is a node; and every neighbour of a node on the path is visited
      or still pending. Before the first visit, only `start` is pending. */
  ghost predicate Traversal(g: seq<seq<int>>, start: int, target: int, visited: seq<bool>, path: seq<int>, pending: seq<int>)
  {
    && Frontier(g, start, path, pending)
    && PathVisited(g, target, visited, path)
    && Covered(g, visited, path, pending)
  }

  /** The pending nodes are nodes; before the first visit only `start` is
      pending, and after it the path starts with `start`. */
  ghost predicate Frontier(g: seq<seq<int>>, start: int, path: seq<int>, pending: seq<int>)
  {
    && 0 <= start < |g| && Generated(g)
    && (forall w :: w in pending ==> 0 <= w < |g|)
    && (|path| == 0 ==> pending == [start])
    && (|path| > 0 ==> path[0] == start)
  }

  /** `visited` flags exactly the nodes of `path`, which repeats none and
      does not hold `target`. */
  ghost predicate PathVisited(g: seq<seq<int>>, target: int, visited: seq<bool>, path: seq<int>)
  {
    && |visited| == |g|
    && (forall v :: 0 <= v < |g| ==> (visited[v] <==> v in path))
    && (forall v :: v in path ==> 0 <= v < |g|)
    && Distinct(path) && target !in path
  }

  /** Every neighbour of a node on the path is visited or pending. */
  ghost predicate Covered(g: seq<seq<int>>, visited: seq<bool>, path: seq<int>, pending: seq<int>)
    requires |visited| == |g| && Generated(g) && forall v :: v in path ==> 0 <= v < |g|
  {
    forall u, w {:trigger w in g[u]} :: u in path && w in g[u] ==> visited[w] || w in pending
  }

  /** One iteration of either traversal loop, with `current` the node taken
      off the pending stack or queue and `rest` what remains of it: a
      visited node is dropped and nothing else changes; an unvisited one is
      marked visited and appended to the path, the search stops if it is the
      target, and otherwise its unvisited neighbours are appended to `rest`
      in adjacency order. */
  ghost predicate Handled(g: seq<seq<int>>, target: int, visited: seq<bool>, path: seq<int>, current: int, rest: seq<int>,
                          visited': seq<bool>, path': seq<int>, pending': seq<int>, found: bool)
    requires Generated(g) && |visited| == |g| && 0 <= current < |g|
  {
    if visited[current] then
      !found && visited' == visited && path' == path && pending' == rest
    else
      && visited' == visited[current := true] && path' == path + [current] && (found <==> current == target)
      && (!found ==> pending' == rest + Unvisited(g[current], visited'))
  }

  /** Popping `current`, already visited, keeps the state. */
  lemma SkipVisited(g: seq<seq<int>>, start: int, target: int, visited: seq<bool>, path: seq<int>, pending: seq<int>, rest: seq<int>, current: int)
    requires Traversal(g, start, target, visited, path, pending)
    requires forall w :: w in pending <==> w in rest || w == current
    requires current in pending && visited[current]
    ensures Traversal(g, start, target, visited, path, rest)
  {
  }

  /** Visiting `current`, not yet visited and not the target, and pushing
      its unvisited neighbours keeps the state. */
  lemma VisitStep(g: seq<seq<int>>, start: int, target: int, visited: seq<bool>, path: seq<int>, pending: seq<int>, rest: seq<int>, current: int)
    requires Traversal(g, start, target, visited, path, pending)
    requires forall w :: w in pending <==> w in rest || w == current
    requires current in pending && !visited[current] && current != target
    ensures Traversal(g, start, target, visited[current := true], path + [current],
                      rest + Unvisited(g[current], visited[current := true]))
  {
    var visited', path' := visited[current := true], path + [current];
    var pending' := rest + Unvisited(g[current], visited');
    UnvisitedMembers(g[current], visited');
    assert |path| == 0 ==> current == start;
    forall v | 0 <= v < |g|
      ensures visited'[v] <==> v in path'
    {
    }
    forall u, w | u in path' && w in g[u]
      ensures visited'[w] || w in pending'
    {
      if u != current {
        assert visited[w] || w in pending;
      }
    }
  }

  /** The result map of a traversal: `found`, `target`, the visit order
      `path` and the final `visited` flags. */
  datatype TraversalResult = TraversalResult(found: bool, target: int, path: seq<int>, visited: seq<bool>)

  /** What both traversals promise of their result over a generated graph:
      the path starts at `start`, repeats no node and is exactly the set of
      visited nodes; a found target ends the path and occurs nowhere before;
      otherwise every node was visited. */
  ghost predicate Traced(g: seq<seq<int>>, start: int, target: int, r: TraversalResult)
  {
    && r.target == target && |r.visited| == |g|
    && |r.path| > 0 && r.path[0] == start && Distinct(r.path)
    && (forall v :: 0 <= v < |g| ==> (r.visited[v] <==> v in r.path))
    && (r.found ==> r.path[|r.path| - 1] == target && target !in r.path[..|r.path| - 1])
    && (!r.found ==> forall v :: 0 <= v < |g| ==> v in r.path)
  }

  /** Visiting the target completes a traced result: the path ends at it. */
  lemma FoundTraced(g: seq<seq<int>>, start: int, target: int, visited: seq<bool>, path: seq<int>, pending: seq<int>)
    requires Traversal(g, start, target, visited, path, pending)
    requires target in pending && !visited[target]
    ensures Traced(g, start, target, TraversalResult(true, target, path + [target], visited[target := true]))
    ensures 0 <= target < |g|
  {
    assert |path| == 0 ==> target == start;
    assert (path + [target])[..|path|] == path;
  }

  /** A traversal with nothing pending has visited every node: the target
      is then not a node, and the result is traced. */
  lemma ExhaustedTraced(g: seq<seq<int>>, start: int, target: int, visited: seq<bool>, path: seq<int>)
    requires Traversal(g, start, target, visited, path, [])
    ensures Traced(g, start, target, TraversalResult(false, target, path, visited))
    ensures !(0 <= target < |g|)
  {
    assert Closed(g, path);
    ClosedHoldsAll(g, path, start);
  }

  /** The number of VisitNode steps in `steps`. */
  function Visits(steps: seq<Action>): nat
  {
    if steps == [] then 0 else Visits(steps[..|steps| - 1]) + (if steps[|steps| - 1] == VisitNode then 1 else 0)
  }

  /** Visits is the multiplicity of VisitNode among the steps. */
  lemma {:induction false} VisitsCount(steps: seq<Action>)
    ensures Visits(steps) == multiset(steps)[VisitNode]
  {
    if steps != [] {
      var init := steps[..|steps| - 1];
      assert steps == init + [steps[|steps| - 1]];
      assert multiset(steps) == multiset(init) + multiset{steps[|steps| - 1]};
      VisitsCount(init);
    }
  }

  /** The steps of two runs count apart. */
  lemma {:induction false} VisitsAppend(a: seq<Action>, b: seq<Action>)
    ensures Visits(a + b) == Visits(a) + Visits(b)
    decreases |b|
  {
    if b == [] {
      assert a + b == a;
    } else {
      assert (a + b)[..|a + b| - 1] == a + b[..|b| - 1] && (a + b)[|a + b| - 1] == b[|b| - 1];
      VisitsAppend(a, b[..|b| - 1]);
    }
  }

  /** A walk in `g`: a non-empty run of nodes, each a neighbour of the one
      before it. */
  ghost predicate Walk(g: seq<seq<int>>, w: seq<int>)
  {
    && |w| > 0
    && (forall k :: 0 <= k < |w| ==> 0 <= w[k] < |g|)
    && (forall k :: 0 <= k < |w| - 1 ==> w[k + 1] in g[w[k]])
  }

  /** The number of edges from `start` to `v` in a generated graph: upwards
      two nodes a step (one single step for an odd gap), downwards one node
      a step. */
  function Dist(start: int, v: int): nat
  {
    if v >= start then (v - start + 1) / 2 else start - v
  }

  /** An edge adds at most one to the distance from `start`. */
  lemma DistEdge(g: seq<seq<int>>, start: int, u: int, w: int)
    requires Generated(g) && 0 <= u < |g| && w in g[u]
    ensures Dist(start, w) <= Dist(start, u) + 1
  {
  }

  /** The node before `v` on a shortest walk from `start`. */
  function Pred(start: int, v: int): int
  {
    if v > start + 1 then v - 2 else if v == start + 1 then start else v + 1
  }

  /** Every node but `start` is a neighbour of Pred, which is one step
      nearer `start`. */
  lemma PredIsNearer(g: seq<seq<int>>, start: int, v: int)
    requires Generated(g) && 0 <= start < |g| && 0 <= v < |g| && v != start
    ensures 0 <= Pred(start, v) < |g| && v in g[Pred(start, v)] && Dist(start, Pred(start, v)) + 1 == Dist(start, v)
  {
  }

  /** No walk is shorter than the distance between its ends. */
  lemma {:induction false} WalkAtLeastDist(g: seq<seq<int>>, w: seq<int>)
    requires Generated(g) && Walk(g, w)
    ensures Dist(w[0], w[|w| - 1]) <= |w| - 1
  {
    if |w| > 1 {
      WalkAtLeastDist(g, w[..|w| - 1]);
      DistEdge(g, w[0], w[|w| - 2], w[|w| - 1]);
    }
  }

  /** Some walk from `start` reaches `v` in exactly Dist(start, v) edges, so
      Dist is the shortest-walk distance. */
  lemma {:induction false} DistWalk(g: seq<seq<int>>, start: int, v: int) returns (w: seq<int>)
    requires Generated(g) && 0 <= start < |g| && 0 <= v < |g|
    ensures Walk(g, w) && w[0] == start && w[|w| - 1] == v && |w| - 1 == Dist(start, v)
    decreases Dist(start, v)
  {
    if v == start {
      w := [start];
    } else {
      PredIsNearer(g, start, v);
      var w' := DistWalk(g, start, Pred(start, v));
      w := w' + [v];
      forall k | 0 <= k < |w|
        ensures 0 <= w[k] < |g|
      {
        if k < |w'| {
          assert w[k] == w'[k];
        }
      }
      forall k | 0 <= k < |w| - 1
        ensures w[k + 1] in g[w[k]]
      {
        if k < |w'| - 1 {
          assert w[k] == w'[k] && w[k + 1] == w'[k + 1];
        }
      }
    }
  }
}
