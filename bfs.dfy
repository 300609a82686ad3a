/** The breadth-first search executor: a queue traversal of the generated
    graph from `start_node` that stops when it visits `target_node`. */
module Bfs {
  import opened Types
  import opened Graphs

  /** The description GetMetadata reports. */
  const Description := "A graph traversal algorithm that explores all nodes at the present depth level before moving on to nodes at the next depth level."

  function Metadata(): Descriptor
  {
    Descriptor(
      "bfs", "Breadth-First Search", Searching,
      Description,
      "Time: O(V + E), Space: O(V) where V is vertices and E is edges",
      [ ParamSpec("graph_size", "int", "Number of nodes in the graph", IntV(6), Some(3), Some(20), true),
        ParamSpec("start_node", "int", "Starting node for BFS", IntV(0), Some(0), Some(19), true),
        ParamSpec("target_node", "int", "Target node to find", IntV(5), Some(0), Some(19), true) ])
  }

  /** ValidateParameters as written: only `graph_size` is checked. */
  function ValidateParameters(params: Params): (r: Outcome)
    ensures r.Pass? <==> 3 <= IntParam(params, "graph_size", 6) <= 20
  {
    CheckIntRange(params, "graph_size", 6, 3, 20, "graph_size must be between 3 and 20")
  }

  /** A `start_node` the check lets through although it is not a node:
      Execute would index `visited` out of range with it. */
  lemma StartNodeUnchecked()
    ensures ValidateParameters(map["start_node" := IntV(7)]).Pass?
    ensures !(0 <= IntParam(map["start_node" := IntV(7)], "start_node", 0) < IntParam(map["start_node" := IntV(7)], "graph_size", 6))
  {
  }

  /** The check Execute needs: `graph_size` in range, then `start_node` a
      node of the graph of that size. */
  function ValidateParametersChecked(params: Params): (r: Outcome)
    ensures r.Pass? <==> 3 <= IntParam(params, "graph_size", 6) <= 20 &&
                         0 <= IntParam(params, "start_node", 0) < IntParam(params, "graph_size", 6)
    ensures ValidateParameters(params).Fail? ==> r == ValidateParameters(params)
  {
    if ValidateParameters(params).Fail? then ValidateParameters(params)
    else CheckIntRange(params, "start_node", 0, 0, IntParam(params, "graph_size", 6) - 1,
                       "start_node must be a node of the graph")
  }

  /** The path visits nodes in order of their distance from `start`. */
  ghost predicate ByDistance(start: int, path: seq<int>)
  {
    forall i, j :: 0 <= i < j < |path| ==> Dist(start, path[i]) <= Dist(start, path[j])
  }

  /** Every node nearer `start` than `level` is visited. */
  ghost predicate Settled(start: int, visited: seq<bool>, level: nat)
  {
    forall v {:trigger visited[v]} :: 0 <= v < |visited| && Dist(start, v) < level ==> visited[v]
  }

  /** The path is in order of distance and reaches no further than `level`. */
  ghost predicate PathLevels(start: int, path: seq<int>, level: nat)
  {
    && ByDistance(start, path)
    && (forall k :: 0 <= k < |path| ==> Dist(start, path[k]) <= level)
  }

  /** The first `front` queue entries are at distance at most `level`, the
      others at most `level + 1`. */
  ghost predicate QueueLevels(start: int, queue: seq<int>, level: nat, front: nat)
  {
    && (forall k :: 0 <= k < front && k < |queue| ==> Dist(start, queue[k]) <= level)
    && (forall k :: 0 <= k < |queue| ==> Dist(start, queue[k]) <= level + 1)
  }

  /** A node at distance `level + 1` whose predecessor on a shortest walk is
      visited is visited or queued at or after `front`. */
  ghost predicate Pushed(start: int, visited: seq<bool>, queue: seq<int>, level: nat, front: nat)
    requires front <= |queue|
  {
    forall w {:trigger Pred(start, w)} :: (0 <= w < |visited| && Dist(start, w) == level + 1 && 0 <= Pred(start, w) < |visited| && visited[Pred(start, w)]) ==>
      visited[w] || w in queue[front..]
  }

  /** An unvisited node at distance `level` is queued before `front`. */
  ghost predicate Queued(start: int, visited: seq<bool>, queue: seq<int>, level: nat, front: nat)
    requires front <= |queue|
  {
    forall v {:trigger visited[v]} :: 0 <= v < |visited| && Dist(start, v) == level && !visited[v] ==> v in queue[..front]
  }

  /** The breadth-first order of the loop. `level` is the distance of the
      nodes being visited, and the first `front` queue entries were queued
      while visiting the level before. */
  ghost predicate Levels(start: int, visited: seq<bool>, path: seq<int>, queue: seq<int>, level: nat, front: nat)
  {
    && front <= |queue|
    && Settled(start, visited, level)
    && PathLevels(start, path, level)
    && QueueLevels(start, queue, level, front)
    && Pushed(start, visited, queue, level, front)
    && Queued(start, visited, queue, level, front)
  }

  /** Before the loop: level 0, only `start` queued, nothing visited. */
  lemma LevelStart(start: int, visited: seq<bool>)
    requires forall v :: 0 <= v < |visited| ==> !visited[v]
    ensures Levels(start, visited, [], [start], 0, 1)
  {
    assert [start][..1] == [start] && [start][1..] == [];
  }

  /** The entries of one level are used up: every node at distance `level`
      is visited, and the queue holds the next level only. */
  lemma LevelShift(g: seq<seq<int>>, start: int, target: int, visited: seq<bool>, path: seq<int>, queue: seq<int>, level: nat)
    requires Traversal(g, start, target, visited, path, queue) && Levels(start, visited, path, queue, level, 0)
    ensures Levels(start, visited, path, queue, level + 1, |queue|)
  {
    assert queue[0..] == queue[..|queue|] == queue;
    forall v | 0 <= v < |g| && Dist(start, v) == level + 1 && !visited[v]
      ensures v in queue
    {
      PredIsNearer(g, start, v);
    }
    forall w | 0 <= w < |g| && Dist(start, w) == level + 2
      ensures !visited[Pred(start, w)]
    {
      PredIsNearer(g, start, w);
    }
  }

  /** The level the front of the queue belongs to: the current one while
      entries of it remain, else the next. */
  lemma LevelAdvance(g: seq<seq<int>>, start: int, target: int, visited: seq<bool>, path: seq<int>, queue: seq<int>, level: nat, front: nat)
    returns (level': nat, front': nat)
    requires Traversal(g, start, target, visited, path, queue) && Levels(start, visited, path, queue, level, front) && |queue| > 0
    ensures Levels(start, visited, path, queue, level', front') && 0 < front'
    ensures level' == if front == 0 then level + 1 else level
  {
    level', front' := level, front;
    if front == 0 {
      LevelShift(g, start, target, visited, path, queue, level);
      level', front' := level + 1, |queue|;
    }
  }

  /** An unvisited node at the front of the current level is at distance
      `level`, so visiting it keeps the path in order. */
  lemma LevelNext(start: int, visited: seq<bool>, path: seq<int>, queue: seq<int>, level: nat, front: nat)
    requires Levels(start, visited, path, queue, level, front) && 0 < front
    requires 0 <= queue[0] < |visited| && !visited[queue[0]]
    ensures Dist(start, queue[0]) == level && PathLevels(start, path + [queue[0]], level)
  {
    var p := path + [queue[0]];
    forall i, j | 0 <= i < j < |p|
      ensures Dist(start, p[i]) <= Dist(start, p[j])
    {
      if j < |path| {
        assert p[i] == path[i] && p[j] == path[j];
      } else {
        assert p[i] == path[i];
      }
    }
    forall k | 0 <= k < |p|
      ensures Dist(start, p[k]) <= level
    {
      if k < |path| {
        assert p[k] == path[k];
      }
    }
  }

  /** Dropping an entry already visited keeps the order. */
  lemma LevelSkip(start: int, visited: seq<bool>, path: seq<int>, queue: seq<int>, level: nat, front: nat)
    requires Levels(start, visited, path, queue, level, front) && 0 < front
    requires 0 <= queue[0] < |visited| && visited[queue[0]]
    ensures Levels(start, visited, path, queue[1..], level, front - 1)
  {
    assert queue[1..][front - 1..] == queue[front..];
    assert queue[..front] == [queue[0]] + queue[1..][..front - 1];
  }

  /** The neighbours queued when visiting a node at distance `level` are at
      most one step further. */
  lemma QueueLevelsVisit(g: seq<seq<int>>, start: int, queue: seq<int>, added: seq<int>, level: nat, front: nat)
    requires Generated(g) && 0 < front <= |queue| && 0 <= queue[0] < |g| && Dist(start, queue[0]) == level
    requires QueueLevels(start, queue, level, front)
    requires forall w :: w in added ==> w in g[queue[0]]
    ensures QueueLevels(start, queue[1..] + added, level, front - 1)
  {
    var queue' := queue[1..] + added;
    forall k | 0 <= k < |queue'|
      ensures Dist(start, queue'[k]) <= level + 1
    {
      if k >= |queue| - 1 {
        assert queue'[k] in added;
        DistEdge(g, start, queue[0], queue'[k]);
      } else {
        assert queue'[k] == queue[k + 1];
      }
    }
    forall k | 0 <= k < front - 1
      ensures Dist(start, queue'[k]) <= level
    {
      assert queue'[k] == queue[k + 1];
    }
  }

  /** Visiting a node queues every unvisited node it is the predecessor of. */
  lemma PushedVisit(g: seq<seq<int>>, start: int, visited: seq<bool>, queue: seq<int>, added: seq<int>, level: nat, front: nat)
    requires Generated(g) && 0 <= start < |g| && |visited| == |g| && 0 < front <= |queue| && 0 <= queue[0] < |g|
    requires Pushed(start, visited, queue, level, front)
    requires forall w :: w in g[queue[0]] && !visited[queue[0] := true][w] ==> w in added
    ensures Pushed(start, visited[queue[0] := true], queue[1..] + added, level, front - 1)
  {
    var c, visited', queue' := queue[0], visited[queue[0] := true], queue[1..] + added;
    assert queue'[front - 1..] == queue[front..] + added;
    forall w | 0 <= w < |g| && Dist(start, w) == level + 1 && 0 <= Pred(start, w) < |g| && visited'[Pred(start, w)] && !visited'[w]
      ensures w in queue'[front - 1..]
    {
      if Pred(start, w) == c {
        PredIsNearer(g, start, w);
        assert w in added;
      } else {
        assert w in queue[front..];
      }
    }
  }

  /** Visiting the front entry leaves the other unvisited nodes of the level
      queued before the new front. */
  lemma QueuedVisit(start: int, visited: seq<bool>, queue: seq<int>, added: seq<int>, level: nat, front: nat)
    requires 0 < front <= |queue| && 0 <= queue[0] < |visited|
    requires Queued(start, visited, queue, level, front)
    ensures Queued(start, visited[queue[0] := true], queue[1..] + added, level, front - 1)
  {
    assert queue[..front] == [queue[0]] + (queue[1..] + added)[..front - 1];
  }

  /** Visiting the front entry and queueing its unvisited neighbours keeps
      the order. */
  lemma LevelVisit(g: seq<seq<int>>, start: int, target: int, visited: seq<bool>, path: seq<int>, queue: seq<int>, level: nat, front: nat)
    requires Traversal(g, start, target, visited, path, queue)
    requires Levels(start, visited, path, queue, level, front) && 0 < front
    requires 0 <= queue[0] < |g| && !visited[queue[0]]
    ensures Levels(start, visited[queue[0] := true], path + [queue[0]],
                   queue[1..] + Unvisited(g[queue[0]], visited[queue[0] := true]), level, front - 1)
  {
    var c := queue[0];
    var added := Unvisited(g[c], visited[c := true]);
    LevelNext(start, visited, path, queue, level, front);
    UnvisitedMembers(g[c], visited[c := true]);
    QueueLevelsVisit(g, start, queue, added, level, front);
    PushedVisit(g, start, visited, queue, added, level, front);
    QueuedVisit(start, visited, queue, added, level, front);
  }

  /** One iteration of the loop of Execute: take the front of the queue,
      skip it if visited, else visit it, stop if it is the target, and
      enqueue its unvisited neighbours. `level` and `front` are the ghost
      bookkeeping of Levels. */
  method Dequeue(g: seq<seq<int>>, start: int, target: int, visited: array<bool>, ghost vis: seq<bool>,
                 path: seq<int>, queue: seq<int>, ghost level: nat, ghost front: nat)
    returns (ghost vis': seq<bool>, path': seq<int>, queue': seq<int>, found: bool, steps: seq<Action>,
             ghost level': nat, ghost front': nat)
    requires visited[..] == vis && Traversal(g, start, target, vis, path, queue) && |queue| > 0
    requires 0 <= queue[0] < |g| && Levels(start, vis, path, queue, level, front)
    modifies visited
    ensures visited[..] == vis'
    ensures Handled(g, target, vis, path, queue[0], queue[1..], vis', path', queue', found)
    ensures found ==> Traced(g, start, target, TraversalResult(true, target, path', vis')) && 0 <= target < |g|
    ensures found ==> steps == [VisitNode, Found] && |path'| == |path| + 1 && PathLevels(start, path', level')
    ensures !found ==> Traversal(g, start, target, vis', path', queue') && Levels(start, vis', path', queue', level', front')
    ensures !found ==> (Unseen(vis') < Unseen(vis) && steps == [VisitNode, AddNeighbors] && |path'| == |path| + 1) ||
                       (vis' == vis && steps == [] && path' == path && |queue'| < |queue|)
  {
    level', front' := LevelAdvance(g, start, target, vis, path, queue, level, front);
    var current := queue[0];
    var rest := queue[1..];
    assert current in queue && queue == [current] + rest;
    front' := front' - 1;
    if visited[current] {
      LevelSkip(start, vis, path, queue, level', front' + 1);
      SkipVisited(g, start, target, vis, path, queue, rest, current);
      return vis, path, rest, false, [], level', front';
    }
    LevelNext(start, vis, path, queue, level', front' + 1);
    if current == target {
      FoundTraced(g, start, target, vis, path, queue);
      visited[current] := true;
      return visited[..], path + [current], rest, true, [VisitNode, Found], level', front';
    }
    LevelVisit(g, start, target, vis, path, queue, level', front' + 1);
    VisitStep(g, start, target, vis, path, queue, rest, current);
    MarkSeen(vis, current);
    visited[current] := true;
    vis' := vis[current := true];
    path' := path + [current];
    queue' := PushUnvisited(rest, g[current], visited, vis');
    found, steps := false, [VisitNode, AddNeighbors];
  }

  /** The loop of Execute: dequeue and visit until the queue is empty or
      the target is found. Nodes join the path in order of distance from
      `start`; an exhausted search leaves the traversal state with nothing
      pending. */
  method Search(g: seq<seq<int>>, start: int, target: int)
    returns (found: bool, path: seq<int>, visited: seq<bool>, actions: seq<Action>)
    requires Generated(g) && 0 <= start < |g|
    ensures found ==> Traced(g, start, target, TraversalResult(true, target, path, visited)) && 0 <= target < |g|
    ensures found ==> |actions| > 0 && actions[|actions| - 1] == Found
    ensures !found ==> Traversal(g, start, target, visited, path, [])
    ensures ByDistance(start, path) && Visits(actions) == |path|
  {
    var flags := new bool[|g|](_ => false);
    ghost var vis := flags[..];
    var queue := [start];
    path := [];
    actions := [];
    ghost var level: nat, front: nat := 0, 1;
    LevelStart(start, vis);
    while |queue| > 0
      invariant flags[..] == vis && Traversal(g, start, target, vis, path, queue)
      invariant Levels(start, vis, path, queue, level, front)
      invariant Visits(actions) == |path|
      decreases Unseen(vis), |queue|
    {
      var steps;
      assert queue[0] in queue;
      vis, path, queue, found, steps, level, front := Dequeue(g, start, target, flags, vis, path, queue, level, front);
      VisitsAppend(actions, steps);
      actions := actions + steps;
      if found {
        return true, path, flags[..], actions;
      }
    }
    found, visited := false, flags[..];
  }

  /** Execute's traversal: the search, then the not-found step when it
      exhausts the queue. */
  method Traverse(g: seq<seq<int>>, start: int, target: int) returns (r: TraversalResult, actions: seq<Action>)
    requires Generated(g) && 0 <= start < |g|
    ensures Traced(g, start, target, r)
    ensures ByDistance(start, r.path)
    ensures r.found <==> 0 <= target < |g|
    ensures Visits(actions) == |r.path|
    ensures |actions| > 0 && actions[|actions| - 1] == if r.found then Found else NotFound
  {
    var found, path, visited;
    found, path, visited, actions := Search(g, start, target);
    if !found {
      ExhaustedTraced(g, start, target, visited, path);
      VisitsAppend(actions, [NotFound]);
      actions := actions + [NotFound];
    }
    r := TraversalResult(found, target, path, visited);
  }

  /** Execute: `graph_size` (default 6), `start_node` (default 0) and
      `target_node` (default 5); the `input` argument is not read. */
  method Execute(params: Params) returns (r: TraversalResult, actions: seq<Action>)
    requires ValidateParametersChecked(params).Pass?
    ensures Traced(GeneratedGraph(IntParam(params, "graph_size", 6)), IntParam(params, "start_node", 0), IntParam(params, "target_node", 5), r)
    ensures ByDistance(IntParam(params, "start_node", 0), r.path)
    ensures r.found <==> 0 <= IntParam(params, "target_node", 5) < IntParam(params, "graph_size", 6)
    ensures |actions| >= 2 && actions[0] == Initialize
    ensures actions[|actions| - 1] == if r.found then Found else NotFound
  {
    var graphSize := IntParam(params, "graph_size", 6);
    var startNode := IntParam(params, "start_node", 0);
    var targetNode := IntParam(params, "target_node", 5);
    var g := GenerateGraph(graphSize);
    GeneratedUnique(g, graphSize);
    var traversal;
    r, traversal := Traverse(g, startNode, targetNode);
    actions := [Initialize] + traversal;
  }
}
