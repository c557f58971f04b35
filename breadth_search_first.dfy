/** The older `breadth_first_search` of breadth_search_first.py. Its
    `visited` list holds every vertex ever queued: a vertex is marked when
    it is queued, not when it is dequeued, so no dequeued vertex needs to be
    skipped. The vertices already dequeued are tracked as a ghost set, which
    lets the loop share the invariant of `GraphTraversals`. */
module LegacyBreadthFirst {
  import opened Errors
  import opened Graphs
  import opened GraphTraversals

  /** The for loop over the neighbours of the dequeued `vertex`: a
      neighbour missing from `visited` is queued, appended to `visited`,
      and given `vertex`'s walk extended by it. */
  method Discover(g: seq<seq<int>>, start: int, vertex: int, visited: seq<int>, queue: seq<int>,
                  paths: seq<seq<int>>, ghost processed: set<int>)
    returns (visited': seq<int>, queue': seq<int>, paths': seq<seq<int>>)
    requires IsGraph(g) && vertex in processed && (start in processed || start in queue)
    requires Recorded(g, start, processed, queue, paths) && Queued(g, processed, queue)
    requires forall w :: w in visited <==> w in processed || w in queue
    ensures Discovered(g, start, vertex, processed, queue, paths, queue', paths')
    ensures forall w :: w in visited' <==> w in processed || w in queue'
  {
    visited', queue', paths' := visited, queue, paths;
    var neighbors := g[vertex];
    var i := 0;
    while i < |neighbors|
      invariant 0 <= i <= |neighbors|
      invariant Grown(g, start, vertex, processed, queue, paths, queue', paths')
      invariant forall w :: w in visited' <==> w in processed || w in queue'
      invariant forall k :: 0 <= k < i ==> neighbors[k] in visited'
    {
      var neighbor := neighbors[i];
      if neighbor !in visited' {
        ExtendWalk(g, start, vertex, paths'[vertex], neighbor);
        Enqueue(g, start, vertex, processed, queue, paths, queue', paths', neighbor);
        queue' := queue' + [neighbor];
        visited' := visited' + [neighbor];
        paths' := paths'[neighbor := paths'[vertex] + [neighbor]];
      }
      i := i + 1;
    }
  }

  /** Discovering the neighbours of the dequeued front of the queue keeps
      the invariant of the breadth-first loop. */
  method Visit(g: seq<seq<int>>, start: int, vertex: int, visited: seq<int>, queue: seq<int>,
               paths: seq<seq<int>>, ghost processed: set<int>, ghost seen: set<int>, ghost waiting: seq<int>)
    returns (visited': seq<int>, queue': seq<int>, paths': seq<seq<int>>)
    requires Invariant(g, start, seen, waiting, paths) && |waiting| > 0
    requires vertex == waiting[0] && processed == seen + {vertex} && queue == waiting[1..]
    requires forall w :: w in visited <==> w in processed || w in queue
    ensures Invariant(g, start, processed, queue', paths')
    ensures forall w :: w in visited' <==> w in processed || w in queue'
  {
    visited', queue', paths' := Discover(g, start, vertex, visited, queue, paths, processed);
    Step(g, start, seen, waiting, paths, queue', paths');
  }

  /** `breadth_first_search`: the same promises as the newer version. */
  method BreadthFirstSearch(g: seq<seq<int>>, start: int, finish: Option<int>) returns (r: Outcome)
    requires IsGraph(g) && 0 <= start < |g|
    ensures finish.None? ==> r.Paths? && ShortestWalks(g, start, r.paths)
    ensures finish.Some? ==> (r.Found? <==> 0 <= finish.value < |g| && Reachable(g, start, finish.value))
    ensures finish.Some? && r.Found? ==> ShortestWalk(g, start, finish.value, r.path)
    ensures finish.Some? && !r.Found? ==> r == NoPath(start, finish.value)
  {
    var paths := seq(|g|, _ => [start]);
    var queue, visited := [start], [start];
    ghost var processed: set<int> := {};
    assert WalkTo(g, start, start, [start]);
    while queue != []
      invariant Invariant(g, start, processed, queue, paths)
      invariant forall w :: w in visited <==> w in processed || w in queue
      invariant finish.Some? ==> finish.value !in processed
      invariant |processed| <= |g|
      decreases |g| - |processed|
    {
      ghost var seen, waiting := processed, queue;
      var vertex := queue[0];
      queue := queue[1..];
      processed := processed + {vertex};
      VertexCount(processed, |g|);
      if finish == Some(vertex) {
        Settle(g, start, seen, waiting, paths);
        return Found(paths[vertex]);
      }
      assert forall w :: w in waiting <==> w == vertex || w in queue;
      visited, queue, paths := Visit(g, start, vertex, visited, queue, paths, processed, seen, waiting);
    }
    Exhausted(g, start, processed, paths);
    if finish.None? {
      return Paths(paths);
    }
    r := NoPath(start, finish.value);
  }
}
