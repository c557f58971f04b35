/** `breadth_first_search` and `depth_first_search` of graph_traversals.py,
    over adjacency lists. The `Queue` and `Stack` they use are modelled as
    sequences: the queue's front is at index 0, the stack's top at the end. */
module GraphTraversals {
  import opened Errors
  import opened Graphs

  /** The result of `breadth_first_search`. */
  datatype Outcome =
    | Found(path: seq<int>)
    | Paths(paths: seq<seq<int>>)
    | NoPath(start: int, finish: int)

  /** What the search promises for `v`: a walk from `s` to `v` with as few
      vertices as any, when `v` can be reached, and the initial `[s]`
      otherwise. */
  ghost predicate ShortestWalk(g: seq<seq<int>>, s: int, v: int, path: seq<int>)
  {
    && (Reachable(g, s, v) ==> WalkTo(g, s, v, path) && forall p :: WalkTo(g, s, v, p) ==> |path| <= |p|)
    && (!Reachable(g, s, v) ==> path == [s])
  }

  /** `ShortestWalk` for every vertex: the `paths` dictionary, keyed by the
      vertices `0 .. len(adj_list) - 1`. */
  ghost predicate ShortestWalks(g: seq<seq<int>>, s: int, paths: seq<seq<int>>)
  {
    |paths| == |g| && forall v :: 0 <= v < |g| ==> ShortestWalk(g, s, v, paths[v])
  }

  // ------------------------------------------------------ breadth-first state

  /** Every discovered vertex (visited or queued) has a walk from `start`
      recorded; `start` keeps `[start]`, and so does every undiscovered
      vertex. */
  ghost predicate Recorded(g: seq<seq<int>>, start: int, visited: set<int>, queue: seq<int>, paths: seq<seq<int>>)
  {
    && |paths| == |g| && 0 <= start < |g| && paths[start] == [start]
    && forall v :: 0 <= v < |g| ==>
      && (v in visited || v in queue ==> WalkTo(g, start, v, paths[v]))
      && (v !in visited && v !in queue ==> paths[v] == [start])
  }

  /** The queue holds distinct unvisited vertices. */
  ghost predicate Queued(g: seq<seq<int>>, visited: set<int>, queue: seq<int>)
  {
    && (forall v :: v in visited ==> 0 <= v < |g|)
    && (forall i :: 0 <= i < |queue| ==> 0 <= queue[i] < |g| && queue[i] !in visited)
    && (forall i, j :: 0 <= i < j < |queue| ==> queue[i] != queue[j])
  }

  /** Recorded walks grow along the queue by at most one vertex from front
      to back, and no visited vertex has a longer walk than a queued one. */
  ghost predicate Layered(g: seq<seq<int>>, paths: seq<seq<int>>, visited: set<int>, queue: seq<int>)
  {
    && |paths| == |g|
    && (forall v :: v in visited ==> 0 <= v < |g|)
    && (forall i :: 0 <= i < |queue| ==> 0 <= queue[i] < |g|)
    && (forall i, j :: 0 <= i < j < |queue| ==> |paths[queue[i]]| <= |paths[queue[j]]|)
    && (forall i :: 0 <= i < |queue| ==> |paths[queue[i]]| <= |paths[queue[0]]| + 1)
    && (forall x, i :: x in visited && 0 <= i < |queue| ==> |paths[x]| <= |paths[queue[i]]|)
  }

  /** Every neighbour of a visited vertex is discovered, with a walk at most
      one vertex longer. */
  ghost predicate Near(g: seq<seq<int>>, paths: seq<seq<int>>, visited: set<int>, queue: seq<int>)
  {
    && |paths| == |g|
    && (forall v :: v in visited ==> 0 <= v < |g|)
    && forall x, w :: x in visited && 0 <= w < |g| && Adjacent(g, x, w) ==>
      (w in visited || w in queue) && |paths[w]| <= |paths[x]| + 1
  }

  /** No walk to a visited vertex is shorter than the recorded one. */
  ghost predicate Settled(g: seq<seq<int>>, start: int, paths: seq<seq<int>>, visited: set<int>)
  {
    && |paths| == |g|
    && forall x, p :: x in visited && WalkTo(g, start, x, p) ==> |paths[x]| <= |p|
  }

  /** The invariant of the breadth-first loop. */
  ghost predicate Invariant(g: seq<seq<int>>, start: int, visited: set<int>, queue: seq<int>, paths: seq<seq<int>>)
  {
    && IsGraph(g)
    && Recorded(g, start, visited, queue, paths)
    && Queued(g, visited, queue)
    && Layered(g, paths, visited, queue)
    && Near(g, paths, visited, queue)
    && Settled(g, start, paths, visited)
    && (start in visited || start in queue)
  }

  /** What discovering neighbours of the visited `vertex` keeps: the old
      queue followed by new, distinct, unvisited vertices whose walks are
      one vertex longer than `vertex`'s, and the walks of discovered
      vertices unchanged. */
  ghost predicate Grown(g: seq<seq<int>>, start: int, vertex: int, visited: set<int>, queue: seq<int>,
                        paths: seq<seq<int>>, queue': seq<int>, paths': seq<seq<int>>)
  {
    && 0 <= vertex < |g| && |paths| == |g| && |paths'| == |g|
    && |queue| <= |queue'| && queue'[..|queue|] == queue
    && Queued(g, visited, queue')
    && (forall i :: |queue| <= i < |queue'| ==> |paths'[queue'[i]]| == |paths[vertex]| + 1)
    && (forall v :: 0 <= v < |g| && (v in visited || v in queue) ==> paths'[v] == paths[v])
    && Recorded(g, start, visited, queue', paths')
  }

  /** What discovering all neighbours of the visited `vertex` leaves:
      `Grown`, with every neighbour of `vertex` visited or queued. */
  ghost predicate Discovered(g: seq<seq<int>>, start: int, vertex: int, visited: set<int>, queue: seq<int>,
                             paths: seq<seq<int>>, queue': seq<int>, paths': seq<seq<int>>)
  {
    && Grown(g, start, vertex, visited, queue, paths, queue', paths')
    && (forall w :: Adjacent(g, vertex, w) ==> w in visited || w in queue')
  }

  // ------------------------------------------------------- breadth-first proof

  /** A walk from `start` that leaves the visited vertices is no shorter
      than the recorded walk of some queued vertex. */
  lemma {:induction false} Frontier(g: seq<seq<int>>, start: int, visited: set<int>, queue: seq<int>,
                                   paths: seq<seq<int>>, p: seq<int>, k: int)
    returns (i: int)
    requires Invariant(g, start, visited, queue, paths)
    requires IsWalk(g, p) && p[0] == start && 0 <= k < |p| && p[k] !in visited
    ensures 0 <= i < |queue| && |paths[queue[i]]| <= |p|
    decreases |p|
  {
    var m := |p| - 1;
    if m > 0 {
      ShortenWalk(g, p);
    }
    var q := p[..m];
    if k < m {
      i := Frontier(g, start, visited, queue, paths, q, k);
    } else if exists j :: 0 <= j < m && q[j] !in visited {
      var j :| 0 <= j < m && q[j] !in visited;
      i := Frontier(g, start, visited, queue, paths, q, j);
    } else if m == 0 {
      i :| 0 <= i < |queue| && queue[i] == start;
    } else {
      var x, y := p[m - 1], p[m];
      assert q[m - 1] == x && x in visited;
      assert WalkTo(g, start, x, q);
      assert Adjacent(g, x, y);
      i :| 0 <= i < |queue| && queue[i] == y;
    }
  }

  /** The vertex at the front of the queue has a shortest walk recorded. */
  lemma Settle(g: seq<seq<int>>, start: int, visited: set<int>, queue: seq<int>, paths: seq<seq<int>>)
    requires Invariant(g, start, visited, queue, paths) && |queue| > 0
    ensures Settled(g, start, paths, visited + {queue[0]})
    ensures Reachable(g, start, queue[0]) && ShortestWalk(g, start, queue[0], paths[queue[0]])
  {
    forall p | WalkTo(g, start, queue[0], p)
      ensures |paths[queue[0]]| <= |p|
    {
      var i := Frontier(g, start, visited, queue, paths, p, |p| - 1);
    }
    assert WalkTo(g, start, queue[0], paths[queue[0]]);
  }

  /** Visiting the front of the queue and discovering its neighbours keeps
      the walks layered. */
  lemma StepLayered(g: seq<seq<int>>, visited: set<int>, queue: seq<int>, paths: seq<seq<int>>,
                    queue': seq<int>, paths': seq<seq<int>>)
    requires Layered(g, paths, visited, queue) && |queue| > 0 && |paths'| == |g|
    requires |queue| - 1 <= |queue'| && queue'[..|queue| - 1] == queue[1..]
    requires forall i :: |queue| - 1 <= i < |queue'| ==> 0 <= queue'[i] < |g| && |paths'[queue'[i]]| == |paths[queue[0]]| + 1
    requires forall v :: v in visited || v in queue ==> paths'[v] == paths[v]
    ensures Layered(g, paths', visited + {queue[0]}, queue')
  {
    var v, n := queue[0], |queue| - 1;
    var d := |paths[v]|;
    assert forall i :: 0 <= i < n ==> queue'[i] == queue[i + 1] && paths'[queue'[i]] == paths[queue[i + 1]] by {
      forall i | 0 <= i < n
        ensures queue'[i] == queue[i + 1]
      {
        assert queue'[..n][i] == queue[1..][i];
      }
    }
    assert forall i :: 0 <= i < |queue'| ==> d <= |paths'[queue'[i]]| <= d + 1 by {
      forall i | 0 <= i < |queue'|
        ensures d <= |paths'[queue'[i]]| <= d + 1
      {
        if i < n {
          assert |paths[queue[0]]| <= |paths[queue[i + 1]]|;
        }
      }
    }
    forall i, j | 0 <= i < j < |queue'|
      ensures |paths'[queue'[i]]| <= |paths'[queue'[j]]|
    {
      if j < n {
        assert |paths[queue[i + 1]]| <= |paths[queue[j + 1]]|;
      }
    }
    forall x, i | x in visited + {v} && 0 <= i < |queue'|
      ensures |paths'[x]| <= |paths'[queue'[i]]|
    {
      assert paths'[x] == paths[x];
      if x != v {
        assert |paths[x]| <= |paths[queue[0]]|;
      }
    }
  }

  /** ... and keeps every neighbour of a visited vertex discovered, one
      vertex further. */
  lemma StepNear(g: seq<seq<int>>, start: int, visited: set<int>, queue: seq<int>, paths: seq<seq<int>>,
                 queue': seq<int>, paths': seq<seq<int>>)
    requires Invariant(g, start, visited, queue, paths) && |queue| > 0
    requires Discovered(g, start, queue[0], visited + {queue[0]}, queue[1..], paths, queue', paths')
    ensures Near(g, paths', visited + {queue[0]}, queue')
  {
    var v := queue[0];
    forall x, w | x in visited + {v} && 0 <= w < |g| && Adjacent(g, x, w)
      ensures (w in visited + {v} || w in queue') && |paths'[w]| <= |paths'[x]| + 1
    {
      assert paths'[x] == paths[x];
      if w in visited + {v} || w in queue[1..] {
        assert paths'[w] == paths[w];
        if x == v && w !in visited && w != v {
          var i :| 0 <= i < |queue| - 1 && queue[1..][i] == w;
          assert queue[i + 1] == w;
        }
      } else if x == v {
        var i :| 0 <= i < |queue'| && queue'[i] == w;
      }
    }
  }

  /** ... and keeps every invariant of the breadth-first loop. */
  lemma Step(g: seq<seq<int>>, start: int, visited: set<int>, queue: seq<int>, paths: seq<seq<int>>,
             queue': seq<int>, paths': seq<seq<int>>)
    requires Invariant(g, start, visited, queue, paths) && |queue| > 0
    requires Discovered(g, start, queue[0], visited + {queue[0]}, queue[1..], paths, queue', paths')
    ensures Invariant(g, start, visited + {queue[0]}, queue', paths')
  {
    var v := queue[0];
    Settle(g, start, visited, queue, paths);
    assert forall i :: 0 <= i < |queue| ==> queue[i] == v || queue[i] in queue[1..];
    StepLayered(g, visited, queue, paths, queue', paths');
    StepNear(g, start, visited, queue, paths, queue', paths');
    assert forall x :: x in visited + {v} ==> paths'[x] == paths[x];
  }

  /** Once the queue is empty, every vertex reachable from `start` has been
      visited, and every vertex has its shortest walk recorded. */
  lemma Exhausted(g: seq<seq<int>>, start: int, visited: set<int>, paths: seq<seq<int>>)
    requires Invariant(g, start, visited, [], paths)
    ensures forall v :: Reachable(g, start, v) ==> v in visited
    ensures ShortestWalks(g, start, paths)
  {
    assert ClosedUnder(g, visited) by {
      forall x, w | x in visited && Adjacent(g, x, w)
        ensures w in visited
      {
        assert 0 <= w < |g|;
      }
    }
    forall v | Reachable(g, start, v)
      ensures v in visited
    {
      var p :| WalkTo(g, start, v, p);
      WalkInside(g, start, v, p, visited);
    }
  }

  // ------------------------------------------------------------ breadth-first

  /** Queueing an undiscovered neighbour of `vertex`, with `vertex`'s walk
      extended by it, keeps `Grown`. */
  lemma Enqueue(g: seq<seq<int>>, start: int, vertex: int, visited: set<int>, queue: seq<int>,
                paths: seq<seq<int>>, queue': seq<int>, paths': seq<seq<int>>, neighbor: int)
    requires Grown(g, start, vertex, visited, queue, paths, queue', paths')
    requires vertex in visited && (start in visited || start in queue)
    requires 0 <= neighbor < |g| && neighbor !in visited && neighbor !in queue'
    requires WalkTo(g, start, neighbor, paths'[vertex] + [neighbor])
    ensures Grown(g, start, vertex, visited, queue, paths, queue' + [neighbor],
                  paths'[neighbor := paths'[vertex] + [neighbor]])
  {
    var q, p := queue' + [neighbor], paths'[neighbor := paths'[vertex] + [neighbor]];
    assert q[..|queue|] == queue' [..|queue|];
    assert start in visited || start in queue';
  }

  /** The for loop over the neighbours of the visited `vertex`: a neighbour
      neither visited nor queued is queued, with the vertex's walk extended
      by it. */
  method Discover(g: seq<seq<int>>, start: int, vertex: int, visited: set<int>, queue: seq<int>,
                  paths: seq<seq<int>>)
    returns (queue': seq<int>, paths': seq<seq<int>>)
    requires IsGraph(g) && vertex in visited && (start in visited || start in queue)
    requires Recorded(g, start, visited, queue, paths) && Queued(g, visited, queue)
    ensures Discovered(g, start, vertex, visited, queue, paths, queue', paths')
  {
    queue', paths' := queue, paths;
    var neighbors := g[vertex];
    var i := 0;
    while i < |neighbors|
      invariant 0 <= i <= |neighbors|
      invariant Grown(g, start, vertex, visited, queue, paths, queue', paths')
      invariant forall k :: 0 <= k < i ==> neighbors[k] in visited || neighbors[k] in queue'
    {
      var neighbor := neighbors[i];
      if neighbor !in visited && neighbor !in queue' {
        ExtendWalk(g, start, vertex, paths'[vertex], neighbor);
        Enqueue(g, start, vertex, visited, queue, paths, queue', paths', neighbor);
        queue' := queue' + [neighbor];
        paths' := paths'[neighbor := paths'[vertex] + [neighbor]];
      }
      i := i + 1;
    }
  }

  /** Discovering the neighbours of the front of the queue, once it is
      dequeued and visited, keeps the invariant of the breadth-first loop. */
  method Visit(g: seq<seq<int>>, start: int, vertex: int, visited: set<int>, queue: seq<int>,
               paths: seq<seq<int>>, ghost seen: set<int>, ghost waiting: seq<int>)
    returns (queue': seq<int>, paths': seq<seq<int>>)
    requires Invariant(g, start, seen, waiting, paths) && |waiting| > 0
    requires vertex == waiting[0] && visited == seen + {vertex} && queue == waiting[1..]
    ensures Invariant(g, start, visited, queue', paths')
  {
    queue', paths' := Discover(g, start, vertex, visited, queue, paths);
    Step(g, start, seen, waiting, paths, queue', paths');
  }

  /** `breadth_first_search`: without `finish`, the shortest walk to every
      vertex; with it, the shortest walk to `finish` when it can be reached,
      and the "No path" message otherwise. */
  method BreadthFirstSearch(g: seq<seq<int>>, start: int, finish: Option<int>) returns (r: Outcome)
    requires IsGraph(g) && 0 <= start < |g|
    ensures finish.None? ==> r.Paths? && ShortestWalks(g, start, r.paths)
    ensures finish.Some? ==> (r.Found? <==> 0 <= finish.value < |g| && Reachable(g, start, finish.value))
    ensures finish.Some? && r.Found? ==> ShortestWalk(g, start, finish.value, r.path)
    ensures finish.Some? && !r.Found? ==> r == NoPath(start, finish.value)
  {
    var paths := seq(|g|, _ => [start]);
    var queue: seq<int>, visited: set<int> := [start], {};
    assert WalkTo(g, start, start, [start]);
    while queue != []
      invariant Invariant(g, start, visited, queue, paths)
      invariant finish.Some? ==> finish.value !in visited
      invariant |visited| <= |g|
      decreases |g| - |visited|, |queue|
    {
      ghost var seen, waiting := visited, queue;
      var vertex := queue[0];
      queue := queue[1..];
      if vertex !in visited {
        visited := visited + {vertex};
        VertexCount(visited, |g|);
        if finish == Some(vertex) {
          Settle(g, start, seen, waiting, paths);
          return Found(paths[vertex]);
        }
        queue, paths := Visit(g, start, vertex, visited, queue, paths, seen, waiting);
      }
    }
    Exhausted(g, start, visited, paths);
    if finish.None? {
      return Paths(paths);
    }
    r := NoPath(start, finish.value);
  }

  // -------------------------------------------------------------- depth-first

  /** The vertices of `ns`, in order, that are not in `visited`. */
  function Unvisited(ns: seq<int>, visited: set<int>): (r: seq<int>)
    ensures forall i :: 0 <= i < |r| ==> r[i] in ns && r[i] !in visited
    ensures forall w :: w in ns && w !in visited ==> w in r
  {
    if ns == [] then []
    else
      var last := ns[|ns| - 1];
      assert forall w :: w in ns ==> w in ns[..|ns| - 1] || w == last;
      Unvisited(ns[..|ns| - 1], visited) + (if last in visited then [] else [last])
  }

  /** The for loop over the neighbours of the visited `vertex`: each one
      not visited is pushed, in order of the adjacency list. */
  method PushUnvisited(g: seq<seq<int>>, vertex: int, visited: set<int>, stack: seq<int>)
    returns (stack': seq<int>)
    requires 0 <= vertex < |g|
    ensures stack' == stack + Unvisited(g[vertex], visited)
  {
    stack' := stack;
    var neighbors := g[vertex];
    var i := 0;
    while i < |neighbors|
      invariant 0 <= i <= |neighbors|
      invariant stack' == stack + Unvisited(neighbors[..i], visited)
    {
      var neighbor := neighbors[i];
      assert neighbors[..i + 1][..i] == neighbors[..i];
      if neighbor !in visited {
        stack' := stack' + [neighbor];
      }
      i := i + 1;
    }
    assert neighbors[..i] == neighbors;
  }

  /** What the depth-first loop keeps: every visited or stacked vertex can
      be reached from `start`, and every neighbour of a visited vertex is
      visited or stacked. */
  ghost predicate Explored(g: seq<seq<int>>, start: int, visited: set<int>, stack: seq<int>)
  {
    && (forall v :: v in visited ==> 0 <= v < |g| && Reachable(g, start, v))
    && (forall i :: 0 <= i < |stack| ==> 0 <= stack[i] < |g| && Reachable(g, start, stack[i]))
    && (forall x, w :: x in visited && Adjacent(g, x, w) ==> w in visited || w in stack)
    && (start in visited || start in stack)
  }

  /** Popping the top of the stack, visiting it and pushing its unvisited
      neighbours keeps `Explored`. */
  lemma Descend(g: seq<seq<int>>, start: int, visited: set<int>, stack: seq<int>)
    requires IsGraph(g) && Explored(g, start, visited, stack) && |stack| > 0
    ensures var top := stack[|stack| - 1];
      Explored(g, start, visited + {top}, stack[..|stack| - 1] + Unvisited(g[top], visited + {top}))
  {
    var top, rest := stack[|stack| - 1], stack[..|stack| - 1];
    var pushed := Unvisited(g[top], visited + {top});
    var p :| WalkTo(g, start, top, p);
    forall i | 0 <= i < |pushed|
      ensures 0 <= pushed[i] < |g| && Reachable(g, start, pushed[i])
    {
      ExtendWalk(g, start, top, p, pushed[i]);
    }
    assert forall w :: w in stack ==> w in rest || w == top;
  }

  /** With the stack empty, every vertex reachable from `start` is visited. */
  lemma Covered(g: seq<seq<int>>, start: int, visited: set<int>)
    requires Explored(g, start, visited, [])
    ensures forall v :: v in visited <==> 0 <= v < |g| && Reachable(g, start, v)
  {
    forall v | Reachable(g, start, v)
      ensures v in visited
    {
      var p :| WalkTo(g, start, v, p);
      WalkInside(g, start, v, p, visited);
    }
  }

  /** `depth_first_search`: exactly the vertices that can be reached from
      `start`. */
  method DepthFirstSearch(g: seq<seq<int>>, start: int) returns (visited: set<int>)
    requires IsGraph(g) && 0 <= start < |g|
    ensures forall v :: v in visited <==> 0 <= v < |g| && Reachable(g, start, v)
  {
    var stack := [start];
    visited := {};
    assert WalkTo(g, start, start, [start]);
    while stack != []
      invariant Explored(g, start, visited, stack)
      invariant |visited| <= |g|
      decreases |g| - |visited|, |stack|
    {
      var vertex := stack[|stack| - 1];
      ghost var before := stack;
      stack := stack[..|stack| - 1];
      if vertex !in visited {
        visited := visited + {vertex};
        VertexCount(visited, |g|);
        Descend(g, start, visited - {vertex}, before);
        stack := PushUnvisited(g, vertex, visited, stack);
      } else {
        assert forall w :: w in before ==> w in stack || w == vertex;
      }
    }
    Covered(g, start, visited);
  }
}
