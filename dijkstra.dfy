/** Dijkstra's algorithm over an adjacency matrix, as in
    algorithms/dijkstra_algorithm.py: a zero entry is a missing edge, edges
    run from row to column, and `float('inf')` is the weight `Inf`. The
    while loop that settles one vertex per turn is `Explore`; the for loop
    that relaxes the edges out of that vertex is `Relax`. */
module ShortestPaths {
  import opened Errors
  import opened ListIndex
  import Graphs

  /** A path weight: a number, or infinity for "not reached yet". */
  datatype Weight = Fin(value: int) | Inf

  /** `a < b` between weights, infinity above every number. */
  predicate Below(a: Weight, b: Weight)
  {
    a.Fin? && (b.Inf? || a.value < b.value)
  }

  /** `a <= b` between weights. */
  predicate NotAbove(a: Weight, b: Weight)
  {
    b.Inf? || (a.Fin? && a.value <= b.value)
  }

  /** `weight + edge`, infinity absorbing the edge. */
  function Plus(w: Weight, edge: int): Weight
  {
    if w.Inf? then Inf else Fin(w.value + edge)
  }

  /** The result of `dijkstra`: one path and its weight when a finishing
      vertex is given, or the lists of every path and every weight. */
  datatype Outcome =
    | Route(path: seq<int>, weight: Weight)
    | Table(paths: seq<seq<int>>, weights: seq<Weight>)

  // ------------------------------------------------------------------ graph

  /** A square adjacency matrix. */
  predicate IsMatrix(g: seq<seq<int>>)
  {
    forall i :: 0 <= i < |g| ==> |g[i]| == |g|
  }

  /** No negative edge weights: the condition under which the weights found
      are the shortest. */
  predicate NonNegative(g: seq<seq<int>>)
  {
    forall i, j :: 0 <= i < |g| && 0 <= j < |g[i]| ==> 0 <= g[i][j]
  }

  /** The matrix entry from `u` to `v`; 0 (no edge) outside the matrix. */
  function Edge(g: seq<seq<int>>, u: int, v: int): int
  {
    if 0 <= u < |g| && 0 <= v < |g[u]| then g[u][v] else 0
  }

  /** A non-empty sequence of vertices, each joined to the next by an edge. */
  ghost predicate IsPath(g: seq<seq<int>>, p: seq<int>)
  {
    && |p| > 0
    && (forall i :: 0 <= i < |p| ==> 0 <= p[i] < |g|)
    && (forall i :: 0 <= i < |p| - 1 ==> Edge(g, p[i], p[i + 1]) != 0)
  }

  /** A path from `s` to `v`. */
  ghost predicate PathTo(g: seq<seq<int>>, s: int, v: int, p: seq<int>)
  {
    IsPath(g, p) && p[0] == s && p[|p| - 1] == v
  }

  ghost predicate HasPath(g: seq<seq<int>>, s: int, v: int)
  {
    exists p :: PathTo(g, s, v, p)
  }

  /** The sum of the edge weights along a path. */
  function Cost(g: seq<seq<int>>, p: seq<int>): int
  {
    if |p| <= 1 then 0 else Cost(g, p[..|p| - 1]) + Edge(g, p[|p| - 2], p[|p| - 1])
  }

  /** What `dijkstra` promises about the path and weight it gives for `v`:
      a finite weight is the cost of the path, which runs from `s` to `v`;
      the weight is infinite, and the path the initial `(s,)`, exactly when
      no path leads there; and without negative edges no path is cheaper. */
  ghost predicate ShortestRoute(g: seq<seq<int>>, s: int, v: int, path: seq<int>, weight: Weight)
  {
    && (weight.Fin? ==> PathTo(g, s, v, path) && Cost(g, path) == weight.value)
    && (weight.Inf? <==> !HasPath(g, s, v))
    && (weight.Inf? ==> path == [s])
    && (NonNegative(g) ==> forall p :: PathTo(g, s, v, p) ==> NotAbove(weight, Fin(Cost(g, p))))
  }

  /** `ShortestRoute` for every vertex. */
  ghost predicate ShortestTable(g: seq<seq<int>>, s: int, paths: seq<seq<int>>, weights: seq<Weight>)
  {
    && |paths| == |g| && |weights| == |g|
    && forall v :: 0 <= v < |g| ==> ShortestRoute(g, s, v, paths[v], weights[v])
  }

  /** A path followed by one more edge is a path, its cost grown by that
      edge. */
  lemma Extend(g: seq<seq<int>>, s: int, v: int, p: seq<int>, c: int)
    requires PathTo(g, s, v, p) && 0 <= c < |g| && Edge(g, v, c) != 0
    ensures PathTo(g, s, c, p + [c])
    ensures Cost(g, p + [c]) == Cost(g, p) + Edge(g, v, c)
  {
    assert (p + [c])[..|p|] == p;
  }

  /** A path less its last vertex is a path, and without negative edges it
      costs no more. */
  lemma Shorten(g: seq<seq<int>>, p: seq<int>)
    requires IsPath(g, p) && |p| > 1
    ensures IsPath(g, p[..|p| - 1])
    ensures NonNegative(g) ==> Cost(g, p[..|p| - 1]) <= Cost(g, p)
  {
  }

  // -------------------------------------------------------------- the state

  /** Every finite weight is the cost of the path recorded beside it, which
      runs from `start` to its vertex; an infinite weight keeps `(start,)`. */
  ghost predicate Recorded(g: seq<seq<int>>, start: int, weights: seq<Weight>, paths: seq<seq<int>>)
  {
    && |weights| == |g| && |paths| == |g|
    && forall v :: 0 <= v < |g| ==>
      && (weights[v].Fin? ==> PathTo(g, start, v, paths[v]) && Cost(g, paths[v]) == weights[v].value)
      && (weights[v].Inf? ==> paths[v] == [start])
  }

  /** The vertices with a finite weight are exactly the visited and the
      unvisited (queued) ones, which are disjoint vertex sets. */
  ghost predicate Tracked(g: seq<seq<int>>, weights: seq<Weight>, visited: set<int>, unvisited: set<int>)
  {
    && |weights| == |g|
    && (forall v :: v in visited ==> 0 <= v < |g|)
    && (forall v :: v in unvisited ==> 0 <= v < |g|)
    && visited !! unvisited
    && forall v :: 0 <= v < |g| ==> (weights[v].Fin? <==> v in visited || v in unvisited)
  }

  /** Every edge out of a visited vertex leads to a visited or queued one. */
  ghost predicate Closed(g: seq<seq<int>>, visited: set<int>, unvisited: set<int>)
  {
    forall x, w :: x in visited && 0 <= w < |g| && Edge(g, x, w) != 0 ==> w in visited || w in unvisited
  }

  /** No path to a visited vertex costs less than its weight. */
  ghost predicate Settled(g: seq<seq<int>>, start: int, weights: seq<Weight>, visited: set<int>)
  {
    && |weights| == |g|
    && forall x, p :: x in visited && PathTo(g, start, x, p) ==> NotAbove(weights[x], Fin(Cost(g, p)))
  }

  /** Every edge from a visited vertex to an unvisited one has been relaxed. */
  ghost predicate Relaxed(g: seq<seq<int>>, weights: seq<Weight>, visited: set<int>)
  {
    && |weights| == |g|
    && forall x, w ::
      x in visited && 0 <= x < |g| && 0 <= w < |g| && w !in visited && Edge(g, x, w) != 0 ==>
        NotAbove(weights[w], Plus(weights[x], Edge(g, x, w)))
  }

  // ---------------------------------------------------------------- lemmas

  /** A non-empty set of vertices has one of least weight, which `min`
      picks. */
  lemma {:induction false} MinimumExists(weights: seq<Weight>, s: set<int>)
    requires s != {} && forall v :: v in s ==> 0 <= v < |weights|
    ensures exists m :: m in s && forall u :: u in s ==> NotAbove(weights[m], weights[u])
    decreases |s|
  {
    assert (forall y :: y !in s) ==> s == {};
    var x :| x in s;
    if s - {x} != {} {
      MinimumExists(weights, s - {x});
      var m :| m in s - {x} && forall u :: u in s - {x} ==> NotAbove(weights[m], weights[u]);
      if NotAbove(weights[m], weights[x]) {
        assert forall u :: u in s ==> NotAbove(weights[m], weights[u]);
      } else {
        assert forall u :: u in s ==> NotAbove(weights[x], weights[u]);
      }
    } else {
      assert s == {x};
    }
  }

  /** Every vertex on a path from `start` is visited once every edge out of
      a visited vertex leads to a visited one. */
  lemma {:induction false} PathInside(g: seq<seq<int>>, start: int, v: int, p: seq<int>, visited: set<int>)
    requires Closed(g, visited, {}) && start in visited
    requires PathTo(g, start, v, p)
    ensures v in visited
    decreases |p|
  {
    if |p| > 1 {
      var q := p[..|p| - 1];
      Shorten(g, p);
      PathInside(g, start, q[|q| - 1], q, visited);
    }
  }

  /** Without negative edges, a path from `start` that leaves the visited
      vertices costs at least the weight of some unvisited vertex: the first
      one it reaches has been relaxed from a settled vertex before it. */
  lemma {:induction false} Frontier(g: seq<seq<int>>, start: int, weights: seq<Weight>,
                                   visited: set<int>, unvisited: set<int>, p: seq<int>, k: int)
    returns (u: int)
    requires NonNegative(g)
    requires Tracked(g, weights, visited, unvisited)
    requires Settled(g, start, weights, visited) && Relaxed(g, weights, visited)
    requires 0 <= start < |g| && NotAbove(weights[start], Fin(0))
    requires IsPath(g, p) && p[0] == start && 0 <= k < |p| && p[k] !in visited
    ensures u in unvisited && NotAbove(weights[u], Fin(Cost(g, p)))
    decreases |p|
  {
    var m := |p| - 1;
    if m > 0 {
      Shorten(g, p);
    }
    var q := p[..m];
    if k < m {
      u := Frontier(g, start, weights, visited, unvisited, q, k);
    } else if exists i :: 0 <= i < m && q[i] !in visited {
      var i :| 0 <= i < m && q[i] !in visited;
      u := Frontier(g, start, weights, visited, unvisited, q, i);
    } else if m == 0 {
      u := start;
    } else {
      var x, y := p[m - 1], p[m];
      assert q[m - 1] == x && x in visited;
      assert PathTo(g, start, x, q);
      assert Edge(g, x, y) != 0;
      u := y;
    }
  }

  /** Without negative edges, the vertex of least weight among the
      unvisited ones has a weight no path to it undercuts. */
  lemma SelectedSettled(g: seq<seq<int>>, start: int, weights: seq<Weight>,
                        visited: set<int>, unvisited: set<int>, parent: int)
    requires NonNegative(g)
    requires Tracked(g, weights, visited, unvisited)
    requires Settled(g, start, weights, visited) && Relaxed(g, weights, visited)
    requires 0 <= start < |g| && NotAbove(weights[start], Fin(0))
    requires parent in unvisited && forall u :: u in unvisited ==> NotAbove(weights[parent], weights[u])
    ensures Settled(g, start, weights, visited + {parent})
  {
    forall p | PathTo(g, start, parent, p)
      ensures NotAbove(weights[parent], Fin(Cost(g, p)))
    {
      var u := Frontier(g, start, weights, visited, unvisited, p, |p| - 1);
    }
  }

  /** After the vertex of least weight is settled and its edges relaxed,
      the loop's invariants hold again for the larger visited set. */
  lemma Advance(g: seq<seq<int>>, start: int, parent: int,
                weights: seq<Weight>, visited: set<int>, unvisited: set<int>,
                lowered: seq<Weight>, queued: set<int>)
    requires 0 <= parent < |g| && |weights| == |g| && |lowered| == |g|
    requires parent !in visited
    requires Closed(g, visited, unvisited)
    requires unvisited - {parent} <= queued
    requires forall v :: 0 <= v < |g| ==> NotAbove(lowered[v], weights[v])
    requires forall v :: v in visited + {parent} ==> 0 <= v < |g| && lowered[v] == weights[v]
    requires forall w :: 0 <= w < |g| && w !in visited + {parent} && Edge(g, parent, w) != 0 ==>
      w in queued && NotAbove(lowered[w], Plus(weights[parent], Edge(g, parent, w)))
    requires forall w :: 0 <= w < |g| && w in visited + {parent} ==> w !in queued
    ensures Closed(g, visited + {parent}, queued)
    ensures Relaxed(g, weights, visited) ==> Relaxed(g, lowered, visited + {parent})
    ensures Settled(g, start, weights, visited + {parent}) ==> Settled(g, start, lowered, visited + {parent})
  {
    if Relaxed(g, weights, visited) {
      forall x, w | x in visited + {parent} && 0 <= x < |g| && 0 <= w < |g| && w !in visited + {parent} && Edge(g, x, w) != 0
        ensures NotAbove(lowered[w], Plus(lowered[x], Edge(g, x, w)))
      {
        if x != parent {
          assert NotAbove(weights[w], Plus(weights[x], Edge(g, x, w)));
        }
      }
    }
  }

  // ------------------------------------------------------------- the loops

  /** The for loop over `child_vertex`: every unvisited vertex with an edge
      from `parent` joins the unvisited set, and takes the parent's path
      and weight extended by the edge when that is strictly lighter. */
  method Relax(g: seq<seq<int>>, start: int, parent: int, visited: set<int>, unvisited: set<int>,
               weights: seq<Weight>, paths: seq<seq<int>>)
    returns (queued: set<int>, lowered: seq<Weight>, routes: seq<seq<int>>)
    requires IsMatrix(g) && 0 <= start < |g| && 0 <= parent < |g| && parent in visited
    requires Recorded(g, start, weights, paths)
    requires Tracked(g, weights, visited, unvisited)
    ensures Recorded(g, start, lowered, routes)
    ensures Tracked(g, lowered, visited, queued)
    ensures unvisited <= queued
    ensures forall v :: 0 <= v < |g| ==> NotAbove(lowered[v], weights[v])
    ensures forall v :: v in visited ==> lowered[v] == weights[v]
    ensures forall w :: 0 <= w < |g| && w !in visited && Edge(g, parent, w) != 0 ==>
      w in queued && NotAbove(lowered[w], Plus(weights[parent], Edge(g, parent, w)))
  {
    var n := |g|;
    queued, lowered, routes := unvisited, weights, paths;
    var child := 0;
    while child < n
      invariant 0 <= child <= n
      invariant Recorded(g, start, lowered, routes)
      invariant Tracked(g, lowered, visited, queued)
      invariant unvisited <= queued
      invariant forall v :: 0 <= v < n ==> NotAbove(lowered[v], weights[v])
      invariant forall v :: v in visited ==> lowered[v] == weights[v]
      invariant forall w :: 0 <= w < child && w !in visited && Edge(g, parent, w) != 0 ==>
        w in queued && NotAbove(lowered[w], Plus(weights[parent], Edge(g, parent, w)))
    {
      var edge := g[parent][child];
      assert edge == Edge(g, parent, child);
      if child !in visited && edge != 0 {
        ghost var before := queued;
        queued := queued + {child};
        var possible := Plus(lowered[parent], edge);
        if Below(possible, lowered[child]) {
          Lower(g, start, parent, child, visited, before, lowered, routes);
          lowered := lowered[child := possible];
          routes := routes[child := routes[parent] + [child]];
        }
        assert NotAbove(lowered[child], Plus(weights[parent], edge));
      }
      child := child + 1;
    }
  }

  /** The while loop: repeatedly settle an unvisited vertex of least weight
      (any of them on a tie) and relax its edges, stopping early when it is
      `finish`. Stopping early happens exactly when `finish` can be reached,
      and gives its shortest route; otherwise every vertex ends with its
      shortest route. */
  method Explore(g: seq<seq<int>>, start: int, finish: Option<int>)
    returns (weights: seq<Weight>, paths: seq<seq<int>>, stopped: bool)
    requires IsMatrix(g) && 0 <= start < |g|
    ensures |weights| == |g| && |paths| == |g|
    ensures stopped <==> finish.Some? && 0 <= finish.value < |g| && HasPath(g, start, finish.value)
    ensures stopped ==> ShortestRoute(g, start, finish.value, paths[finish.value], weights[finish.value])
    ensures !stopped ==> ShortestTable(g, start, paths, weights)
  {
    var n := |g|;
    paths := seq(n, _ => [start]);
    weights := seq(n, i => if i != start then Inf else Fin(0));
    var unvisited: set<int>, visited: set<int> := {start}, {};
    stopped := false;
    assert PathTo(g, start, start, [start]);
    while unvisited != {}
      invariant Recorded(g, start, weights, paths)
      invariant Tracked(g, weights, visited, unvisited)
      invariant Closed(g, visited, unvisited)
      invariant start in visited || start in unvisited
      invariant NotAbove(weights[start], Fin(0))
      invariant finish.Some? ==> finish.value !in visited
      invariant NonNegative(g) ==> Settled(g, start, weights, visited) && Relaxed(g, weights, visited)
      invariant |visited| <= n
      decreases n - |visited|
    {
      MinimumExists(weights, unvisited);
      var parent :| parent in unvisited && forall u :: u in unvisited ==> NotAbove(weights[parent], weights[u]);
      if NonNegative(g) {
        SelectedSettled(g, start, weights, visited, unvisited, parent);
      }
      if finish == Some(parent) {
        stopped := true;
        Stopped(g, start, weights, paths, visited, unvisited, parent);
        return;
      }
      ghost var seen, waiting := visited, unvisited;
      Visit(g, weights, seen, waiting, parent);
      unvisited := unvisited - {parent};
      visited := visited + {parent};
      var queued, lowered, routes := Relax(g, start, parent, visited, unvisited, weights, paths);
      Advance(g, start, parent, weights, seen, waiting, lowered, queued);
      unvisited, weights, paths := queued, lowered, routes;
    }
    Finished(g, start, weights, paths, visited);
  }

  /** Giving an unvisited `child` the parent's path extended by the edge,
      and its cost, keeps every recorded path valid and queues `child`. */
  lemma Lower(g: seq<seq<int>>, start: int, parent: int, child: int, visited: set<int>, queued: set<int>,
              weights: seq<Weight>, paths: seq<seq<int>>)
    requires Recorded(g, start, weights, paths) && Tracked(g, weights, visited, queued)
    requires parent in visited && 0 <= child < |g| && child !in visited && Edge(g, parent, child) != 0
    ensures Recorded(g, start, weights[child := Plus(weights[parent], Edge(g, parent, child))],
                     paths[child := paths[parent] + [child]])
    ensures Tracked(g, weights[child := Plus(weights[parent], Edge(g, parent, child))], visited, queued + {child})
  {
    Extend(g, start, parent, paths[parent], child);
  }

  /** Moving a queued vertex to the visited ones keeps the finite weights
      tracked and adds one visited vertex. */
  lemma Visit(g: seq<seq<int>>, weights: seq<Weight>, visited: set<int>, unvisited: set<int>, parent: int)
    requires Tracked(g, weights, visited, unvisited) && parent in unvisited
    ensures Tracked(g, weights, visited + {parent}, unvisited - {parent})
    ensures |visited + {parent}| == |visited| + 1 <= |g|
  {
    Graphs.VertexCount(visited + {parent}, |g|);
  }

  /** Stopping at a settled vertex gives its shortest route. */
  lemma Stopped(g: seq<seq<int>>, start: int, weights: seq<Weight>, paths: seq<seq<int>>,
                visited: set<int>, unvisited: set<int>, parent: int)
    requires Recorded(g, start, weights, paths)
    requires Tracked(g, weights, visited, unvisited)
    requires parent in unvisited
    requires NonNegative(g) ==> Settled(g, start, weights, visited + {parent})
    ensures HasPath(g, start, parent)
    ensures ShortestRoute(g, start, parent, paths[parent], weights[parent])
  {
    assert PathTo(g, start, parent, paths[parent]);
  }

  /** When no vertex is left unvisited, every vertex a path reaches is
      visited, and every vertex has its shortest route. */
  lemma Finished(g: seq<seq<int>>, start: int, weights: seq<Weight>, paths: seq<seq<int>>, visited: set<int>)
    requires Recorded(g, start, weights, paths)
    requires Tracked(g, weights, visited, {})
    requires Closed(g, visited, {}) && start in visited
    requires NonNegative(g) ==> Settled(g, start, weights, visited)
    ensures forall v :: HasPath(g, start, v) ==> v in visited
    ensures ShortestTable(g, start, paths, weights)
  {
    forall v | HasPath(g, start, v)
      ensures v in visited
    {
      var p :| PathTo(g, start, v, p);
      PathInside(g, start, v, p, visited);
    }
    forall v | 0 <= v < |g|
      ensures ShortestRoute(g, start, v, paths[v], weights[v])
    {
      if weights[v].Fin? {
        assert PathTo(g, start, v, paths[v]);
      }
    }
  }

  /** `dijkstra` of the refined copy. Without `finish`, the shortest path
      and weight of every vertex; with it, the shortest route to `finish`,
      looked up with Python's indexing (a negative index counts from the
      end) once the loop has run out, so an index outside the matrix raises
      `IndexError`. */
  method Dijkstra(g: seq<seq<int>>, start: int, finish: Option<int>) returns (r: Result<Outcome>)
    requires IsMatrix(g) && 0 <= start < |g|
    ensures finish.None? ==> r.Ok? && r.value.Table? && ShortestTable(g, start, r.value.paths, r.value.weights)
    ensures finish.Some? ==> (r.Ok? <==> InRange(finish.value, |g|))
    ensures finish.Some? && r.Ok? ==>
      r.value.Route? && ShortestRoute(g, start, Normalised(finish.value, |g|), r.value.path, r.value.weight)
    ensures r.Err? ==> r.error == IndexError
  {
    var weights, paths, stopped := Explore(g, start, finish);
    if stopped {
      return Ok(Route(paths[finish.value], weights[finish.value]));
    }
    if finish.Some? {
      if !InRange(finish.value, |g|) {
        return Err(IndexError);
      }
      var f := Normalised(finish.value, |g|);
      return Ok(Route(paths[f], weights[f]));
    }
    r := Ok(Table(paths, weights));
  }
}
