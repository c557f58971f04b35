/** The older `dijkstra` of dijkstra_algorithm.py: the same loop as the
    refined copy, but once the loop runs out it returns every path and
    weight, even when a finishing vertex was given. */
module LegacyShortestPaths {
  import opened Errors
  import opened ShortestPaths

  /** `dijkstra` as the older copy returns it: the shortest route to
      `finish` exactly when `finish` is given and can be reached, and
      otherwise the shortest path and weight of every vertex. */
  method Dijkstra(g: seq<seq<int>>, start: int, finish: Option<int>) returns (o: Outcome)
    requires IsMatrix(g) && 0 <= start < |g|
    ensures o.Route? <==> finish.Some? && 0 <= finish.value < |g| && HasPath(g, start, finish.value)
    ensures o.Route? ==> ShortestRoute(g, start, finish.value, o.path, o.weight)
    ensures o.Table? ==> ShortestTable(g, start, o.paths, o.weights)
  {
    var weights, paths, stopped := Explore(g, start, finish);
    if stopped {
      return Route(paths[finish.value], weights[finish.value]);
    }
    o := Table(paths, weights);
  }
}
