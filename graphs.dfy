/** Graphs given as adjacency lists (`adj_list[v]` lists the neighbours of
    vertex `v`, the vertices being `0 .. len(adj_list) - 1`), the walks in
    them, and counting facts about vertex sets shared by the traversals and
    by Dijkstra's algorithm. */
module Graphs {

  /** Every listed neighbour is a vertex of the graph. */
  predicate IsGraph(g: seq<seq<int>>)
  {
    forall x, i :: 0 <= x < |g| && 0 <= i < |g[x]| ==> 0 <= g[x][i] < |g|
  }

  /** `w` is listed among the neighbours of `x`. */
  predicate Adjacent(g: seq<seq<int>>, x: int, w: int)
  {
    0 <= x < |g| && w in g[x]
  }

  /** A non-empty sequence of vertices, each a neighbour of the one before. */
  ghost predicate IsWalk(g: seq<seq<int>>, p: seq<int>)
  {
    && |p| > 0
    && (forall i :: 0 <= i < |p| ==> 0 <= p[i] < |g|)
    && (forall i :: 0 <= i < |p| - 1 ==> Adjacent(g, p[i], p[i + 1]))
  }

  /** A walk from `s` to `v`. */
  ghost predicate WalkTo(g: seq<seq<int>>, s: int, v: int, p: seq<int>)
  {
    IsWalk(g, p) && p[0] == s && p[|p| - 1] == v
  }

  ghost predicate Reachable(g: seq<seq<int>>, s: int, v: int)
  {
    exists p :: WalkTo(g, s, v, p)
  }

  /** A walk followed by a neighbour of its last vertex is a walk. */
  lemma ExtendWalk(g: seq<seq<int>>, s: int, v: int, p: seq<int>, w: int)
    requires WalkTo(g, s, v, p) && Adjacent(g, v, w) && 0 <= w < |g|
    ensures WalkTo(g, s, w, p + [w])
  {
  }

  /** A walk less its last vertex is a walk. */
  lemma ShortenWalk(g: seq<seq<int>>, p: seq<int>)
    requires IsWalk(g, p) && |p| > 1
    ensures IsWalk(g, p[..|p| - 1])
  {
  }

  /** Every edge out of the set stays inside it. */
  ghost predicate ClosedUnder(g: seq<seq<int>>, inside: set<int>)
  {
    forall x, w :: x in inside && Adjacent(g, x, w) ==> w in inside
  }

  /** A set closed under edges that holds `s` holds every vertex reachable
      from `s`. */
  lemma {:induction false} WalkInside(g: seq<seq<int>>, s: int, v: int, p: seq<int>, inside: set<int>)
    requires ClosedUnder(g, inside) && s in inside && WalkTo(g, s, v, p)
    ensures v in inside
    decreases |p|
  {
    if |p| > 1 {
      var q := p[..|p| - 1];
      assert Adjacent(g, q[|q| - 1], v);
      WalkInside(g, s, q[|q| - 1], q, inside);
    }
  }

  /** A set of vertices below `n` has at most `n` members. */
  lemma {:induction false} VertexCount(s: set<int>, n: nat)
    requires forall v :: v in s ==> 0 <= v < n
    ensures |s| <= n
  {
    if n > 0 {
      VertexCount(s - {n - 1}, n - 1);
    } else {
      assert forall v :: v !in s;
      assert (forall y :: y !in s) ==> s == {};
    }
  }
}
