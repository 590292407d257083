/**
 * Breadth-first spanning tree from a source: the traversal of `Traversal`
 * with a FIFO frontier, and the parent-chain path to a destination.
 */
module BreadthFirstPaths {
  import opened Wrappers
  import opened Traversal

  /**
   * The constructor: the dummy edge into the source is queued, and the loop
   * runs until the queue is empty. The visited set is exactly what the
   * source reaches; it fails only if a reached vertex is not a vertex of the
   * graph (its `successors` raise `GraphException`).
   */
  method Of<V(==,!new)>(g: map<V, seq<V>>, source: V) returns (r: Result<Paths<V>>)
    ensures r.Err? <==> exists v :: Reachable(g, source, v) && v !in g
    ensures r.Err? ==> r.error == GraphException
    ensures r.Ok? ==> r.value.source == source && SpanningTree(g, r.value)
    ensures r.Ok? ==> forall v :: v in r.value.visited <==> Reachable(g, source, v)
    ensures r.Ok? ==> |r.value.traversal| == |r.value.visited|
  {
    r := Traverse(g, source, false);
    if r.Ok? {
      TraversalOnce(g, r.value);
    }
  }

  /**
   * `pathTo`: the destination, preceded by its chain of parents. A vertex
   * the traversal never reached has no parent entry, so its path is just
   * itself.
   */
  function PathTo<V(==,!new)>(t: Paths<V>, dest: V): (p: seq<V>)
    requires Ranked(t)
    ensures |p| >= 1 && p[|p| - 1] == dest
    ensures dest !in t.parentOf ==> p == [dest]
    ensures forall i | 1 <= i < |p| :: p[i] in t.parentOf && t.parentOf[p[i]] == Some(p[i - 1])
  {
    PathFrom(t, dest)
  }

  /** For a visited destination the path is a path of the graph from the source; the source's own path is `[source]`. */
  lemma PathToVisited<V(!new)>(g: map<V, seq<V>>, t: Paths<V>, v: V)
    requires SpanningTree(g, t) && v in t.visited
    ensures Ranked(t)
    ensures var p := PathTo(t, v); p[0] == t.source && p[|p| - 1] == v && IsPath(g, p)
    ensures v == t.source ==> PathTo(t, v) == [v]
  {
    PathFromSource(g, t, v);
  }
}
