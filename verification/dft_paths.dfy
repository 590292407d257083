/**
 * Depth-first spanning tree from a source: the traversal of `Traversal`
 * with a LIFO frontier, and the parent-chain path to a visited destination.
 */
module DepthFirstPaths {
  import opened Wrappers
  import opened Traversal

  /**
   * The constructor: the dummy edge into the source is pushed, and the loop
   * runs until the stack is empty. The visited set is exactly what the
   * source reaches; it fails only if a reached vertex is not a vertex of the
   * graph (its `successors` raise `GraphException`).
   */
  method Of<V(==,!new)>(g: map<V, seq<V>>, source: V) returns (r: Result<Paths<V>>)
    ensures r.Err? <==> exists v :: Reachable(g, source, v) && v !in g
    ensures r.Err? ==> r.error == GraphException
    ensures r.Ok? ==> r.value.source == source && SpanningTree(g, r.value)
    ensures r.Ok? ==> forall v :: v in r.value.visited <==> Reachable(g, source, v)
    ensures r.Ok? ==> |r.value.traversal| == |r.value.visited|
  {
    r := Traverse(g, source, true);
    if r.Ok? {
      TraversalOnce(g, r.value);
    }
  }

  /**
   * `pathTo`: a destination the traversal never reached is refused with
   * `GraphException`; otherwise the destination preceded by its chain of
   * parents.
   */
  function PathTo<V(==,!new)>(t: Paths<V>, dest: V): (r: Result<seq<V>>)
    requires Ranked(t)
    ensures r.Err? <==> dest !in t.visited
    ensures r.Err? ==> r.error == GraphException
    ensures r.Ok? ==> |r.value| >= 1 && r.value[|r.value| - 1] == dest
    ensures r.Ok? ==> forall i | 1 <= i < |r.value| :: r.value[i] in t.parentOf && t.parentOf[r.value[i]] == Some(r.value[i - 1])
  {
    if dest !in t.visited then Err(GraphException) else Ok(PathFrom(t, dest))
  }

  /** For a visited destination the path is a path of the graph from the source; the source's own path is `[source]`. */
  lemma PathToVisited<V(!new)>(g: map<V, seq<V>>, t: Paths<V>, v: V)
    requires SpanningTree(g, t) && v in t.visited
    ensures Ranked(t)
    ensures PathTo(t, v).Ok?
    ensures var p := PathTo(t, v).value; p[0] == t.source && p[|p| - 1] == v && IsPath(g, p)
    ensures v == t.source ==> PathTo(t, v) == Ok([v])
  {
    PathFromSource(g, t, v);
  }
}
