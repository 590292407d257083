/**
 * A directed graph kept as a dictionary from each vertex to the set of its
 * successors. `edges()` is the set of (source, destination) pairs.
 */
module DictionaryDiGraph {
  import opened Wrappers
  import opened Adjacency

  datatype DiGraph<V> = DiGraph(succ: map<V, set<V>>)

  /** Every successor is itself a vertex. */
  ghost predicate Closed<V>(g: DiGraph<V>) {
    forall u, w | u in g.succ && w in g.succ[u] :: w in g.succ
  }

  function Empty<V>(): (g: DiGraph<V>)
    ensures Closed(g) && g.succ == map[]
  {
    DiGraph(map[])
  }

  /** `isEmpty`: no vertices, and hence no edges. */
  function IsEmpty<V(==)>(g: DiGraph<V>): (r: bool)
    ensures r <==> Vertices(g) == {}
    ensures r ==> EdgeSet(g.succ) == {}
  {
    g.succ == map[]
  }

  /**
   * `addVertex`: installs an empty successor set unconditionally, so adding
   * an existing vertex drops its outgoing edges (its incoming ones stay).
   */
  function AddVertex<V(==)>(g: DiGraph<V>, v: V): (r: DiGraph<V>)
    ensures r.succ.Keys == g.succ.Keys + {v}
    ensures r.succ[v] == {}
    ensures EdgeSet(r.succ) == set e | e in EdgeSet(g.succ) && e.0 != v
    ensures Closed(g) ==> Closed(r)
  {
    var r := DiGraph(g.succ[v := {}]);
    forall e | e in EdgeSet(r.succ)
      ensures e in EdgeSet(g.succ) && e.0 != v
    {
      InEdgeSet(r.succ, e.0, e.1);
      InEdgeSet(g.succ, e.0, e.1);
    }
    forall e | e in EdgeSet(g.succ) && e.0 != v
      ensures e in EdgeSet(r.succ)
    {
      InEdgeSet(r.succ, e.0, e.1);
      InEdgeSet(g.succ, e.0, e.1);
    }
    r
  }

  /** Re-adding a vertex with an outgoing edge loses that edge. */
  lemma AddVertexDropsOutgoing()
    ensures var g := DiGraph(map[1 := {2}, 2 := {}]);
      Closed(g) && (1, 2) in EdgeSet(g.succ) && (1, 2) !in EdgeSet(AddVertex(g, 1).succ)
  {
    var g := DiGraph(map[1 := {2}, 2 := {}]);
    InEdgeSet(g.succ, 1, 2);
  }

  /**
   * `addDiEdge`: source and destination must be vertices (`GraphException`
   * otherwise, the source checked first); only the source's set grows.
   */
  function AddDiEdge<V(==)>(g: DiGraph<V>, s: V, d: V): (r: Result<DiGraph<V>>)
    ensures r.Err? <==> s !in g.succ || d !in g.succ
    ensures r.Err? ==> r.error == GraphException
    ensures r.Ok? ==> r.value.succ.Keys == g.succ.Keys
    ensures r.Ok? ==> EdgeSet(r.value.succ) == EdgeSet(g.succ) + {(s, d)}
    ensures r.Ok? && Closed(g) ==> Closed(r.value)
  {
    if s !in g.succ then Err(GraphException)
    else if d !in g.succ then Err(GraphException)
    else
      var r := DiGraph(g.succ[s := g.succ[s] + {d}]);
      forall e | e in EdgeSet(r.succ)
        ensures e in EdgeSet(g.succ) + {(s, d)}
      {
        InEdgeSet(r.succ, e.0, e.1);
        InEdgeSet(g.succ, e.0, e.1);
      }
      forall e | e in EdgeSet(g.succ) + {(s, d)}
        ensures e in EdgeSet(r.succ)
      {
        InEdgeSet(r.succ, e.0, e.1);
        InEdgeSet(g.succ, e.0, e.1);
      }
      Ok(r)
  }

  /**
   * `deleteDiEdge`: removes the destination from the source's set without
   * checking the source, so an unknown source dereferences a missing set.
   */
  function DeleteDiEdge<V(==)>(g: DiGraph<V>, s: V, d: V): (r: Result<DiGraph<V>>)
    ensures r.Err? <==> s !in g.succ
    ensures r.Err? ==> r.error == NullPointerException
    ensures r.Ok? ==> r.value.succ.Keys == g.succ.Keys
    ensures r.Ok? ==> EdgeSet(r.value.succ) == EdgeSet(g.succ) - {(s, d)}
    ensures r.Ok? && Closed(g) ==> Closed(r.value)
  {
    if s !in g.succ then
      Err(NullPointerException)
    else
      var r := DiGraph(g.succ[s := g.succ[s] - {d}]);
      forall e | e in EdgeSet(r.succ)
        ensures e in EdgeSet(g.succ) - {(s, d)}
      {
        InEdgeSet(r.succ, e.0, e.1);
        InEdgeSet(g.succ, e.0, e.1);
      }
      forall e | e in EdgeSet(g.succ) - {(s, d)}
        ensures e in EdgeSet(r.succ)
      {
        InEdgeSet(r.succ, e.0, e.1);
        InEdgeSet(g.succ, e.0, e.1);
      }
      Ok(r)
  }

  /**
   * `deleteVertex`: for a present vertex, drops its entry and removes it
   * from every remaining successor set; an absent vertex changes nothing.
   */
  function DeleteVertex<V(==)>(g: DiGraph<V>, v: V): (r: DiGraph<V>)
    ensures r.succ.Keys == g.succ.Keys - {v}
    ensures v in g.succ ==> EdgeSet(r.succ) == set e | e in EdgeSet(g.succ) && e.0 != v && e.1 != v
    ensures v !in g.succ ==> r == g
    ensures Closed(g) ==> Closed(r)
  {
    if v in g.succ then DiGraph(RemoveVertex(g.succ, v)) else g
  }

  /** `vertices()`: the keys of the dictionary. */
  function Vertices<V>(g: DiGraph<V>): (vs: set<V>)
    ensures vs == g.succ.Keys
  {
    g.succ.Keys
  }

  /** `edges()`: every (source, successor) pair. */
  method Edges<V(==)>(g: DiGraph<V>) returns (es: set<(V, V)>)
    ensures forall s, d :: (s, d) in es <==> s in g.succ && d in g.succ[s]
  {
    es := CollectEdges(g.succ);
  }

  /** `numberOfEdges`: the size of `edges()`. */
  method NumberOfEdges<V(==)>(g: DiGraph<V>) returns (n: nat)
    ensures n == |EdgeSet(g.succ)|
  {
    var es := CollectEdges(g.succ);
    n := |es|;
  }

  /** `successors`: the successor set; `GraphException` for an unknown vertex. */
  function Successors<V(==)>(g: DiGraph<V>, s: V): (r: Result<set<V>>)
    ensures r.Err? <==> s !in g.succ
    ensures r.Err? ==> r.error == GraphException
    ensures r.Ok? ==> forall d | d in r.value :: (s, d) in EdgeSet(g.succ)
    ensures r.Ok? ==> forall e | e in EdgeSet(g.succ) && e.0 == s :: e.1 in r.value
  {
    if s !in g.succ then
      Err(GraphException)
    else
      forall d | d in g.succ[s]
        ensures (s, d) in EdgeSet(g.succ)
      {
        InEdgeSet(g.succ, s, d);
      }
      forall e | e in EdgeSet(g.succ) && e.0 == s
        ensures e.1 in g.succ[s]
      {
        InEdgeSet(g.succ, e.0, e.1);
      }
      Ok(g.succ[s])
  }

  /**
   * `predecessors`: the vertices with an edge into `d`, collected by
   * scanning every successor set; `GraphException` for an unknown vertex.
   */
  method Predecessors<V(==)>(g: DiGraph<V>, d: V) returns (r: Result<set<V>>)
    ensures r.Err? <==> d !in g.succ
    ensures r.Err? ==> r.error == GraphException
    ensures r.Ok? ==> forall p :: p in r.value <==> (p, d) in EdgeSet(g.succ)
  {
    if d !in g.succ {
      return Err(GraphException);
    }
    var ps := CollectPredecessors(g.succ, d);
    return Ok(ps);
  }

  /** `inDegree`: the number of predecessors; `GraphException` for an unknown vertex. */
  method InDegree<V(==)>(g: DiGraph<V>, v: V) returns (r: Result<nat>)
    ensures r.Err? <==> v !in g.succ
    ensures r.Err? ==> r.error == GraphException
    ensures r.Ok? ==> r.value == |PredecessorSet(g.succ, v)|
  {
    if v !in g.succ {
      return Err(GraphException);
    }
    var ps := CollectPredecessors(g.succ, v);
    return Ok(|ps|);
  }

  /** `outDegree`: the number of successors; `GraphException` for an unknown vertex. */
  function OutDegree<V(==)>(g: DiGraph<V>, v: V): (r: Result<nat>)
    ensures r.Err? <==> v !in g.succ
    ensures r.Err? ==> r.error == GraphException
    ensures r.Ok? ==> r.value == |Successors(g, v).value|
  {
    if v !in g.succ then Err(GraphException) else Ok(|g.succ[v]|)
  }
}
