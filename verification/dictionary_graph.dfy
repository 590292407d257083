/**
 * An undirected graph kept as a dictionary from each vertex to the set of
 * its neighbours. Every edge is stored in both directions, so the
 * adjacency is symmetric; `edges()` reports both orientations as ordered
 * pairs.
 */
module DictionaryGraph {
  import opened Wrappers
  import opened Adjacency

  datatype Graph<V> = Graph(adj: map<V, set<V>>)

  /** `u` lists `v` exactly when `v` lists `u`, and neighbours are vertices. */
  ghost predicate Symmetric<V>(g: Graph<V>) {
    forall u, v | u in g.adj && v in g.adj[u] :: v in g.adj && u in g.adj[v]
  }

  function Empty<V>(): (g: Graph<V>)
    ensures Symmetric(g) && g.adj == map[]
  {
    Graph(map[])
  }

  /** `isEmpty`: no vertices, and hence no edges. */
  function IsEmpty<V(==)>(g: Graph<V>): (r: bool)
    ensures r <==> Vertices(g) == {}
    ensures r ==> EdgeSet(g.adj) == {}
  {
    g.adj == map[]
  }

  /** `addVertex`: a new vertex gets no neighbours; an existing one is left as it is. */
  function AddVertex<V(==)>(g: Graph<V>, v: V): (r: Graph<V>)
    ensures r.adj.Keys == g.adj.Keys + {v}
    ensures forall u | u in g.adj :: r.adj[u] == g.adj[u]
    ensures v !in g.adj ==> r.adj[v] == {}
    ensures EdgeSet(r.adj) == EdgeSet(g.adj)
    ensures Symmetric(g) ==> Symmetric(r)
  {
    if v in g.adj then
      g
    else
      var r := Graph(g.adj[v := {}]);
      assert forall e | e in EdgeSet(r.adj) :: e in EdgeSet(g.adj) by {
        forall e | e in EdgeSet(r.adj)
          ensures e in EdgeSet(g.adj)
        {
          InEdgeSet(r.adj, e.0, e.1);
          InEdgeSet(g.adj, e.0, e.1);
        }
      }
      assert forall e | e in EdgeSet(g.adj) :: e in EdgeSet(r.adj) by {
        forall e | e in EdgeSet(g.adj)
          ensures e in EdgeSet(r.adj)
        {
          InEdgeSet(r.adj, e.0, e.1);
          InEdgeSet(g.adj, e.0, e.1);
        }
      }
      r
  }

  /** Adding a vertex twice is adding it once. */
  lemma AddVertexIdempotent<V>(g: Graph<V>, v: V)
    ensures AddVertex(AddVertex(g, v), v) == AddVertex(g, v)
  {
  }

  /** The two adjacency updates of `addEdge`, on both endpoints being vertices. */
  function Link<V(==)>(adj: map<V, set<V>>, a: V, b: V): (r: map<V, set<V>>)
    requires a in adj && b in adj
    ensures r.Keys == adj.Keys
    ensures EdgeSet(r) == EdgeSet(adj) + {(a, b), (b, a)}
  {
    var m := adj[a := adj[a] + {b}];
    var r := m[b := m[b] + {a}];
    assert forall e | e in EdgeSet(r) :: e in EdgeSet(adj) + {(a, b), (b, a)} by {
      forall e | e in EdgeSet(r)
        ensures e in EdgeSet(adj) + {(a, b), (b, a)}
      {
        InEdgeSet(r, e.0, e.1);
        InEdgeSet(adj, e.0, e.1);
      }
    }
    assert forall e | e in EdgeSet(adj) + {(a, b), (b, a)} :: e in EdgeSet(r) by {
      forall e | e in EdgeSet(adj) + {(a, b), (b, a)}
        ensures e in EdgeSet(r)
      {
        InEdgeSet(r, e.0, e.1);
        InEdgeSet(adj, e.0, e.1);
      }
    }
    r
  }

  /** Every pair comes with its reverse. */
  ghost predicate Reversible<V>(es: set<(V, V)>) {
    forall e | e in es :: (e.1, e.0) in es
  }

  /** The adjacency is symmetric exactly when its edge set is closed under reversal. */
  lemma SymmetricIffReversible<V>(g: Graph<V>)
    ensures Symmetric(g) <==> Reversible(EdgeSet(g.adj))
  {
    if Symmetric(g) {
      forall e | e in EdgeSet(g.adj)
        ensures (e.1, e.0) in EdgeSet(g.adj)
      {
        InEdgeSet(g.adj, e.0, e.1);
        InEdgeSet(g.adj, e.1, e.0);
      }
    }
    if Reversible(EdgeSet(g.adj)) {
      forall u, v | u in g.adj && v in g.adj[u]
        ensures v in g.adj && u in g.adj[v]
      {
        InEdgeSet(g.adj, u, v);
        InEdgeSet(g.adj, v, u);
      }
    }
  }

  /**
   * `addEdge`: both endpoints must be vertices (`GraphException` otherwise,
   * the first endpoint checked first); the edge is added in both directions.
   */
  function AddEdge<V(==)>(g: Graph<V>, a: V, b: V): (r: Result<Graph<V>>)
    ensures r.Err? <==> a !in g.adj || b !in g.adj
    ensures r.Err? ==> r.error == GraphException
    ensures r.Ok? ==> r.value.adj.Keys == g.adj.Keys
    ensures r.Ok? ==> EdgeSet(r.value.adj) == EdgeSet(g.adj) + {(a, b), (b, a)}
    ensures r.Ok? && Symmetric(g) ==> Symmetric(r.value)
  {
    if a !in g.adj then Err(GraphException)
    else if b !in g.adj then Err(GraphException)
    else
      var r := Graph(Link(g.adj, a, b));
      SymmetricIffReversible(g);
      SymmetricIffReversible(r);
      Ok(r)
  }

  /** The two adjacency updates of `deleteEdge`. */
  function Unlink<V(==)>(adj: map<V, set<V>>, a: V, b: V): (r: map<V, set<V>>)
    requires a in adj && b in adj
    ensures r.Keys == adj.Keys
    ensures EdgeSet(r) == EdgeSet(adj) - {(a, b), (b, a)}
  {
    var m := adj[a := adj[a] - {b}];
    var r := m[b := m[b] - {a}];
    assert forall e | e in EdgeSet(r) :: e in EdgeSet(adj) - {(a, b), (b, a)} by {
      forall e | e in EdgeSet(r)
        ensures e in EdgeSet(adj) - {(a, b), (b, a)}
      {
        InEdgeSet(r, e.0, e.1);
        InEdgeSet(adj, e.0, e.1);
      }
    }
    assert forall e | e in EdgeSet(adj) - {(a, b), (b, a)} :: e in EdgeSet(r) by {
      forall e | e in EdgeSet(adj) - {(a, b), (b, a)}
        ensures e in EdgeSet(r)
      {
        InEdgeSet(r, e.0, e.1);
        InEdgeSet(adj, e.0, e.1);
      }
    }
    r
  }

  /**
   * `deleteEdge`: looks up both neighbour sets without checking that the
   * endpoints are vertices, so an unknown first endpoint dereferences a
   * missing set (`NullPointerException`); the edge is removed only when
   * both orientations are present, and otherwise nothing changes.
   */
  function DeleteEdge<V(==)>(g: Graph<V>, a: V, b: V): (r: Result<Graph<V>>)
    ensures r.Err? ==> r.error == NullPointerException
    ensures Symmetric(g) ==> (r.Err? <==> a !in g.adj)
    ensures r.Ok? ==> r.value.adj.Keys == g.adj.Keys
    ensures r.Ok? && Symmetric(g) ==> EdgeSet(r.value.adj) == EdgeSet(g.adj) - {(a, b), (b, a)}
    ensures r.Ok? && Symmetric(g) ==> Symmetric(r.value)
  {
    if a !in g.adj then Err(NullPointerException)
    else if b !in g.adj[a] then
      InEdgeSet(g.adj, a, b);
      InEdgeSet(g.adj, b, a);
      SymmetricIffReversible(g);
      Ok(g)
    else if b !in g.adj then Err(NullPointerException)
    else if a in g.adj[b] then
      var r := Graph(Unlink(g.adj, a, b));
      SymmetricIffReversible(g);
      SymmetricIffReversible(r);
      Ok(r)
    else
      Ok(g)
  }

  /**
   * `deleteVertex`: drops the vertex's entry if present, then removes the
   * vertex from every remaining neighbour set.
   */
  function DeleteVertex<V(==)>(g: Graph<V>, v: V): (r: Graph<V>)
    ensures r.adj.Keys == g.adj.Keys - {v}
    ensures EdgeSet(r.adj) == set e | e in EdgeSet(g.adj) && e.0 != v && e.1 != v
    ensures Symmetric(g) ==> Symmetric(r)
  {
    var r := Graph(RemoveVertex(g.adj, v));
    SymmetricIffReversible(g);
    SymmetricIffReversible(r);
    r
  }

  /** `vertices()`: the keys of the dictionary. */
  function Vertices<V>(g: Graph<V>): (vs: set<V>)
    ensures vs == g.adj.Keys
  {
    g.adj.Keys
  }

  /** `edges()`: both orientations of every edge, as ordered pairs. */
  method Edges<V(==)>(g: Graph<V>) returns (es: set<(V, V)>)
    ensures es == EdgeSet(g.adj)
    ensures Symmetric(g) ==> forall u, v :: (u, v) in es <==> (v, u) in es
  {
    es := CollectEdges(g.adj);
    SymmetricIffReversible(g);
  }

  method NumberOfEdges<V(==)>(g: Graph<V>) returns (n: nat)
    ensures n == |EdgeSet(g.adj)|
  {
    var es := Edges(g);
    n := |es|;
  }

  /** `successors`: the neighbour set; `GraphException` for an unknown vertex. */
  function Successors<V(==)>(g: Graph<V>, v: V): (r: Result<set<V>>)
    ensures r.Err? <==> v !in g.adj
    ensures r.Err? ==> r.error == GraphException
    ensures r.Ok? ==> forall w | w in r.value :: (v, w) in EdgeSet(g.adj)
    ensures r.Ok? ==> forall e | e in EdgeSet(g.adj) && e.0 == v :: e.1 in r.value
    ensures r.Ok? && Symmetric(g) ==> forall w | w in r.value :: w in g.adj && v in g.adj[w]
  {
    if v !in g.adj then
      Err(GraphException)
    else
      assert forall w | w in g.adj[v] :: (v, w) in EdgeSet(g.adj) by {
        forall w | w in g.adj[v]
          ensures (v, w) in EdgeSet(g.adj)
        {
          InEdgeSet(g.adj, v, w);
        }
      }
      assert forall e | e in EdgeSet(g.adj) && e.0 == v :: e.1 in g.adj[v] by {
        forall e | e in EdgeSet(g.adj) && e.0 == v
          ensures e.1 in g.adj[v]
        {
          InEdgeSet(g.adj, e.0, e.1);
        }
      }
      Ok(g.adj[v])
  }

  /** `degree`: the number of neighbours; `GraphException` for an unknown vertex. */
  function Degree<V(==)>(g: Graph<V>, v: V): (r: Result<nat>)
    ensures r.Err? <==> v !in g.adj
    ensures r.Err? ==> r.error == GraphException
    ensures r.Ok? ==> r.value == |Successors(g, v).value|
  {
    if v !in g.adj then Err(GraphException) else Ok(|g.adj[v]|)
  }
}
