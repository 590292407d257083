/**
 * Adjacency dictionaries: every vertex key maps to the set of vertices it
 * has an edge to. Both dictionary graphs store one; this module holds what
 * they share — the edge set it denotes, the predecessor sets, the removal
 * of a vertex from every adjacency set, and the loops that collect edges
 * and predecessors by iterating the keys and sets in unspecified order.
 */
module Adjacency {

  /** Every (key, member of its set) pair: the `edges()` of either graph. */
  function EdgeSet<V(==)>(adj: map<V, set<V>>): set<(V, V)> {
    set u, w | u in adj && w in adj[u] :: (u, w)
  }

  lemma InEdgeSet<V>(adj: map<V, set<V>>, u: V, w: V)
    ensures (u, w) in EdgeSet(adj) <==> u in adj && w in adj[u]
  {
    if u in adj && w in adj[u] {
      assert (u, w) in EdgeSet(adj);
    }
  }

  /** The edges whose source is already in `done`. */
  ghost function EdgesOf<V>(adj: map<V, set<V>>, done: set<V>): set<(V, V)> {
    set u, w | u in adj && u in done && w in adj[u] :: (u, w)
  }

  /** The keys whose set holds `d`: the `predecessors(d)` of a directed graph. */
  function PredecessorSet<V(==)>(adj: map<V, set<V>>, d: V): set<V> {
    set k | k in adj && d in adj[k]
  }

  /** Every key other than `v` keeps its set minus `v`; `v`'s own entry goes. */
  function RemoveVertex<V(==)>(adj: map<V, set<V>>, v: V): (r: map<V, set<V>>)
    ensures r.Keys == adj.Keys - {v}
    ensures EdgeSet(r) == set e | e in EdgeSet(adj) && e.0 != v && e.1 != v
  {
    var r := map k | k in adj && k != v :: adj[k] - {v};
    assert forall e | e in EdgeSet(r) :: e in EdgeSet(adj) && e.0 != v && e.1 != v by {
      forall e | e in EdgeSet(r)
        ensures e in EdgeSet(adj) && e.0 != v && e.1 != v
      {
        InEdgeSet(r, e.0, e.1);
        InEdgeSet(adj, e.0, e.1);
      }
    }
    assert forall e | e in EdgeSet(adj) && e.0 != v && e.1 != v :: e in EdgeSet(r) by {
      forall e | e in EdgeSet(adj) && e.0 != v && e.1 != v
        ensures e in EdgeSet(r)
      {
        InEdgeSet(r, e.0, e.1);
        InEdgeSet(adj, e.0, e.1);
      }
    }
    r
  }

  /** One more source: its edges join the collected ones. */
  lemma EdgesOfStep<V>(adj: map<V, set<V>>, done: set<V>, u: V)
    requires u in adj
    ensures EdgesOf(adj, done + {u}) == EdgesOf(adj, done) + set w | w in adj[u] :: (u, w)
  {
  }

  /**
   * `edges()`: for every key, in some order, and every member of its set, in
   * some order, the pair is inserted into the result set.
   */
  method CollectEdges<V(==)>(adj: map<V, set<V>>) returns (es: set<(V, V)>)
    ensures es == EdgeSet(adj)
    ensures forall u, w :: (u, w) in es <==> u in adj && w in adj[u]
  {
    es := {};
    var pending := adj.Keys;
    while pending != {}
      invariant pending <= adj.Keys
      invariant es == EdgesOf(adj, adj.Keys - pending)
      decreases pending
    {
      var u :| u in pending;
      var before := es;
      var dests := adj[u];
      while dests != {}
        invariant dests <= adj[u]
        invariant es == before + set w | w in adj[u] && w !in dests :: (u, w)
        decreases dests
      {
        var w :| w in dests;
        es := es + {(u, w)};
        dests := dests - {w};
      }
      assert (adj.Keys - pending) + {u} == adj.Keys - (pending - {u});
      EdgesOfStep(adj, adj.Keys - pending, u);
      pending := pending - {u};
    }
    assert EdgesOf(adj, adj.Keys) == EdgeSet(adj);
    forall u, w
      ensures (u, w) in es <==> u in adj && w in adj[u]
    {
      InEdgeSet(adj, u, w);
    }
  }

  /**
   * `predecessors(d)`: every key, in some order, whose set contains `d` is
   * inserted into the result set.
   */
  method CollectPredecessors<V(==)>(adj: map<V, set<V>>, d: V) returns (ps: set<V>)
    ensures ps == PredecessorSet(adj, d)
    ensures forall k :: k in ps <==> (k, d) in EdgeSet(adj)
  {
    ps := {};
    var pending := adj.Keys;
    while pending != {}
      invariant pending <= adj.Keys
      invariant ps == set k | k in adj && k !in pending && d in adj[k]
      decreases pending
    {
      var k :| k in pending;
      if d in adj[k] {
        ps := ps + {k};
      }
      pending := pending - {k};
    }
    forall k
      ensures k in ps <==> (k, d) in EdgeSet(adj)
    {
      InEdgeSet(adj, k, d);
    }
  }
}
