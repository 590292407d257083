/**
 * Spanning-tree traversal with parent pointers, shared by the breadth-first
 * and the depth-first variant: they differ only in which pending edge the
 * frontier hands out next (the oldest for a FIFO queue, the newest for a
 * LIFO stack).
 *
 * The graph is seen through `successors` only: each vertex key maps to its
 * successors in the iteration order of its successor set (that order is not
 * fixed by the graph, so it is part of the input here). Asking for the
 * successors of a vertex that is not a key fails with `GraphException`.
 */
module Traversal {
  import opened Wrappers

  /** A frontier entry: the edge by which `to` is reached; `from` is `None` for the dummy edge into the source. */
  datatype Pending<V> = Pending(from: Option<V>, to: V)

  /**
   * What a traversal leaves behind: the visited set, the visiting order and
   * the spanning tree as a parent dictionary (`None` for the source, whose
   * parent is the dummy edge's null).
   */
  datatype Paths<V> = Paths(source: V, visited: set<V>, traversal: seq<V>, parentOf: map<V, Option<V>>)

  /** The loop state: the result under construction and the frontier. */
  datatype State<V> = State(visited: set<V>, traversal: seq<V>, parentOf: map<V, Option<V>>, frontier: seq<Pending<V>>)

  /**
   * The entry at `i` is a successor of the one before it. `Dijkstra` has
   * predicates of the same names over weighted successor maps; these are
   * over successor sequences, the order the traversals visit them in.
   */
  ghost predicate StepAt<V(!new)>(g: map<V, seq<V>>, p: seq<V>, i: int) {
    0 < i < |p| && p[i - 1] in g && p[i] in g[p[i - 1]]
  }

  /** Consecutive entries are edges. */
  ghost predicate IsPath<V(!new)>(g: map<V, seq<V>>, p: seq<V>) {
    |p| > 0 && forall i | 1 <= i < |p| :: StepAt(g, p, i)
  }

  ghost predicate Reachable<V(!new)>(g: map<V, seq<V>>, s: V, v: V) {
    exists p :: IsPath(g, p) && p[0] == s && p[|p| - 1] == v
  }

  ghost predicate Distinct<V(!new)>(s: seq<V>) {
    forall i, j | 0 <= i < j < |s| :: s[i] != s[j]
  }

  function Elems<V(!new)>(s: seq<V>): set<V> {
    set x | x in s
  }

  /** The first position of `x` in `s`, or `|s|` when absent. */
  function IndexOf<V(==,!new)>(s: seq<V>, x: V): (k: nat)
    ensures k <= |s|
    ensures k < |s| <==> x in s
    ensures k < |s| ==> s[k] == x
  {
    if s == [] then 0 else if s[0] == x then 0 else 1 + IndexOf(s[1..], x)
  }

  lemma {:induction false} IndexOfDistinct<V(!new)>(s: seq<V>, i: nat)
    requires Distinct(s) && i < |s|
    ensures IndexOf(s, s[i]) == i
  {
    if i > 0 {
      assert s[0] != s[i];
      assert s[1..][i - 1] == s[i];
      IndexOfDistinct(s[1..], i - 1);
    }
  }

  lemma {:induction false} IndexOfSnoc<V(!new)>(s: seq<V>, x: V, y: V)
    requires y in s
    ensures IndexOf(s + [x], y) == IndexOf(s, y)
  {
    if s[0] != y {
      assert (s + [x])[1..] == s[1..] + [x];
      IndexOfSnoc(s[1..], x, y);
    }
  }

  /** The parent of `v` was visited before it and has `v` as a successor. */
  ghost predicate ParentEdge<V(!new)>(g: map<V, seq<V>>, traversal: seq<V>, parentOf: map<V, Option<V>>, v: V)
    requires v in parentOf
  {
    parentOf[v].Some? && parentOf[v].value in traversal && parentOf[v].value in g
    && v in g[parentOf[v].value]
    && IndexOf(traversal, parentOf[v].value) < IndexOf(traversal, v)
  }

  /**
   * A finished traversal: every vertex visited once, the source first with
   * the null parent, every other vertex's parent visited earlier and
   * adjacent to it.
   */
  ghost predicate SpanningTree<V(!new)>(g: map<V, seq<V>>, t: Paths<V>) {
    Distinct(t.traversal) && t.visited == Elems(t.traversal) && t.parentOf.Keys == t.visited
    && t.visited <= g.Keys
    && t.traversal != [] && t.traversal[0] == t.source && t.parentOf[t.source] == None
    && forall v | v in t.parentOf && v != t.source :: ParentEdge(g, t.traversal, t.parentOf, v)
  }

  /** Parents come strictly earlier in the visiting order: what `pathTo` relies on to stop. */
  ghost predicate Ranked<V(!new)>(t: Paths<V>) {
    forall v | v in t.parentOf && t.parentOf[v].Some? ::
      IndexOf(t.traversal, t.parentOf[v].value) < IndexOf(t.traversal, v)
  }

  lemma SpanningTreeRanked<V(!new)>(g: map<V, seq<V>>, t: Paths<V>)
    requires SpanningTree(g, t)
    ensures Ranked(t)
  {
    forall v | v in t.parentOf && t.parentOf[v].Some?
      ensures IndexOf(t.traversal, t.parentOf[v].value) < IndexOf(t.traversal, v)
    {
      if v != t.source {
        assert ParentEdge(g, t.traversal, t.parentOf, v);
      }
    }
  }

  /**
   * `pathTo`'s loop: starting from `[v]`, parents are prepended until a
   * vertex without a parent (the source's null, or no entry at all).
   */
  function PathFrom<V(==,!new)>(t: Paths<V>, v: V): (p: seq<V>)
    requires Ranked(t)
    ensures |p| >= 1 && p[|p| - 1] == v
    ensures forall i | 1 <= i < |p| :: p[i] in t.parentOf && t.parentOf[p[i]] == Some(p[i - 1])
    ensures p[0] !in t.parentOf || t.parentOf[p[0]] == None
    ensures v !in t.parentOf ==> p == [v]
    decreases IndexOf(t.traversal, v)
  {
    if v in t.parentOf && t.parentOf[v].Some? then
      var q := PathFrom(t, t.parentOf[v].value);
      assert forall i | 0 <= i < |q| :: (q + [v])[i] == q[i];
      q + [v]
    else
      [v]
  }

  /** For a visited vertex the parent chain is a path of the graph from the source. */
  lemma {:induction false} PathFromSource<V(!new)>(g: map<V, seq<V>>, t: Paths<V>, v: V)
    requires SpanningTree(g, t) && v in t.visited
    ensures Ranked(t)
    ensures var p := PathFrom(t, v); p[0] == t.source && IsPath(g, p)
    ensures v == t.source ==> PathFrom(t, v) == [v]
    decreases IndexOf(t.traversal, v)
  {
    SpanningTreeRanked(g, t);
    var p := PathFrom(t, v);
    if v != t.source {
      assert ParentEdge(g, t.traversal, t.parentOf, v);
      var u := t.parentOf[v].value;
      PathFromSource(g, t, u);
      var q := PathFrom(t, u);
      assert p == q + [v];
      forall i | 1 <= i < |p|
        ensures StepAt(g, p, i)
      {
        if i < |q| {
          assert StepAt(g, q, i);
          assert p[i - 1] == q[i - 1] && p[i] == q[i];
        } else {
          assert p[i - 1] == u && p[i] == v;
        }
      }
    }
  }

  lemma ReachableSource<V(!new)>(g: map<V, seq<V>>, s: V)
    ensures Reachable(g, s, s)
  {
    assert IsPath(g, [s]);
  }

  lemma ReachableStep<V(!new)>(g: map<V, seq<V>>, s: V, u: V, w: V)
    requires Reachable(g, s, u) && u in g && w in g[u]
    ensures Reachable(g, s, w)
  {
    var p :| IsPath(g, p) && p[0] == s && p[|p| - 1] == u;
    var q := p + [w];
    forall i | 1 <= i < |q|
      ensures StepAt(g, q, i)
    {
      if i < |p| {
        assert StepAt(g, p, i);
      }
    }
  }

  /** A set holding `s` and closed under successors holds every vertex reachable from `s`. */
  lemma {:induction false} ClosedHoldsPath<V(!new)>(g: map<V, seq<V>>, s: V, vis: set<V>, p: seq<V>)
    requires s in vis
    requires forall v, w | v in vis && v in g && w in g[v] :: w in vis
    requires IsPath(g, p) && p[0] == s
    ensures p[|p| - 1] in vis
    decreases |p|
  {
    if |p| > 1 {
      var q := p[..|p| - 1];
      forall i | 1 <= i < |q|
        ensures StepAt(g, q, i)
      {
        assert StepAt(g, p, i);
      }
      ClosedHoldsPath(g, s, vis, q);
      assert StepAt(g, p, |p| - 1);
    }
  }

  lemma ClosedHoldsReachable<V(!new)>(g: map<V, seq<V>>, s: V, vis: set<V>, v: V)
    requires s in vis
    requires forall v, w | v in vis && v in g && w in g[v] :: w in vis
    requires Reachable(g, s, v)
    ensures v in vis
  {
    var p :| IsPath(g, p) && p[0] == s && p[|p| - 1] == v;
    ClosedHoldsPath(g, s, vis, p);
  }

  function Targets<V(!new)>(f: seq<Pending<V>>): set<V> {
    set e | e in f :: e.to
  }

  /** The successors loop: an edge from `v` for each successor not yet visited, in order. */
  function Pushes<V(==,!new)>(v: V, ws: seq<V>, visited: set<V>): (r: seq<Pending<V>>)
    ensures forall e | e in r :: e.from == Some(v) && e.to in ws && e.to !in visited
    ensures forall w | w in ws && w !in visited :: Pending(Some(v), w) in r
  {
    if ws == [] then []
    else
      var rest := Pushes(v, ws[1..], visited);
      assert forall w | w in ws && w != ws[0] :: w in ws[1..];
      if ws[0] in visited then rest else [Pending(Some(v), ws[0])] + rest
  }

  /** The frontier's next edge: the oldest (FIFO) or the newest (LIFO). */
  function Pop<V(!new)>(f: seq<Pending<V>>, lifo: bool): (r: (Pending<V>, seq<Pending<V>>))
    requires f != []
    ensures lifo ==> r.0 == f[|f| - 1] && r.1 == f[..|f| - 1]
    ensures !lifo ==> r.0 == f[0] && r.1 == f[1..]
    ensures |r.1| == |f| - 1
    ensures forall e | e in r.1 :: e in f
    ensures forall e | e in f :: e == r.0 || e in r.1
  {
    if lifo then
      assert f == f[..|f| - 1] + [f[|f| - 1]];
      (f[|f| - 1], f[..|f| - 1])
    else
      assert f == [f[0]] + f[1..];
      (f[0], f[1..])
  }

  /** Visited vertices, the order and the parents agree, and parents precede. */
  ghost predicate TreeInv<V(!new)>(g: map<V, seq<V>>, source: V, st: State<V>) {
    Distinct(st.traversal) && st.visited == Elems(st.traversal) && st.parentOf.Keys == st.visited
    && st.visited <= g.Keys
    && (st.traversal != [] ==> st.traversal[0] == source && st.parentOf[source] == None)
    && forall v | v in st.parentOf && v != source :: ParentEdge(g, st.traversal, st.parentOf, v)
  }

  /** Before the first step only the dummy edge is pending; afterwards every pending edge leaves a visited vertex. */
  ghost predicate FrontierInv<V(!new)>(g: map<V, seq<V>>, source: V, st: State<V>) {
    (st.traversal == [] ==> st.frontier == [Pending(None, source)])
    && forall e | e in st.frontier ::
         if e.from.None? then e.to == source && st.traversal == []
         else e.from.value in st.visited && e.from.value in g && e.to in g[e.from.value]
  }

  /** Every successor of a visited vertex is visited or still pending. */
  ghost predicate ClosureInv<V(!new)>(g: map<V, seq<V>>, st: State<V>) {
    forall v, w | v in st.visited && v in g && w in g[v] :: w in st.visited || w in Targets(st.frontier)
  }

  ghost predicate ReachInv<V(!new)>(g: map<V, seq<V>>, source: V, st: State<V>) {
    forall v | v in st.visited :: Reachable(g, source, v)
  }

  ghost predicate Inv<V(!new)>(g: map<V, seq<V>>, source: V, st: State<V>) {
    TreeInv(g, source, st) && FrontierInv(g, source, st) && ClosureInv(g, st) && ReachInv(g, source, st)
  }

  /** Every pending edge leads to a reachable vertex. */
  lemma PendingReachable<V(!new)>(g: map<V, seq<V>>, source: V, st: State<V>, e: Pending<V>)
    requires Inv(g, source, st) && e in st.frontier
    ensures Reachable(g, source, e.to)
  {
    if e.from.None? {
      ReachableSource(g, source);
    } else {
      ReachableStep(g, source, e.from.value, e.to);
    }
  }

  /** A popped edge to a visited vertex is dropped without other effect. */
  lemma DiscardKeeps<V(!new)>(g: map<V, seq<V>>, source: V, st: State<V>, e: Pending<V>, rest: seq<Pending<V>>)
    requires Inv(g, source, st) && e.to in st.visited
    requires forall x | x in rest :: x in st.frontier
    requires forall x | x in st.frontier :: x == e || x in rest
    ensures Inv(g, source, st.(frontier := rest))
  {
    var st' := st.(frontier := rest);
    assert st.traversal != [];
    forall v, w | v in st'.visited && v in g && w in g[v]
      ensures w in st'.visited || w in Targets(st'.frontier)
    {
      if w !in st.visited {
        var x :| x in st.frontier && x.to == w;
        assert x in rest;
      }
    }
  }

  /** The tree part of visiting `v` through the pending edge `e`. */
  lemma VisitTree<V(!new)>(g: map<V, seq<V>>, source: V, st: State<V>, e: Pending<V>, st': State<V>)
    requires TreeInv(g, source, st) && FrontierInv(g, source, st) && e in st.frontier
    requires e.to !in st.visited && e.to in g
    requires st'.visited == st.visited + {e.to} && st'.traversal == st.traversal + [e.to]
    requires st'.parentOf == st.parentOf[e.to := e.from]
    ensures TreeInv(g, source, st')
  {
    var v := e.to;
    var t := st.traversal;
    assert v !in t;
    assert Elems(t + [v]) == Elems(t) + {v};
    assert Distinct(t + [v]);
    assert IndexOf(t + [v], v) == |t| by {
      IndexOfDistinct(t + [v], |t|);
    }
    forall x | x in st'.parentOf && x != source
      ensures ParentEdge(g, st'.traversal, st'.parentOf, x)
    {
      if x == v {
        var u := e.from.value;
        IndexOfSnoc(t, v, u);
      } else {
        assert ParentEdge(g, t, st.parentOf, x);
        IndexOfSnoc(t, v, x);
        IndexOfSnoc(t, v, st.parentOf[x].value);
      }
    }
    if t != [] {
      assert st'.traversal[0] == t[0];
    }
  }

  /** Visiting `v` through the pending edge `e` and pushing its unvisited successors. */
  lemma VisitKeeps<V(!new)>(g: map<V, seq<V>>, source: V, st: State<V>, e: Pending<V>, rest: seq<Pending<V>>)
    requires Inv(g, source, st) && e in st.frontier
    requires e.to !in st.visited && e.to in g
    requires |rest| == |st.frontier| - 1
    requires forall x | x in rest :: x in st.frontier
    requires forall x | x in st.frontier :: x == e || x in rest
    ensures var v := e.to;
      var visited := st.visited + {v};
      Inv(g, source, State(visited, st.traversal + [v], st.parentOf[v := e.from],
                           rest + Pushes(v, g[v], visited)))
  {
    var v := e.to;
    var visited := st.visited + {v};
    var pushed := Pushes(v, g[v], visited);
    var st' := State(visited, st.traversal + [v], st.parentOf[v := e.from], rest + pushed);
    VisitTree(g, source, st, e, st');
    PendingReachable(g, source, st, e);
    if e.from.None? {
      assert st.frontier == [Pending(None, source)];
      assert rest == [];
    }
    forall x | x in st'.frontier
      ensures if x.from.None? then x.to == source && st'.traversal == []
              else x.from.value in st'.visited && x.from.value in g && x.to in g[x.from.value]
    {
      if x in rest {
        assert x in st.frontier;
        assert x.from.Some?;
      } else {
        assert x in pushed;
      }
    }
    forall a, w | a in st'.visited && a in g && w in g[a]
      ensures w in st'.visited || w in Targets(st'.frontier)
    {
      if a == v {
        if w !in visited {
          assert Pending(Some(v), w) in pushed;
          assert Pending(Some(v), w) in st'.frontier;
        }
      } else if w !in visited {
        assert w in Targets(st.frontier);
        var x :| x in st.frontier && x.to == w;
        assert x in rest && x in st'.frontier;
      }
    }
  }

  /** Each step visits a new vertex of the graph or shrinks the frontier. */
  lemma Progress<V(!new)>(g: map<V, seq<V>>, visited: set<V>, v: V)
    requires v in g && v !in visited
    ensures |g.Keys - (visited + {v})| < |g.Keys - visited|
  {
    assert g.Keys - (visited + {v}) == (g.Keys - visited) - {v};
  }

  /**
   * One round of the traversal loop: pop a pending edge; if its destination
   * is new, visit it, record the edge's source as its parent and push an
   * edge to each of its successors not yet visited. Asking for the
   * successors of a destination that is not a vertex fails.
   */
  method Step<V(==,!new)>(g: map<V, seq<V>>, source: V, st: State<V>, lifo: bool) returns (r: Result<State<V>>)
    requires Inv(g, source, st) && st.frontier != []
    ensures r.Err? ==> r.error == GraphException && exists v :: Reachable(g, source, v) && v !in g
    ensures r.Ok? ==> Inv(g, source, r.value)
    ensures r.Ok? ==> r.value.visited >= st.visited
    ensures r.Ok? ==> (|g.Keys - r.value.visited| < |g.Keys - st.visited|
                       || (r.value.visited == st.visited && |r.value.frontier| < |st.frontier|))
  {
    var (e, rest) := Pop(st.frontier, lifo);
    if e.to in st.visited {
      DiscardKeeps(g, source, st, e, rest);
      return Ok(st.(frontier := rest));
    } else if e.to !in g {
      PendingReachable(g, source, st, e);
      return Err(GraphException);
    } else {
      var v := e.to;
      var visited := st.visited + {v};
      VisitKeeps(g, source, st, e, rest);
      Progress(g, st.visited, v);
      return Ok(State(visited, st.traversal + [v], st.parentOf[v := e.from], rest + Pushes(v, g[v], visited)));
    }
  }

  /** Once the source is visited, the loop state is a spanning tree. */
  lemma FinishTree<V(!new)>(g: map<V, seq<V>>, source: V, st: State<V>)
    requires TreeInv(g, source, st) && st.traversal != []
    ensures SpanningTree(g, Paths(source, st.visited, st.traversal, st.parentOf))
  {
  }

  /** With the frontier empty, the visited set is closed under successors, hence holds everything reachable. */
  lemma FinishReach<V(!new)>(g: map<V, seq<V>>, source: V, st: State<V>)
    requires ClosureInv(g, st) && ReachInv(g, source, st) && st.frontier == [] && source in st.visited
    ensures forall v :: v in st.visited <==> Reachable(g, source, v)
  {
    forall v, w | v in st.visited && v in g && w in g[v]
      ensures w in st.visited
    {
      assert w !in Targets(st.frontier);
    }
    forall v | Reachable(g, source, v)
      ensures v in st.visited
    {
      ClosedHoldsReachable(g, source, st.visited, v);
    }
  }

  lemma Finish<V(!new)>(g: map<V, seq<V>>, source: V, st: State<V>)
    requires Inv(g, source, st) && st.frontier == []
    ensures SpanningTree(g, Paths(source, st.visited, st.traversal, st.parentOf))
    ensures forall v :: v in st.visited <==> Reachable(g, source, v)
  {
    assert st.traversal != [];
    FinishTree(g, source, st);
    FinishReach(g, source, st);
  }

  /**
   * The traversal loop, FIFO (`lifo == false`) or LIFO, from the dummy edge
   * into the source until the frontier is empty.
   */
  method Traverse<V(==,!new)>(g: map<V, seq<V>>, source: V, lifo: bool) returns (r: Result<Paths<V>>)
    ensures r.Err? <==> exists v :: Reachable(g, source, v) && v !in g
    ensures r.Err? ==> r.error == GraphException
    ensures r.Ok? ==> r.value.source == source && SpanningTree(g, r.value)
    ensures r.Ok? ==> forall v :: v in r.value.visited <==> Reachable(g, source, v)
  {
    var st := State({}, [], map[], [Pending(None, source)]);
    while st.frontier != []
      invariant Inv(g, source, st)
      decreases |g.Keys - st.visited|, |st.frontier|
    {
      var next := Step(g, source, st, lifo);
      if next.Err? {
        return Err(GraphException);
      }
      st := next.value;
    }
    Finish(g, source, st);
    forall v | Reachable(g, source, v)
      ensures v in g
    {
      assert v in st.visited;
    }
    r := Ok(Paths(source, st.visited, st.traversal, st.parentOf));
  }

  /** A duplicate-free sequence is as long as its set of elements. */
  lemma {:induction false} DistinctCount<V(!new)>(s: seq<V>)
    requires Distinct(s)
    ensures |Elems(s)| == |s|
  {
    if s != [] {
      var t := s[..|s| - 1];
      assert Distinct(t);
      DistinctCount(t);
      assert s == t + [s[|s| - 1]];
      assert s[|s| - 1] !in t;
      assert Elems(s) == Elems(t) + {s[|s| - 1]};
    }
  }

  /** In a finished traversal every visited vertex appears exactly once in the visiting order. */
  lemma TraversalOnce<V(!new)>(g: map<V, seq<V>>, t: Paths<V>)
    requires SpanningTree(g, t)
    ensures |t.traversal| == |t.visited|
    ensures forall i | 0 <= i < |t.traversal| :: t.traversal[i] in t.visited
    ensures forall v | v in t.visited :: exists i :: 0 <= i < |t.traversal| && t.traversal[i] == v
  {
    DistinctCount(t.traversal);
  }
}
