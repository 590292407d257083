/**
 * Dijkstra's single-source shortest paths with a lazy-deletion priority
 * queue. A run keeps the finalized vertices with their recorded cost and
 * path, the vertices not yet finalized, and a queue of extensions (edges
 * out of finalized vertices, each with the total cost of reaching its
 * destination that way). The cheapest extension is popped; if its
 * destination is already finalized it is discarded, otherwise the
 * destination is finalized with that cost and an extension is queued for
 * each of its successors.
 *
 * The weighted graph maps each vertex to its successors and the weight of
 * the edge to each; weights are non-negative by type. The queue is a
 * multiset, and a pop may take any extension of least cost, so everything
 * proved here holds whichever way the queue breaks ties.
 */
module Dijkstra {
  import opened Wrappers

  type WeightedGraph<V> = map<V, map<V, nat>>

  /** Every successor is itself a vertex: the graph's own invariant. */
  ghost predicate Closed<V>(g: WeightedGraph<V>) {
    forall u, w | u in g && w in g[u] :: w in g
  }

  /**
   * The entry at `i` is a successor of the one before it. `Traversal` has
   * predicates of the same names over successor sequences; these are over
   * weighted successor maps, where a successor is a key rather than an entry.
   */
  ghost predicate StepAt<V(!new)>(g: WeightedGraph<V>, p: seq<V>, i: int) {
    0 < i < |p| && p[i - 1] in g && p[i] in g[p[i - 1]]
  }

  ghost predicate IsPath<V(!new)>(g: WeightedGraph<V>, p: seq<V>) {
    |p| > 0 && forall i | 1 <= i < |p| :: StepAt(g, p, i)
  }

  /** `p` is a path of the graph from `s` to `v`. */
  ghost predicate Walk<V(!new)>(g: WeightedGraph<V>, s: V, v: V, p: seq<V>) {
    IsPath(g, p) && p[0] == s && p[|p| - 1] == v
  }

  ghost predicate Reachable<V(!new)>(g: WeightedGraph<V>, s: V, v: V) {
    exists p :: Walk(g, s, v, p)
  }

  lemma PrefixPath<V(!new)>(g: WeightedGraph<V>, p: seq<V>, k: int)
    requires IsPath(g, p) && 1 <= k <= |p|
    ensures IsPath(g, p[..k])
  {
    forall i | 1 <= i < k
      ensures StepAt(g, p[..k], i)
    {
      assert StepAt(g, p, i);
    }
  }

  /** The sum of the weights of a path's edges. */
  ghost function Weight<V(!new)>(g: WeightedGraph<V>, p: seq<V>): nat
    requires IsPath(g, p)
    decreases |p|
  {
    if |p| == 1 then 0
    else
      PrefixPath(g, p, |p| - 1);
      assert StepAt(g, p, |p| - 1);
      Weight(g, p[..|p| - 1]) + g[p[|p| - 2]][p[|p| - 1]]
  }

  /** Extending a path by an edge adds the edge's weight. */
  lemma SnocPath<V(!new)>(g: WeightedGraph<V>, p: seq<V>, w: V)
    requires IsPath(g, p) && p[|p| - 1] in g && w in g[p[|p| - 1]]
    ensures IsPath(g, p + [w])
    ensures Weight(g, p + [w]) == Weight(g, p) + g[p[|p| - 1]][w]
  {
    var q := p + [w];
    forall i | 1 <= i < |q|
      ensures StepAt(g, q, i)
    {
      if i < |p| {
        assert StepAt(g, p, i);
      }
    }
    assert q[..|q| - 1] == p;
  }

  /** With non-negative weights a prefix of a path weighs no more than the path. */
  lemma {:induction false} PrefixWeight<V(!new)>(g: WeightedGraph<V>, p: seq<V>, k: int)
    requires IsPath(g, p) && 1 <= k <= |p|
    ensures IsPath(g, p[..k]) && Weight(g, p[..k]) <= Weight(g, p)
    decreases |p| - k
  {
    PrefixPath(g, p, k);
    if k < |p| {
      var q := p[..|p| - 1];
      PrefixPath(g, p, |p| - 1);
      PrefixWeight(g, q, k);
      assert q[..k] == p[..k];
      assert StepAt(g, p, |p| - 1);
      assert Weight(g, p) == Weight(g, q) + g[p[|p| - 2]][p[|p| - 1]];
    } else {
      assert p[..k] == p;
    }
  }

  /** A path from inside `D` to outside it has an edge that leaves `D`. */
  lemma {:induction false} Crossing<V(!new)>(g: WeightedGraph<V>, s: V, v: V, p: seq<V>, D: set<V>) returns (i: int)
    requires Walk(g, s, v, p) && s in D && v !in D
    ensures 1 <= i < |p| && p[i - 1] in D && p[i] !in D
    ensures StepAt(g, p, i)
    decreases |p|
  {
    if p[|p| - 2] in D {
      i := |p| - 1;
    } else {
      var q := p[..|p| - 1];
      PrefixPath(g, p, |p| - 1);
      i := Crossing(g, s, p[|p| - 2], q, D);
      assert q[i - 1] == p[i - 1] && q[i] == p[i];
    }
    assert StepAt(g, p, i);
  }

  /** A set holding `s` and closed under successors holds the end of every path from `s`. */
  lemma {:induction false} ClosedHoldsPath<V(!new)>(g: WeightedGraph<V>, s: V, D: set<V>, p: seq<V>)
    requires s in D
    requires forall u, w | u in D && u in g && w in g[u] :: w in D
    requires IsPath(g, p) && p[0] == s
    ensures p[|p| - 1] in D
    decreases |p|
  {
    if |p| > 1 {
      PrefixPath(g, p, |p| - 1);
      ClosedHoldsPath(g, s, D, p[..|p| - 1]);
      assert StepAt(g, p, |p| - 1);
    }
  }

  lemma ClosedHoldsReachable<V(!new)>(g: WeightedGraph<V>, s: V, D: set<V>, v: V)
    requires s in D
    requires forall u, w | u in D && u in g && w in g[u] :: w in D
    requires Reachable(g, s, v)
    ensures v in D
  {
    var p :| Walk(g, s, v, p);
    ClosedHoldsPath(g, s, D, p);
  }

  /** In a closed graph a path from a vertex ends at a vertex. */
  lemma WalkEndsInGraph<V(!new)>(g: WeightedGraph<V>, s: V, v: V, p: seq<V>)
    requires Closed(g) && s in g && Walk(g, s, v, p)
    ensures v in g
  {
    if |p| > 1 {
      assert StepAt(g, p, |p| - 1);
    }
  }

  /** No path from `s` to `v` weighs less than `c`. */
  ghost predicate Optimal<V(!new)>(g: WeightedGraph<V>, s: V, v: V, c: nat) {
    forall p | Walk(g, s, v, p) :: c <= Weight(g, p)
  }

  /** `c` is the least weight of a path from `s` to `v`. */
  ghost predicate Shortest<V(!new)>(g: WeightedGraph<V>, s: V, v: V, c: nat) {
    (exists p :: Walk(g, s, v, p) && Weight(g, p) == c) && Optimal(g, s, v, c)
  }

  /** The candidate of the cost-only variant: reaching `destination` through an edge from `source`. */
  datatype Extension<V> = Extension(source: V, destination: V, totalCost: nat)

  /** The candidate of the path-carrying variant, with the vertex sequence walked so far. */
  datatype PathExtension<V> = PathExtension(source: V, destination: V, totalCost: nat, path: seq<V>)

  /** `compareTo`: extensions are ordered by total cost alone, as `Integer.compareTo` orders them. */
  function CompareTo<V>(a: Extension<V>, b: Extension<V>): (r: int)
    ensures r < 0 <==> a.totalCost < b.totalCost
    ensures r == 0 <==> a.totalCost == b.totalCost
    ensures r > 0 <==> a.totalCost > b.totalCost
    ensures -1 <= r <= 1
  {
    if a.totalCost < b.totalCost then -1 else if a.totalCost == b.totalCost then 0 else 1
  }

  /** The cost-only view of a path extension. */
  function Forget<V>(e: PathExtension<V>): Extension<V> {
    Extension(e.source, e.destination, e.totalCost)
  }

  /** `compareTo` of the path variant: the path plays no part in the order. */
  function ComparePaths<V>(a: PathExtension<V>, b: PathExtension<V>): (r: int)
    ensures r == CompareTo(Forget(a), Forget(b))
    ensures r <= 0 <==> a.totalCost <= b.totalCost
  {
    if a.totalCost < b.totalCost then -1 else if a.totalCost == b.totalCost then 0 else 1
  }

  /** Two extensions with the same costs compare alike, whatever their endpoints and paths. */
  lemma OrderIgnoresPath<V>(a: PathExtension<V>, b: PathExtension<V>, a': PathExtension<V>, b': PathExtension<V>)
    requires a.totalCost == a'.totalCost && b.totalCost == b'.totalCost
    ensures ComparePaths(a, b) == ComparePaths(a', b')
  {
  }

  /** What `first()` may return: a queued extension that no other queued extension precedes. */
  predicate Least<V(==)>(q: multiset<PathExtension<V>>, e: PathExtension<V>) {
    e in q && forall x | x in q :: ComparePaths(e, x) <= 0
  }

  /** A non-empty queue has an extension of least cost. */
  lemma {:induction false} MinimumExists<V>(q: multiset<PathExtension<V>>)
    requires q != multiset{}
    ensures exists e :: e in q && forall x | x in q :: e.totalCost <= x.totalCost
    decreases |q|
  {
    var y :| y in q;
    var rest := q - multiset{y};
    SplitOff(q, y);
    if rest != multiset{} {
      MinimumExists(rest);
      var m :| m in rest && forall x | x in rest :: m.totalCost <= x.totalCost;
      if m.totalCost <= y.totalCost {
        assert m in q;
      } else {
        assert forall x | x in q :: y.totalCost <= x.totalCost;
      }
    }
  }

  /** Everything in a multiset is the chosen element or remains once one copy of it is taken out. */
  lemma SplitOff<T>(q: multiset<T>, y: T)
    ensures forall x | x in q :: x == y || x in q - multiset{y}
  {
    forall x | x in q
      ensures x == y || x in q - multiset{y}
    {
      if x != y {
        assert (q - multiset{y})[x] == q[x];
      }
    }
  }

  lemma LeastExists<V>(q: multiset<PathExtension<V>>)
    requires q != multiset{}
    ensures exists e :: Least(q, e)
  {
    MinimumExists(q);
    var e :| e in q && forall x | x in q :: e.totalCost <= x.totalCost;
    assert Least(q, e);
  }

  /**
   * The extensions queued for a newly finalized vertex `v` of cost `c`
   * reached by `path`: one per successor, costing `c` plus the edge weight.
   */
  function Expand<V(!new)>(g: WeightedGraph<V>, v: V, c: nat, path: seq<V>): (r: multiset<PathExtension<V>>)
    requires v in g
    ensures forall x | x in r ::
      x.source == v && x.destination in g[v] && x.totalCost == c + g[v][x.destination] && x.path == path + [x.destination]
    ensures forall w | w in g[v] :: PathExtension(v, w, c + g[v][w], path + [w]) in r
  {
    multiset(set w | w in g[v].Keys :: PathExtension(v, w, c + g[v][w], path + [w]))
  }

  /**
   * The loop state: `finalized` and `remaining` split the vertices, `dic`
   * holds the recorded (cost, path) of each finalized vertex and `queue` the
   * pending extensions.
   */
  datatype Run<V> = Run(finalized: set<V>, remaining: set<V>, dic: map<V, (nat, seq<V>)>,
                        queue: multiset<PathExtension<V>>)

  /** The path extensions out of `u` carry: the source's is `[source]`, not its recorded empty path. */
  function Base<V>(st: Run<V>, s: V, u: V): seq<V> {
    if u == s then [s] else if u in st.dic then st.dic[u].1 else []
  }

  ghost predicate ShapeInv<V(!new)>(g: WeightedGraph<V>, s: V, st: Run<V>) {
    Closed(g) && s in g && st.finalized == st.dic.Keys && st.finalized <= g.Keys
    && st.remaining == g.Keys - st.finalized && s in st.finalized && st.dic[s] == (0, [])
  }

  /** A queued extension leaves a finalized vertex along an edge, costs that vertex's cost plus the weight, and extends its path. */
  ghost predicate ExtensionOk<V(!new)>(g: WeightedGraph<V>, s: V, st: Run<V>, e: PathExtension<V>) {
    e.source in st.dic && e.source in g && e.destination in g[e.source]
    && e.totalCost == st.dic[e.source].0 + g[e.source][e.destination]
    && e.path == Base(st, s, e.source) + [e.destination]
  }

  ghost predicate QueueInv<V(!new)>(g: WeightedGraph<V>, s: V, st: Run<V>) {
    forall e | e in st.queue :: ExtensionOk(g, s, st, e)
  }

  /** The extension along the edge from finalized `u` to `w`. */
  function Along<V>(g: WeightedGraph<V>, s: V, st: Run<V>, u: V, w: V): PathExtension<V>
    requires u in st.dic && u in g && w in g[u]
  {
    PathExtension(u, w, st.dic[u].0 + g[u][w], Base(st, s, u) + [w])
  }

  /** Every edge from a finalized vertex to an unfinalized one is still queued. */
  ghost predicate CoverInv<V(!new)>(g: WeightedGraph<V>, s: V, st: Run<V>) {
    forall u, w | u in st.dic && u in g && w in g[u] && w !in st.finalized :: Along(g, s, st, u, w) in st.queue
  }

  /** No finalized cost exceeds a queued one. */
  ghost predicate MonoInv<V>(st: Run<V>) {
    forall v, e | v in st.dic && e in st.queue :: st.dic[v].0 <= e.totalCost
  }

  /** The path recorded for each finalized vertex leads there from the source and weighs its recorded cost. */
  ghost predicate WitnessInv<V(!new)>(g: WeightedGraph<V>, s: V, st: Run<V>) {
    forall v | v in st.dic :: Walk(g, s, v, Base(st, s, v)) && Weight(g, Base(st, s, v)) == st.dic[v].0
  }

  ghost predicate OptimalInv<V(!new)>(g: WeightedGraph<V>, s: V, st: Run<V>) {
    forall v | v in st.dic :: Optimal(g, s, v, st.dic[v].0)
  }

  ghost predicate Inv<V(!new)>(g: WeightedGraph<V>, s: V, st: Run<V>) {
    ShapeInv(g, s, st) && QueueInv(g, s, st) && CoverInv(g, s, st) && MonoInv(st)
    && WitnessInv(g, s, st) && OptimalInv(g, s, st)
  }

  /** The state before the loop: the source finalized at cost 0 with an empty path, its edges queued. */
  function Start<V(!new)>(g: WeightedGraph<V>, s: V): (st: Run<V>)
    requires s in g
    ensures st.dic == map[s := (0, [])] && st.finalized == {s}
  {
    Run({s}, g.Keys - {s}, map[s := (0, [])], Expand(g, s, 0, [s]))
  }

  lemma StartQueue<V(!new)>(g: WeightedGraph<V>, s: V)
    requires s in g
    ensures QueueInv(g, s, Start(g, s)) && CoverInv(g, s, Start(g, s))
  {
    var st := Start(g, s);
    assert Base(st, s, s) == [s];
    forall u, w | u in st.dic && u in g && w in g[u] && w !in st.finalized
      ensures Along(g, s, st, u, w) in st.queue
    {
      assert u == s;
    }
  }

  /** The loop starts in a state satisfying the invariant. */
  lemma StartKeeps<V(!new)>(g: WeightedGraph<V>, s: V)
    requires Closed(g) && s in g
    ensures Inv(g, s, Start(g, s))
  {
    var st := Start(g, s);
    StartQueue(g, s);
    assert Walk(g, s, s, [s]);
    assert Base(st, s, s) == [s];
  }

  /** The extension along each edge out of `v` is among those queued for it. */
  lemma ExpandHas<V(!new)>(g: WeightedGraph<V>, v: V, c: nat, path: seq<V>, w: V)
    requires v in g && w in g[v]
    ensures PathExtension(v, w, c + g[v][w], path + [w]) in Expand(g, v, c, path)
  {
  }

  /** Any other element survives the removal of one copy of `e`. */
  lemma RemoveOther<T>(q: multiset<T>, x: T, e: T)
    requires x in q && x != e
    ensures x in q - multiset{e}
  {
    assert (q - multiset{e})[x] == q[x];
  }

  lemma DiscardCover<V(!new)>(g: WeightedGraph<V>, s: V, st: Run<V>, e: PathExtension<V>)
    requires CoverInv(g, s, st) && e.destination in st.finalized
    ensures CoverInv(g, s, st.(queue := st.queue - multiset{e}))
  {
    var st' := st.(queue := st.queue - multiset{e});
    forall u, w | u in st'.dic && u in g && w in g[u] && w !in st'.finalized
      ensures Along(g, s, st', u, w) in st'.queue
    {
      var x := Along(g, s, st, u, w);
      assert x in st.queue;
      assert x.destination != e.destination;
      RemoveOther(st.queue, x, e);
      assert Along(g, s, st', u, w) == x;
    }
  }

  /** The parts of the invariant that only look at the records hold for any queue. */
  lemma SameRecords<V(!new)>(g: WeightedGraph<V>, s: V, st: Run<V>, q: multiset<PathExtension<V>>)
    requires ShapeInv(g, s, st) && WitnessInv(g, s, st) && OptimalInv(g, s, st)
    ensures var st' := st.(queue := q);
      ShapeInv(g, s, st') && WitnessInv(g, s, st') && OptimalInv(g, s, st')
  {
    var st' := st.(queue := q);
    assert forall u :: Base(st', s, u) == Base(st, s, u);
  }

  /** A copy removed from a multiset leaves a sub-multiset. */
  lemma RemoveSub<T>(q: multiset<T>, e: T, x: T)
    requires x in q - multiset{e}
    ensures x in q
  {
  }

  /** Removing an extension keeps the queued ones valid. */
  lemma DiscardQueue<V(!new)>(g: WeightedGraph<V>, s: V, st: Run<V>, e: PathExtension<V>)
    requires QueueInv(g, s, st)
    ensures QueueInv(g, s, st.(queue := st.queue - multiset{e}))
  {
    var st' := st.(queue := st.queue - multiset{e});
    forall x | x in st'.queue
      ensures ExtensionOk(g, s, st', x)
    {
      RemoveSub(st.queue, e, x);
      assert ExtensionOk(g, s, st, x);
      assert Base(st', s, x.source) == Base(st, s, x.source);
    }
  }

  /** Removing an extension keeps the queued costs no lower than the recorded ones. */
  lemma DiscardMono<V>(st: Run<V>, e: PathExtension<V>)
    requires MonoInv(st)
    ensures MonoInv(st.(queue := st.queue - multiset{e}))
  {
    var st' := st.(queue := st.queue - multiset{e});
    forall u, x | u in st'.dic && x in st'.queue
      ensures st'.dic[u].0 <= x.totalCost
    {
      RemoveSub(st.queue, e, x);
    }
  }

  /** Dropping an extension into a finalized vertex changes nothing else. */
  lemma DiscardKeeps<V(!new)>(g: WeightedGraph<V>, s: V, st: Run<V>, e: PathExtension<V>)
    requires Inv(g, s, st) && e in st.queue && e.destination in st.finalized
    ensures Inv(g, s, st.(queue := st.queue - multiset{e}))
  {
    DiscardCover(g, s, st, e);
    DiscardQueue(g, s, st, e);
    DiscardMono(st, e);
    SameRecords(g, s, st, st.queue - multiset{e});
  }

  /** The state after finalizing the destination of the popped extension `e`. */
  function Finalize<V(!new)>(g: WeightedGraph<V>, st: Run<V>, e: PathExtension<V>): Run<V>
    requires e.destination in g
  {
    var v := e.destination;
    Run(st.finalized + {v}, st.remaining - {v}, st.dic[v := (e.totalCost, e.path)],
        (st.queue - multiset{e}) + Expand(g, v, e.totalCost, e.path))
  }

  ghost predicate Cheapest<V>(st: Run<V>, e: PathExtension<V>) {
    e in st.queue && forall x | x in st.queue :: e.totalCost <= x.totalCost
  }

  lemma LeastCheapest<V>(st: Run<V>, e: PathExtension<V>)
    requires Least(st.queue, e)
    ensures Cheapest(st, e)
  {
  }

  lemma FinalizeShape<V(!new)>(g: WeightedGraph<V>, s: V, st: Run<V>, e: PathExtension<V>)
    requires ShapeInv(g, s, st) && ExtensionOk(g, s, st, e) && e.destination !in st.finalized
    ensures e.destination in g && e.destination != s
    ensures ShapeInv(g, s, Finalize(g, st, e))
    ensures forall u | u in st.dic :: Base(Finalize(g, st, e), s, u) == Base(st, s, u)
    ensures Base(Finalize(g, st, e), s, e.destination) == e.path
  {
  }

  lemma FinalizeQueue<V(!new)>(g: WeightedGraph<V>, s: V, st: Run<V>, e: PathExtension<V>)
    requires ShapeInv(g, s, st) && QueueInv(g, s, st) && e in st.queue && e.destination !in st.finalized
    ensures e.destination in g
    ensures QueueInv(g, s, Finalize(g, st, e))
  {
    assert ExtensionOk(g, s, st, e);
    FinalizeShape(g, s, st, e);
    var st' := Finalize(g, st, e);
    forall x | x in st'.queue
      ensures ExtensionOk(g, s, st', x)
    {
      if x in st.queue - multiset{e} {
        assert ExtensionOk(g, s, st, x);
      }
    }
  }

  lemma FinalizeCover<V(!new)>(g: WeightedGraph<V>, s: V, st: Run<V>, e: PathExtension<V>)
    requires ShapeInv(g, s, st) && CoverInv(g, s, st) && ExtensionOk(g, s, st, e) && e.destination !in st.finalized
    ensures e.destination in g
    ensures CoverInv(g, s, Finalize(g, st, e))
  {
    FinalizeShape(g, s, st, e);
    var st' := Finalize(g, st, e);
    forall u, w | u in st'.dic && u in g && w in g[u] && w !in st'.finalized
      ensures Along(g, s, st', u, w) in st'.queue
    {
      if u == e.destination {
        FinalizeCoverNew(g, s, st, e, w);
      } else {
        FinalizeCoverOld(g, s, st, e, u, w);
      }
    }
  }

  /** An edge out of the newly finalized vertex: its extension was just queued. */
  lemma FinalizeCoverNew<V(!new)>(g: WeightedGraph<V>, s: V, st: Run<V>, e: PathExtension<V>, w: V)
    requires ShapeInv(g, s, st) && ExtensionOk(g, s, st, e) && e.destination !in st.finalized
    requires e.destination in g && w in g[e.destination]
    ensures Along(g, s, Finalize(g, st, e), e.destination, w) in Finalize(g, st, e).queue
  {
    var v := e.destination;
    var st' := Finalize(g, st, e);
    assert v != s;
    assert Base(st', s, v) == e.path;
    var x := PathExtension(v, w, e.totalCost + g[v][w], e.path + [w]);
    assert Along(g, s, st', v, w) == x;
    ExpandHas(g, v, e.totalCost, e.path, w);
  }

  /** An edge out of a vertex finalized earlier: its extension is still queued, unchanged. */
  lemma FinalizeCoverOld<V(!new)>(g: WeightedGraph<V>, s: V, st: Run<V>, e: PathExtension<V>, u: V, w: V)
    requires ShapeInv(g, s, st) && CoverInv(g, s, st) && ExtensionOk(g, s, st, e) && e.destination !in st.finalized
    requires e.destination in g
    requires u in st.dic && u in g && w in g[u] && w !in st.finalized && w != e.destination
    ensures Along(g, s, Finalize(g, st, e), u, w) in Finalize(g, st, e).queue
  {
    var st' := Finalize(g, st, e);
    var x := Along(g, s, st, u, w);
    assert x in st.queue;
    RemoveOther(st.queue, x, e);
    assert Base(st', s, u) == Base(st, s, u);
    assert Along(g, s, st', u, w) == x;
  }

  /** Every recorded cost, the new one included, is at most the popped cost. */
  lemma FinalizeMonoRecorded<V(!new)>(g: WeightedGraph<V>, st: Run<V>, e: PathExtension<V>)
    requires MonoInv(st) && e in st.queue && e.destination in g
    ensures forall u | u in Finalize(g, st, e).dic :: Finalize(g, st, e).dic[u].0 <= e.totalCost
  {
  }

  /** Every queued cost, old or new, is at least the popped cost. */
  lemma FinalizeMonoQueued<V(!new)>(g: WeightedGraph<V>, st: Run<V>, e: PathExtension<V>)
    requires Cheapest(st, e) && e.destination in g
    ensures forall x | x in Finalize(g, st, e).queue :: e.totalCost <= x.totalCost
  {
    var added := Expand(g, e.destination, e.totalCost, e.path);
    forall x | x in Finalize(g, st, e).queue
      ensures e.totalCost <= x.totalCost
    {
      if x !in added {
        assert x in st.queue;
      }
    }
  }

  lemma FinalizeMono<V(!new)>(g: WeightedGraph<V>, s: V, st: Run<V>, e: PathExtension<V>)
    requires MonoInv(st) && Cheapest(st, e) && e.destination in g
    ensures MonoInv(Finalize(g, st, e))
  {
    FinalizeMonoRecorded(g, st, e);
    FinalizeMonoQueued(g, st, e);
  }

  lemma FinalizeWitness<V(!new)>(g: WeightedGraph<V>, s: V, st: Run<V>, e: PathExtension<V>)
    requires ShapeInv(g, s, st) && WitnessInv(g, s, st) && ExtensionOk(g, s, st, e)
    requires e.destination !in st.finalized
    ensures e.destination in g
    ensures Walk(g, s, e.destination, e.path) && Weight(g, e.path) == e.totalCost
    ensures WitnessInv(g, s, Finalize(g, st, e))
  {
    FinalizeShape(g, s, st, e);
    var u := e.source;
    var b := Base(st, s, u);
    assert Walk(g, s, u, b);
    SnocPath(g, b, e.destination);
    assert (b + [e.destination])[0] == b[0];
  }

  /**
   * The heart of the algorithm: a path to the popped destination must leave
   * the finalized set along some edge, whose extension is queued and costs
   * no more than the path, so the cheapest extension costs no more either.
   */
  lemma FinalizeOptimal<V(!new)>(g: WeightedGraph<V>, s: V, st: Run<V>, e: PathExtension<V>)
    requires Inv(g, s, st) && Cheapest(st, e) && e.destination !in st.finalized
    ensures Optimal(g, s, e.destination, e.totalCost)
  {
    forall p | Walk(g, s, e.destination, p)
      ensures e.totalCost <= Weight(g, p)
    {
      CheapestBelowWalk(g, s, st, e, p);
    }
  }

  /** One path to the popped destination costs at least the popped extension, by its first edge leaving the finalized set. */
  lemma CheapestBelowWalk<V(!new)>(g: WeightedGraph<V>, s: V, st: Run<V>, e: PathExtension<V>, p: seq<V>)
    requires ShapeInv(g, s, st) && CoverInv(g, s, st) && OptimalInv(g, s, st)
    requires Cheapest(st, e) && e.destination !in st.finalized
    requires Walk(g, s, e.destination, p)
    ensures e.totalCost <= Weight(g, p)
  {
    var i := Crossing(g, s, e.destination, p, st.finalized);
    var u, w := p[i - 1], p[i];
    var q := p[..i + 1];
    assert IsPath(g, q) && Weight(g, q) <= Weight(g, p) by {
      PrefixWeight(g, p, i + 1);
    }
    PrefixPath(g, p, i);
    assert q[..i] == p[..i];
    assert Weight(g, q) == Weight(g, p[..i]) + g[u][w];
    assert st.dic[u].0 <= Weight(g, p[..i]) by {
      assert Walk(g, s, u, p[..i]);
    }
    assert e.totalCost <= st.dic[u].0 + g[u][w] by {
      assert Along(g, s, st, u, w) in st.queue;
    }
  }

  lemma FinalizeKeeps<V(!new)>(g: WeightedGraph<V>, s: V, st: Run<V>, e: PathExtension<V>)
    requires Inv(g, s, st) && Cheapest(st, e) && e.destination !in st.finalized
    ensures e.destination in g
    ensures Inv(g, s, Finalize(g, st, e))
    ensures |Finalize(g, st, e).remaining| < |st.remaining|
  {
    assert ExtensionOk(g, s, st, e);
    FinalizeShape(g, s, st, e);
    FinalizeQueue(g, s, st, e);
    FinalizeCover(g, s, st, e);
    FinalizeMono(g, s, st, e);
    FinalizeWitness(g, s, st, e);
    FinalizeOptimal(g, s, st, e);
    var st' := Finalize(g, st, e);
    forall x | x in st'.dic
      ensures Optimal(g, s, x, st'.dic[x].0)
    {
      if x != e.destination {
        assert Optimal(g, s, x, st.dic[x].0);
      }
    }
    assert st.remaining - {e.destination} < st.remaining;
  }

  /** The state after popping `e`: discarded if its destination is finalized, else finalized. */
  function Next<V(!new)>(g: WeightedGraph<V>, st: Run<V>, e: PathExtension<V>): Run<V>
    requires e.destination in st.finalized || e.destination in g
  {
    if e.destination in st.finalized then st.(queue := st.queue - multiset{e}) else Finalize(g, st, e)
  }

  /** Popping a cheapest extension keeps the invariant and makes progress. */
  lemma StepKeeps<V(!new)>(g: WeightedGraph<V>, s: V, st: Run<V>, e: PathExtension<V>)
    requires Inv(g, s, st) && Cheapest(st, e)
    ensures e.destination in st.finalized || e.destination in g
    ensures Inv(g, s, Next(g, st, e))
    ensures Next(g, st, e).remaining <= st.remaining
    ensures |Next(g, st, e).remaining| < |st.remaining|
            || (Next(g, st, e).remaining == st.remaining && |Next(g, st, e).queue| < |st.queue|)
  {
    if e.destination in st.finalized {
      DiscardKeeps(g, s, st, e);
    } else {
      FinalizeKeeps(g, s, st, e);
    }
  }

  /**
   * One round of the loop on a non-empty queue: pop an extension of least
   * cost; discard it if its destination is finalized, else finalize the
   * destination and queue its successors.
   */
  method Step<V(!new)>(g: WeightedGraph<V>, s: V, st: Run<V>) returns (st': Run<V>)
    requires Inv(g, s, st) && st.queue != multiset{}
    ensures Inv(g, s, st')
    ensures st'.remaining <= st.remaining
    ensures |st'.remaining| < |st.remaining| || (st'.remaining == st.remaining && |st'.queue| < |st.queue|)
    ensures forall u | u in st.dic :: u in st'.dic && st'.dic[u] == st.dic[u]
    ensures forall u, w | u in st'.dic && u !in st.dic && w in st'.dic && w !in st.dic :: u == w
  {
    LeastExists(st.queue);
    var e :| Least(st.queue, e);
    LeastCheapest(st, e);
    StepKeeps(g, s, st, e);
    NextKeepsRecords(g, st, e);
    st' := Next(g, st, e);
  }

  /**
   * Lazy deletion: a pop records at most its own destination and never
   * overwrites a vertex already recorded, so each vertex is recorded once.
   */
  lemma NextKeepsRecords<V(!new)>(g: WeightedGraph<V>, st: Run<V>, e: PathExtension<V>)
    requires st.finalized == st.dic.Keys && (e.destination in st.finalized || e.destination in g)
    ensures forall u | u in st.dic :: u in Next(g, st, e).dic && Next(g, st, e).dic[u] == st.dic[u]
    ensures Next(g, st, e).dic.Keys == st.dic.Keys + {e.destination}
  {
  }

  /** The recorded costs and paths of a run are shortest. */
  ghost predicate ShortestPaths<V(!new)>(g: WeightedGraph<V>, s: V, m: map<V, (nat, seq<V>)>) {
    s in m && m[s] == (0, [])
    && (forall v | v in m && v != s :: Walk(g, s, v, m[v].1) && Weight(g, m[v].1) == m[v].0)
    && forall v | v in m :: Optimal(g, s, v, m[v].0)
  }

  lemma InvShortest<V(!new)>(g: WeightedGraph<V>, s: V, st: Run<V>)
    requires Inv(g, s, st)
    ensures ShortestPaths(g, s, st.dic)
    ensures forall v | v in st.dic :: Reachable(g, s, v)
  {
    forall v | v in st.dic
      ensures Reachable(g, s, v)
    {
      assert Walk(g, s, v, Base(st, s, v));
    }
  }

  /** With the queue empty, the finalized set is closed under successors. */
  lemma DrainedHoldsReachable<V(!new)>(g: WeightedGraph<V>, s: V, st: Run<V>, v: V)
    requires Inv(g, s, st) && st.queue == multiset{} && Reachable(g, s, v)
    ensures v in st.finalized
  {
    forall u, w | u in st.finalized && u in g && w in g[u]
      ensures w in st.finalized
    {
      assert Along(g, s, st, u, w) !in st.queue;
    }
    ClosedHoldsReachable(g, s, st.finalized, v);
  }

  /** A vertex still remaining when the queue runs dry is unreachable. */
  lemma DrainedMissesRemaining<V(!new)>(g: WeightedGraph<V>, s: V, st: Run<V>)
    requires Inv(g, s, st) && st.queue == multiset{} && st.remaining != {}
    ensures exists v | v in g :: !Reachable(g, s, v)
  {
    var v :| v in st.remaining;
    assert v in g && v !in st.finalized;
    if Reachable(g, s, v) {
      DrainedHoldsReachable(g, s, st, v);
    }
  }

  /** With nothing remaining every vertex is finalized, so every vertex is reachable. */
  lemma AllFinalized<V(!new)>(g: WeightedGraph<V>, s: V, st: Run<V>)
    requires Inv(g, s, st) && st.remaining == {}
    ensures !exists v | v in g :: !Reachable(g, s, v)
    ensures st.dic.Keys == g.Keys && ShortestPaths(g, s, st.dic)
  {
    InvShortest(g, s, st);
    forall v | v in g
      ensures v in st.dic
    {
      assert v !in st.remaining;
    }
    assert st.dic.Keys == g.Keys;
    forall v | v in g
      ensures Reachable(g, s, v)
    {
      assert v in st.dic;
    }
  }

  /**
   * `dijkstraPaths` as written: the loop runs while vertices remain
   * unfinalized, so when one is unreachable the queue runs dry first and
   * `first()` on the empty queue fails. An unknown source fails in
   * `successors`.
   */
  method DijkstraPathsAsWritten<V(!new)>(g: WeightedGraph<V>, s: V) returns (r: Result<map<V, (nat, seq<V>)>>)
    requires Closed(g)
    ensures r.Err? <==> s !in g || exists v | v in g :: !Reachable(g, s, v)
    ensures r.Err? ==> r.error == (if s !in g then GraphException else EmptyPriorityQueueException)
    ensures r.Ok? ==> r.value.Keys == g.Keys && ShortestPaths(g, s, r.value)
  {
    if s !in g {
      return Err(GraphException);
    }
    StartKeeps(g, s);
    var st := Start(g, s);
    while st.remaining != {}
      invariant Inv(g, s, st)
      decreases |st.remaining|, |st.queue|
    {
      if st.queue == multiset{} {
        DrainedMissesRemaining(g, s, st);
        return Err(EmptyPriorityQueueException);
      }
      st := Step(g, s, st);
    }
    AllFinalized(g, s, st);
    return Ok(st.dic);
  }

  /**
   * `dijkstraPaths` with the loop also stopping when the queue empties: the
   * result maps exactly the reachable vertices to their shortest cost and a
   * shortest path (the source to cost 0 and the empty path).
   */
  method DijkstraPaths<V(!new)>(g: WeightedGraph<V>, s: V) returns (r: Result<map<V, (nat, seq<V>)>>)
    requires Closed(g)
    ensures r.Err? <==> s !in g
    ensures r.Err? ==> r.error == GraphException
    ensures r.Ok? ==> forall v :: v in r.value <==> Reachable(g, s, v)
    ensures r.Ok? ==> ShortestPaths(g, s, r.value)
  {
    if s !in g {
      return Err(GraphException);
    }
    StartKeeps(g, s);
    var st := Start(g, s);
    while st.remaining != {} && st.queue != multiset{}
      invariant Inv(g, s, st)
      decreases |st.remaining|, |st.queue|
    {
      st := Step(g, s, st);
    }
    InvShortest(g, s, st);
    forall v | Reachable(g, s, v)
      ensures v in st.dic
    {
      if st.queue == multiset{} {
        DrainedHoldsReachable(g, s, st, v);
      } else {
        var p :| Walk(g, s, v, p);
        WalkEndsInGraph(g, s, v, p);
      }
    }
    return Ok(st.dic);
  }

  /** The costs of a path-carrying result. */
  function Costs<V>(m: map<V, (nat, seq<V>)>): (c: map<V, nat>)
    ensures c.Keys == m.Keys
    ensures forall v | v in c :: c[v] == m[v].0
  {
    map v | v in m :: m[v].0
  }

  /** Shortest recorded paths give shortest costs. */
  lemma CostsShortest<V(!new)>(g: WeightedGraph<V>, s: V, m: map<V, (nat, seq<V>)>)
    requires ShortestPaths(g, s, m)
    ensures forall v | v in m :: Shortest(g, s, v, m[v].0)
  {
    forall v | v in m
      ensures Shortest(g, s, v, m[v].0)
    {
      if v == s {
        assert Walk(g, s, s, [s]) && Weight(g, [s]) == 0;
      } else {
        assert Walk(g, s, v, m[v].1);
      }
    }
  }

  /**
   * `dijkstra` as written: its loop (Dijkstra.java:80-81) differs from
   * `dijkstraPaths` only in carrying costs without paths, so it is the
   * paths loop as written projected through `Costs`, with the same failure
   * on an unreachable vertex.
   */
  method DijkstraAsWritten<V(!new)>(g: WeightedGraph<V>, s: V) returns (r: Result<map<V, nat>>)
    requires Closed(g)
    ensures r.Err? <==> s !in g || exists v | v in g :: !Reachable(g, s, v)
    ensures r.Err? ==> r.error == (if s !in g then GraphException else EmptyPriorityQueueException)
    ensures r.Ok? ==> r.value.Keys == g.Keys && r.value[s] == 0
    ensures r.Ok? ==> forall v | v in r.value :: Shortest(g, s, v, r.value[v])
  {
    var paths := DijkstraPathsAsWritten(g, s);
    if paths.Err? {
      return Err(paths.error);
    }
    CostsShortest(g, s, paths.value);
    return Ok(Costs(paths.value));
  }

  /**
   * `dijkstra` with the loop also stopping when the queue empties: exactly
   * the reachable vertices, each with its shortest-path cost; the source
   * costs 0.
   */
  method Dijkstra<V(!new)>(g: WeightedGraph<V>, s: V) returns (r: Result<map<V, nat>>)
    requires Closed(g)
    ensures r.Err? <==> s !in g
    ensures r.Err? ==> r.error == GraphException
    ensures r.Ok? ==> forall v :: v in r.value <==> Reachable(g, s, v)
    ensures r.Ok? ==> s in r.value && r.value[s] == 0
    ensures r.Ok? ==> forall v | v in r.value :: Shortest(g, s, v, r.value[v])
  {
    var paths := DijkstraPaths(g, s);
    if paths.Err? {
      return Err(paths.error);
    }
    CostsShortest(g, s, paths.value);
    return Ok(Costs(paths.value));
  }
}
