/**
 * Recursive utilities over plain binary trees: size, height, sum, maximum,
 * occurrence count, leaves, the three depth-first traversals and the
 * breadth-first (level-order) traversal.
 */
module BinaryTree {
  import opened Wrappers

  /** `Nil` is the empty tree (a null root). */
  datatype Tree<T> = Nil | Node(element: T, left: Tree<T>, right: Tree<T>)

  function Elements<T>(t: Tree<T>): multiset<T> {
    match t
    case Nil => multiset{}
    case Node(x, l, r) => multiset{x} + Elements(l) + Elements(r)
  }

  function Size<T>(t: Tree<T>): nat {
    match t
    case Nil => 0
    case Node(_, l, r) => 1 + Size(l) + Size(r)
  }

  function Max(a: nat, b: nat): nat {
    if a >= b then a else b
  }

  function Height<T>(t: Tree<T>): nat {
    match t
    case Nil => 0
    case Node(_, l, r) => 1 + Max(Height(l), Height(r))
  }

  lemma {:induction false} SizeCountsElements<T>(t: Tree<T>)
    ensures Size(t) == |Elements(t)|
  {
    match t
    case Nil =>
    case Node(_, l, r) =>
      SizeCountsElements(l);
      SizeCountsElements(r);
  }

  lemma {:induction false} HeightAtMostSize<T>(t: Tree<T>)
    ensures Height(t) <= Size(t)
    ensures t.Node? ==> 1 <= Height(t)
  {
    match t
    case Nil =>
    case Node(_, l, r) =>
      HeightAtMostSize(l);
      HeightAtMostSize(r);
  }

  /** The sum of an integer tree (Java's `int` wrap-around is not modelled). */
  function Sum(t: Tree<int>): int {
    match t
    case Nil => 0
    case Node(x, l, r) => x + Sum(l) + Sum(r)
  }

  function SeqSum(s: seq<int>): int {
    if s == [] then 0 else s[0] + SeqSum(s[1..])
  }

  lemma {:induction false} SeqSumAppend(a: seq<int>, b: seq<int>)
    ensures SeqSum(a + b) == SeqSum(a) + SeqSum(b)
  {
    if a == [] {
      assert a + b == b;
    } else {
      assert (a + b)[0] == a[0];
      assert (a + b)[1..] == a[1..] + b;
      SeqSumAppend(a[1..], b);
    }
  }

  /** The recursive sum agrees with summing the preorder listing. */
  lemma {:induction false} SumIsSumOfPreorder(t: Tree<int>)
    ensures Sum(t) == SeqSum(Preorder(t))
  {
    match t
    case Nil =>
    case Node(x, l, r) =>
      SumIsSumOfPreorder(l);
      SumIsSumOfPreorder(r);
      SeqSumAppend([x], Preorder(l) + Preorder(r));
      SeqSumAppend(Preorder(l), Preorder(r));
      assert Preorder(t) == [x] + (Preorder(l) + Preorder(r));
  }

  /**
   * The maximum of a non-empty tree; the running maximum is replaced by a
   * child's maximum unless it compares strictly greater.
   */
  function Maximum(t: Tree<int>): (r: Result<int>)
    ensures r.Err? <==> t.Nil?
    ensures r.Err? ==> r.error == NoSuchElementException
    ensures r.Ok? ==> r.value in Elements(t) && forall y | y in Elements(t) :: y <= r.value
  {
    match t
    case Nil => Err(NoSuchElementException)
    case Node(x, l, r) =>
      var afterLeft :=
        if l.Nil? then x
        else var ml := Maximum(l).value; if x > ml then x else ml;
      var afterRight :=
        if r.Nil? then afterLeft
        else var mr := Maximum(r).value; if afterLeft > mr then afterLeft else mr;
      Ok(afterRight)
  }

  /** Occurrences of `x`, counted recursively. */
  function Count<T(==)>(t: Tree<T>, x: T): nat {
    match t
    case Nil => 0
    case Node(y, l, r) => Count(l, x) + Count(r, x) + (if x == y then 1 else 0)
  }

  lemma {:induction false} CountIsMultiplicity<T>(t: Tree<T>, x: T)
    ensures Count(t, x) == Elements(t)[x]
  {
    match t
    case Nil =>
    case Node(y, l, r) =>
      CountIsMultiplicity(l, x);
      CountIsMultiplicity(r, x);
  }

  // ---------------------------------------------------------------------
  // Depth-first listings.
  // ---------------------------------------------------------------------

  function Preorder<T>(t: Tree<T>): seq<T> {
    match t
    case Nil => []
    case Node(x, l, r) => [x] + Preorder(l) + Preorder(r)
  }

  function Inorder<T>(t: Tree<T>): seq<T> {
    match t
    case Nil => []
    case Node(x, l, r) => Inorder(l) + [x] + Inorder(r)
  }

  /** The intended postorder: children first, then the root. */
  function Postorder<T>(t: Tree<T>): seq<T> {
    match t
    case Nil => []
    case Node(x, l, r) => Postorder(l) + Postorder(r) + [x]
  }

  /**
   * `postorder` as written: the helper lists both children with the
   * preorder helper, so only the root is placed after its subtrees.
   */
  function PostorderAsWritten<T>(t: Tree<T>): seq<T> {
    match t
    case Nil => []
    case Node(x, l, r) => Preorder(l) + Preorder(r) + [x]
  }

  /** Each listing is a permutation of the tree's elements, of length `size`. */
  lemma {:induction false} PreorderIsPermutation<T>(t: Tree<T>)
    ensures multiset(Preorder(t)) == Elements(t) && |Preorder(t)| == Size(t)
  {
    match t
    case Nil =>
    case Node(x, l, r) =>
      PreorderIsPermutation(l);
      PreorderIsPermutation(r);
  }

  lemma {:induction false} InorderIsPermutation<T>(t: Tree<T>)
    ensures multiset(Inorder(t)) == Elements(t) && |Inorder(t)| == Size(t)
  {
    match t
    case Nil =>
    case Node(x, l, r) =>
      InorderIsPermutation(l);
      InorderIsPermutation(r);
  }

  lemma {:induction false} PostorderIsPermutation<T>(t: Tree<T>)
    ensures multiset(Postorder(t)) == Elements(t) && |Postorder(t)| == Size(t)
  {
    match t
    case Nil =>
    case Node(x, l, r) =>
      PostorderIsPermutation(l);
      PostorderIsPermutation(r);
  }

  /** Listing the children in preorder still lists every element once. */
  lemma PostorderAsWrittenIsPermutation<T>(t: Tree<T>)
    ensures multiset(PostorderAsWritten(t)) == Elements(t) && |PostorderAsWritten(t)| == Size(t)
  {
    match t
    case Nil =>
    case Node(x, l, r) =>
      PreorderIsPermutation(l);
      PreorderIsPermutation(r);
  }

  /** Preorder starts with the root; both postorders end with it. */
  lemma RootPositions<T>(t: Tree<T>)
    requires t.Node?
    ensures Preorder(t)[0] == t.element
    ensures Postorder(t)[|Postorder(t)| - 1] == t.element
    ensures PostorderAsWritten(t)[|PostorderAsWritten(t)| - 1] == t.element
  {
  }

  /** On a three-node chain the listing as written differs from the postorder. */
  lemma PostorderAsWrittenDiffers()
    ensures var t := Node(1, Node(2, Node(3, Nil, Nil), Nil), Nil);
            PostorderAsWritten(t) == [2, 3, 1] && Postorder(t) == [3, 2, 1]
  {
  }

  /** Whenever both children have at most one node, the two listings agree. */
  lemma {:induction false} PostorderAsWrittenAgreesOnShallowTrees<T>(t: Tree<T>)
    requires t.Node? && Size(t.left) <= 1 && Size(t.right) <= 1
    ensures PostorderAsWritten(t) == Postorder(t)
  {
    match t
    case Node(_, l, r) =>
      SmallTreeListings(l);
      SmallTreeListings(r);
  }

  lemma SmallTreeListings<T>(t: Tree<T>)
    requires Size(t) <= 1
    ensures Preorder(t) == Postorder(t)
  {
    match t
    case Nil =>
    case Node(x, l, r) =>
      assert l.Nil? && r.Nil?;
      assert Preorder(t) == [x] + [] + [];
      assert Postorder(t) == [] + [] + [x];
  }

  // ---------------------------------------------------------------------
  // Leaves.
  // ---------------------------------------------------------------------

  /** `leaves`: a childless node contributes its element, any other node its children's leaves. */
  function Leaves<T>(t: Tree<T>): seq<T> {
    match t
    case Nil => []
    case Node(x, l, r) =>
      if l.Nil? && r.Nil? then [x] else Leaves(l) + Leaves(r)
  }

  /** Every non-empty subtree, listed in preorder. */
  function Subtrees<T>(t: Tree<T>): seq<Tree<T>> {
    match t
    case Nil => []
    case Node(_, l, r) => [t] + Subtrees(l) + Subtrees(r)
  }

  /** The elements of the childless trees of a list, in list order. */
  function LeafElements<T>(ts: seq<Tree<T>>): seq<T> {
    if ts == [] then []
    else
      (if ts[0].Node? && ts[0].left.Nil? && ts[0].right.Nil? then [ts[0].element] else [])
      + LeafElements(ts[1..])
  }

  lemma {:induction false} LeafElementsAppend<T>(a: seq<Tree<T>>, b: seq<Tree<T>>)
    ensures LeafElements(a + b) == LeafElements(a) + LeafElements(b)
  {
    if a == [] {
      assert a + b == b;
    } else {
      assert (a + b)[0] == a[0];
      assert (a + b)[1..] == a[1..] + b;
      LeafElementsAppend(a[1..], b);
    }
  }

  /** `leaves` lists exactly the childless nodes, from left to right. */
  lemma {:induction false} LeavesAreChildlessNodes<T>(t: Tree<T>)
    ensures Leaves(t) == LeafElements(Subtrees(t))
  {
    match t
    case Nil =>
    case Node(x, l, r) =>
      LeavesAreChildlessNodes(l);
      LeavesAreChildlessNodes(r);
      LeafElementsAppend([t], Subtrees(l) + Subtrees(r));
      LeafElementsAppend(Subtrees(l), Subtrees(r));
      assert Subtrees(t) == [t] + (Subtrees(l) + Subtrees(r));
      assert LeafElements([t]) == (if l.Nil? && r.Nil? then [x] else []) by {
        assert [t][1..] == [];
      }
      if l.Nil? && r.Nil? {
        assert Subtrees(l) + Subtrees(r) == [];
      }
  }

  // ---------------------------------------------------------------------
  // Breadth-first traversal.
  // ---------------------------------------------------------------------

  /** Elements at depth `d`, left to right. */
  function Level<T>(t: Tree<T>, d: nat): seq<T> {
    match t
    case Nil => []
    case Node(x, l, r) => if d == 0 then [x] else Level(l, d - 1) + Level(r, d - 1)
  }

  /** Levels `d`, `d+1`, ... up to the height, one after another. */
  function LevelsFrom<T>(t: Tree<T>, d: nat): seq<T>
    decreases Height(t) - d
  {
    if d >= Height(t) then [] else Level(t, d) + LevelsFrom(t, d + 1)
  }

  /** The level-order listing: the root level first, each level left to right. */
  function LevelOrder<T>(t: Tree<T>): seq<T> {
    LevelsFrom(t, 0)
  }

  /** The total number of nodes of a queue of trees. */
  function ForestSize<T>(f: seq<Tree<T>>): nat {
    if f == [] then 0 else Size(f[0]) + ForestSize(f[1..])
  }

  function ForestElements<T>(f: seq<Tree<T>>): multiset<T> {
    if f == [] then multiset{} else Elements(f[0]) + ForestElements(f[1..])
  }

  /** What the source enqueues for one child: nothing for a null child. */
  function Enqueued<T>(c: Tree<T>): seq<Tree<T>> {
    if c.Nil? then [] else [c]
  }

  /** The non-empty children of a node, left first. */
  function Children<T>(t: Tree<T>): seq<Tree<T>> {
    if t.Nil? then [] else Enqueued(t.left) + Enqueued(t.right)
  }

  lemma {:induction false} ForestAppend<T>(a: seq<Tree<T>>, b: seq<Tree<T>>)
    ensures ForestSize(a + b) == ForestSize(a) + ForestSize(b)
    ensures ForestElements(a + b) == ForestElements(a) + ForestElements(b)
    decreases |a|
  {
    if a == [] {
      assert a + b == b;
    } else {
      assert (a + b)[0] == a[0];
      assert (a + b)[1..] == a[1..] + b;
      ForestAppend(a[1..], b);
    }
  }

  lemma ChildrenForest<T>(t: Tree<T>)
    requires t.Node?
    ensures ForestSize(Children(t)) + 1 == Size(t)
    ensures ForestElements(Children(t)) + multiset{t.element} == Elements(t)
  {
    ForestAppend(Enqueued(t.left), Enqueued(t.right));
    EnqueuedForest(t.left);
    EnqueuedForest(t.right);
  }

  lemma EnqueuedForest<T>(t: Tree<T>)
    ensures ForestSize(Enqueued(t)) == Size(t) && ForestElements(Enqueued(t)) == Elements(t)
  {
    if t.Node? {
      assert [t][1..] == [];
    }
  }

  /**
   * The queue-driven traversal as a function of the queue: the front tree's
   * element is listed and its non-empty children join the back.
   */
  function Bfs<T>(q: seq<Tree<T>>): seq<T>
    decreases ForestSize(q), |q|
  {
    if q == [] then []
    else
      ForestAppend([q[0]], q[1..]);
      assert [q[0]] + q[1..] == q;
      assert [q[0]][1..] == [];
      match q[0]
      case Nil => Bfs(q[1..])
      case Node(x, _, _) =>
        ChildrenForest(q[0]);
        ForestAppend(q[1..], Children(q[0]));
        [x] + Bfs(q[1..] + Children(q[0]))
  }

  /**
   * `breadthFirst`: a FIFO queue seeded with the root (if any); each dequeued
   * node's element is appended and its non-null children are enqueued.
   */
  method BreadthFirst<T>(t: Tree<T>) returns (list: seq<T>)
    ensures list == LevelOrder(t)
    ensures |list| == Size(t) && multiset(list) == Elements(t)
    ensures t.Node? ==> list[0] == t.element
  {
    list := [];
    var queue: seq<Tree<T>> := if t.Nil? then [] else [t];
    StartVisiting(t);
    while queue != []
      invariant Visiting(t, list, queue)
      decreases ForestSize(queue)
    {
      list, queue := Dequeue(t, list, queue);
    }
    FinishVisiting(t, list);
  }

  /** The queue seeded with the root starts the traversal. */
  lemma StartVisiting<T>(t: Tree<T>)
    ensures Visiting(t, [], if t.Nil? then [] else [t])
  {
    if t.Node? {
      assert [t][1..] == [];
    }
  }

  /** An empty queue ends the traversal with every element listed in level order. */
  lemma FinishVisiting<T>(t: Tree<T>, list: seq<T>)
    requires Visiting(t, list, [])
    ensures list == LevelOrder(t)
    ensures |list| == Size(t) && multiset(list) == Elements(t)
    ensures t.Node? ==> list[0] == t.element
  {
    SizeCountsElements(t);
    BfsIsLevelOrder(t);
  }


  /**
   * The traversal's state: the queue holds only nodes, what is listed
   * followed by the traversal of the queue is the traversal from the root,
   * and together they account for every element once.
   */
  ghost predicate Visiting<T>(t: Tree<T>, list: seq<T>, queue: seq<Tree<T>>) {
    AllNodes(queue)
    && list + Bfs(queue) == Bfs(if t.Nil? then [] else [t])
    && multiset(list) + ForestElements(queue) == Elements(t)
    && (t.Node? && list == [] ==> queue == [t])
    && (t.Node? && list != [] ==> list[0] == t.element)
  }

  /** The loop body: dequeue a node, list its element, enqueue its non-null children. */
  method Dequeue<T>(t: Tree<T>, list: seq<T>, queue: seq<Tree<T>>) returns (list': seq<T>, queue': seq<Tree<T>>)
    requires queue != [] && Visiting(t, list, queue)
    ensures Visiting(t, list', queue')
    ensures ForestSize(queue') < ForestSize(queue)
  {
    var cur := queue[0];
    QueueStep(queue);
    queue' := EnqueueNode(EnqueueNode(queue[1..], cur.left), cur.right);
    EnqueuedChildren(queue[1..], cur);
    ListingStep(list, queue, queue');
    ListingElements(list, queue, queue');
    list' := list + [cur.element];
  }

  ghost predicate AllNodes<T>(q: seq<Tree<T>>) {
    forall i | 0 <= i < |q| :: q[i].Node?
  }

  /** One dequeue step of the traversal. */
  lemma QueueStep<T>(q: seq<Tree<T>>)
    requires q != [] && q[0].Node?
    ensures AllNodes(q) ==> AllNodes(q[1..] + Children(q[0]))
    ensures Bfs(q) == [q[0].element] + Bfs(q[1..] + Children(q[0]))
    ensures ForestElements(q) == multiset{q[0].element} + ForestElements(q[1..] + Children(q[0]))
    ensures ForestSize(q[1..] + Children(q[0])) < ForestSize(q)
  {
    QueueStepForest(q);
    if AllNodes(q) {
      assert AllNodes(q[1..]) by {
        assert forall i | 0 <= i < |q| - 1 :: q[1..][i] == q[i + 1];
      }
      ChildrenAreNodes(q[0]);
      AllNodesAppend(q[1..], Children(q[0]));
    }
  }

  /** A node's children are all non-empty. */
  lemma ChildrenAreNodes<T>(t: Tree<T>)
    ensures AllNodes(Children(t))
  {
    if t.Node? {
      assert AllNodes(Enqueued(t.left)) && AllNodes(Enqueued(t.right));
      AllNodesAppend(Enqueued(t.left), Enqueued(t.right));
    }
  }

  /** Two queues of nodes make a queue of nodes. */
  lemma AllNodesAppend<T>(a: seq<Tree<T>>, b: seq<Tree<T>>)
    requires AllNodes(a) && AllNodes(b)
    ensures AllNodes(a + b)
  {
    forall i | 0 <= i < |a + b|
      ensures (a + b)[i].Node?
    {
      if i >= |a| {
        assert (a + b)[i] == b[i - |a|];
      }
    }
  }

  /** `if (child != null) queue.enqueue(child)`. */
  function EnqueueNode<T>(q: seq<Tree<T>>, c: Tree<T>): (r: seq<Tree<T>>)
    ensures r == q + Enqueued(c)
  {
    if c.Node? then q + [c] else q
  }

  /** Enqueuing a node's children one after the other enqueues `Children`. */
  lemma EnqueuedChildren<T>(q: seq<Tree<T>>, t: Tree<T>)
    requires t.Node?
    ensures EnqueueNode(EnqueueNode(q, t.left), t.right) == q + Children(t)
  {
    assert (q + Enqueued(t.left)) + Enqueued(t.right) == q + (Enqueued(t.left) + Enqueued(t.right));
  }

  /** The dequeued element is listed next and the rest of the traversal follows. */
  lemma ListingStep<T>(list: seq<T>, queue: seq<Tree<T>>, rest: seq<Tree<T>>)
    requires queue != [] && queue[0].Node?
    requires rest == queue[1..] + Children(queue[0])
    ensures list + Bfs(queue) == (list + [queue[0].element]) + Bfs(rest)
  {
    QueueStep(queue);
  }

  /** Listing the dequeued element accounts for it. */
  lemma ListingElements<T>(list: seq<T>, queue: seq<Tree<T>>, rest: seq<Tree<T>>)
    requires queue != [] && queue[0].Node?
    requires rest == queue[1..] + Children(queue[0])
    ensures multiset(list + [queue[0].element]) + ForestElements(rest)
            == multiset(list) + ForestElements(queue)
  {
    QueueStepForest(queue);
    assert multiset(list + [queue[0].element]) == multiset(list) + multiset{queue[0].element};
  }

  lemma QueueStepForest<T>(q: seq<Tree<T>>)
    requires q != [] && q[0].Node?
    ensures ForestElements(q) == multiset{q[0].element} + ForestElements(q[1..] + Children(q[0]))
    ensures ForestSize(q[1..] + Children(q[0])) < ForestSize(q)
  {
    ForestAppend(q[1..], Children(q[0]));
    ChildrenForest(q[0]);
    assert ForestElements(q) == Elements(q[0]) + ForestElements(q[1..]);
    assert ForestSize(q) == Size(q[0]) + ForestSize(q[1..]);
  }

  // Level-order lemmas over forests.

  function LevelF<T>(f: seq<Tree<T>>, d: nat): seq<T> {
    if f == [] then [] else Level(f[0], d) + LevelF(f[1..], d)
  }

  function HeightF<T>(f: seq<Tree<T>>): nat {
    if f == [] then 0 else Max(Height(f[0]), HeightF(f[1..]))
  }

  function LevelsFromF<T>(f: seq<Tree<T>>, d: nat): seq<T>
    decreases HeightF(f) - d
  {
    if d >= HeightF(f) then [] else LevelF(f, d) + LevelsFromF(f, d + 1)
  }

  /** The non-empty children of every tree of a queue, in queue order. */
  function Kids<T>(f: seq<Tree<T>>): seq<Tree<T>> {
    if f == [] then [] else Children(f[0]) + Kids(f[1..])
  }

  lemma ForestFunctionsAppend<T>(a: seq<Tree<T>>, b: seq<Tree<T>>, d: nat)
    ensures LevelF(a + b, d) == LevelF(a, d) + LevelF(b, d)
    ensures HeightF(a + b) == Max(HeightF(a), HeightF(b))
    ensures Kids(a + b) == Kids(a) + Kids(b)
  {
    LevelFAppend(a, b, d);
    HeightFAppend(a, b);
    KidsAppend(a, b);
  }

  lemma {:induction false} LevelFAppend<T>(a: seq<Tree<T>>, b: seq<Tree<T>>, d: nat)
    ensures LevelF(a + b, d) == LevelF(a, d) + LevelF(b, d)
  {
    if a == [] {
      assert a + b == b;
    } else {
      assert (a + b)[1..] == a[1..] + b;
      LevelFAppend(a[1..], b, d);
    }
  }


  lemma {:induction false} HeightFAppend<T>(a: seq<Tree<T>>, b: seq<Tree<T>>)
    ensures HeightF(a + b) == Max(HeightF(a), HeightF(b))
  {
    if a == [] {
      assert a + b == b;
    } else {
      assert (a + b)[0] == a[0] && (a + b)[1..] == a[1..] + b;
      HeightFAppend(a[1..], b);
    }
  }

  lemma {:induction false} KidsAppend<T>(a: seq<Tree<T>>, b: seq<Tree<T>>)
    ensures Kids(a + b) == Kids(a) + Kids(b)
  {
    if a == [] {
      assert a + b == b;
    } else {
      assert (a + b)[1..] == a[1..] + b;
      KidsAppend(a[1..], b);
    }
  }



  /** A queue is consumed by listing its roots, then traversing the rest followed by their children. */
  lemma {:induction false} BfsSplit<T>(f: seq<Tree<T>>, g: seq<Tree<T>>)
    ensures Bfs(f + g) == LevelF(f, 0) + Bfs(g + Kids(f))
    decreases |f|
  {
    if f == [] {
      assert f + g == g;
      assert g + Kids(f) == g;
    } else if f[0].Nil? {
      BfsSplit(f[1..], g);
      SplitSkip(f, g);
    } else {
      BfsSplit(f[1..], g + Children(f[0]));
      SplitVisit(f, g);
    }
  }

  /** `BfsSplit`'s step past an empty tree at the front. */
  lemma SplitSkip<T>(f: seq<Tree<T>>, g: seq<Tree<T>>)
    requires f != [] && f[0].Nil?
    requires Bfs(f[1..] + g) == LevelF(f[1..], 0) + Bfs(g + Kids(f[1..]))
    ensures Bfs(f + g) == LevelF(f, 0) + Bfs(g + Kids(f))
  {
    SkipFront(f, g);
    SkippedLevel(f);
    SkippedKids(f);
  }

  lemma SkippedLevel<T>(f: seq<Tree<T>>)
    requires f != [] && f[0].Nil?
    ensures LevelF(f, 0) == LevelF(f[1..], 0)
  {
    assert Level(f[0], 0) == [];
  }

  lemma SkippedKids<T>(f: seq<Tree<T>>)
    requires f != [] && f[0].Nil?
    ensures Kids(f) == Kids(f[1..])
  {
    assert Children(f[0]) == [];
  }

  /** An empty tree at the front of a queue is dropped. */
  lemma SkipFront<T>(f: seq<Tree<T>>, g: seq<Tree<T>>)
    requires f != [] && f[0].Nil?
    ensures Bfs(f + g) == Bfs(f[1..] + g)
  {
    FrontOfAppend(f, g, []);
    assert f[1..] + (g + []) == f[1..] + g;
    assert (f + g)[1..] + [] == (f + g)[1..];
  }

  /** `BfsSplit`'s step past a node at the front: its element is listed and its children join the back. */
  lemma SplitVisit<T>(f: seq<Tree<T>>, g: seq<Tree<T>>)
    requires f != [] && f[0].Node?
    requires Bfs(f[1..] + (g + Children(f[0]))) == LevelF(f[1..], 0) + Bfs(g + Children(f[0]) + Kids(f[1..]))
    ensures Bfs(f + g) == LevelF(f, 0) + Bfs(g + Kids(f))
  {
    VisitFront(f, g);
    KidsFront(f, g);
    assert LevelF(f, 0) == [f[0].element] + LevelF(f[1..], 0);
    Regroup([f[0].element], LevelF(f[1..], 0), Bfs(g + Kids(f)));
  }

  /** A node at the front of a queue is listed, and its children go to the back. */
  lemma VisitFront<T>(f: seq<Tree<T>>, g: seq<Tree<T>>)
    requires f != [] && f[0].Node?
    ensures Bfs(f + g) == [f[0].element] + Bfs(f[1..] + (g + Children(f[0])))
  {
    BfsVisit(f + g);
    FrontOfAppend(f, g, Children(f[0]));
  }

  /** The front of `f + g` is the front of `f`, and its tail followed by `c` regroups. */
  lemma FrontOfAppend<T>(f: seq<T>, g: seq<T>, c: seq<T>)
    requires f != []
    ensures (f + g)[0] == f[0]
    ensures (f + g)[1..] + c == f[1..] + (g + c)
  {
    assert (f + g)[1..] == f[1..] + g;
  }

  /** The children of the front tree come before those of the rest. */
  lemma KidsFront<T>(f: seq<Tree<T>>, g: seq<Tree<T>>)
    requires f != []
    ensures g + Children(f[0]) + Kids(f[1..]) == g + Kids(f)
  {
    assert Kids(f) == Children(f[0]) + Kids(f[1..]);
    Regroup(g, Children(f[0]), Kids(f[1..]));
  }

  /** Concatenation regroups to the left. */
  lemma Regroup<T>(a: seq<T>, b: seq<T>, c: seq<T>)
    ensures a + (b + c) == a + b + c
  {
  }

  /** Dequeuing a node lists its element and enqueues its children. */
  lemma BfsVisit<T>(q: seq<Tree<T>>)
    requires q != [] && q[0].Node?
    ensures Bfs(q) == [q[0].element] + Bfs(q[1..] + Children(q[0]))
  {
  }


  lemma {:induction false} ChildrenLevels<T>(t: Tree<T>, d: nat)
    ensures LevelF(Children(t), d) == (if t.Nil? then [] else Level(t, d + 1))
    ensures HeightF(Children(t)) == (if t.Nil? then 0 else Height(t) - 1)
  {
    match t
    case Nil =>
    case Node(_, l, r) =>
      var cl: seq<Tree<T>> := if l.Nil? then [] else [l];
      var cr: seq<Tree<T>> := if r.Nil? then [] else [r];
      ForestFunctionsAppend(cl, cr, d);
      assert LevelF(cl, d) == Level(l, d) && HeightF(cl) == Height(l) by {
        if l.Node? { assert cl[1..] == []; }
      }
      assert LevelF(cr, d) == Level(r, d) && HeightF(cr) == Height(r) by {
        if r.Node? { assert cr[1..] == []; }
      }
  }

  lemma {:induction false} KidsLevels<T>(f: seq<Tree<T>>, d: nat)
    ensures LevelF(Kids(f), d) == LevelF(f, d + 1)
    ensures HeightF(Kids(f)) == if HeightF(f) == 0 then 0 else HeightF(f) - 1
  {
    if f != [] {
      KidsLevels(f[1..], d);
      ChildrenLevels(f[0], d);
      ForestFunctionsAppend(Children(f[0]), Kids(f[1..]), d);
    }
  }

  lemma {:induction false} KidsLevelsFrom<T>(f: seq<Tree<T>>, d: nat)
    ensures LevelsFromF(Kids(f), d) == LevelsFromF(f, d + 1)
    decreases HeightF(f) - d
  {
    KidsLevels(f, d);
    if d + 1 < HeightF(f) {
      KidsLevelsFrom(f, d + 1);
    }
  }

  lemma {:induction false} LevelZeroIsRoots<T>(f: seq<Tree<T>>)
    ensures HeightF(f) == 0 ==> LevelF(f, 0) == [] && Kids(f) == []
  {
    if f != [] {
      LevelZeroIsRoots(f[1..]);
      ChildrenLevels(f[0], 0);
    }
  }

  lemma {:induction false} KidsSmaller<T>(f: seq<Tree<T>>)
    ensures ForestSize(Kids(f)) <= ForestSize(f)
    ensures HeightF(f) > 0 ==> ForestSize(Kids(f)) < ForestSize(f)
  {
    if f != [] {
      KidsSmaller(f[1..]);
      ForestAppend(Children(f[0]), Kids(f[1..]));
      if f[0].Node? { ChildrenForest(f[0]); }
    }
  }

  lemma {:induction false} BfsIsLevelsFromF<T>(f: seq<Tree<T>>)
    ensures Bfs(f) == LevelsFromF(f, 0)
    decreases ForestSize(f)
  {
    BfsFront(f);
    if HeightF(f) == 0 {
      assert LevelF(f, 0) == [] && Bfs(Kids(f)) == [] by {
        LevelZeroIsRoots(f);
      }
    } else {
      assert Bfs(Kids(f)) == LevelsFromF(f, 1) by {
        KidsSmaller(f);
        BfsIsLevelsFromF(Kids(f));
        KidsLevelsFrom(f, 0);
      }
      assert LevelsFromF(f, 0) == LevelF(f, 0) + LevelsFromF(f, 1);
    }
  }

  /** A breadth-first walk emits the queue's roots, then walks their children. */
  lemma BfsFront<T>(f: seq<Tree<T>>)
    ensures Bfs(f) == LevelF(f, 0) + Bfs(Kids(f))
  {
    BfsSplit(f, []);
    assert f + [] == f;
    assert [] + Kids(f) == Kids(f);
  }

  lemma {:induction false} SingleLevelsFrom<T>(t: Tree<T>, d: nat)
    ensures LevelsFromF([t], d) == LevelsFrom(t, d)
    decreases Height(t) - d
  {
    assert [t][1..] == [];
    assert HeightF([t]) == Height(t);
    assert LevelF([t], d) == Level(t, d);
    if d < Height(t) {
      SingleLevelsFrom(t, d + 1);
    }
  }

  lemma BfsIsLevelOrder<T>(t: Tree<T>)
    ensures Bfs(if t.Nil? then [] else [t]) == LevelOrder(t)
  {
    if t.Node? {
      BfsIsLevelsFromF([t]);
      SingleLevelsFrom(t, 0);
    }
  }
}
