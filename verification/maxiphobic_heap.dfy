/**
 * A maxiphobic heap: a mergeable min-heap kept as a binary tree whose nodes
 * cache the weight (number of nodes) of the subtree they root.
 *
 * Merging two non-empty trees keeps the smaller root; of the three candidate
 * subtrees left over (the winner's two children and the whole losing tree)
 * the heaviest becomes the left child unchanged and the other two are merged
 * recursively into the right child.
 *
 * Elements are `int` under their natural order, which stands for the heap's
 * comparator.
 */
module MaxiphobicHeap {
  import opened Wrappers

  /** `Empty` is the null reference; `weight` is the node's cached weight. */
  datatype Tree = Empty | Node(element: int, weight: int, left: Tree, right: Tree)

  /** The source's `weight(node)`: 0 for null, otherwise the cached field. */
  function Weight(t: Tree): int {
    if t.Empty? then 0 else t.weight
  }

  /** Number of nodes, counted structurally (it does not trust the cache). */
  function Count(t: Tree): nat {
    match t
    case Empty => 0
    case Node(_, _, l, r) => 1 + Count(l) + Count(r)
  }

  /** The multiset of elements stored in a tree. */
  function Elements(t: Tree): multiset<int> {
    match t
    case Empty => multiset{}
    case Node(x, _, l, r) => multiset{x} + Elements(l) + Elements(r)
  }

  /** Every node caches `1 + weight(left) + weight(right)`. */
  ghost predicate WeightsCached(t: Tree) {
    match t
    case Empty => true
    case Node(_, w, l, r) => w == 1 + Weight(l) + Weight(r) && WeightsCached(l) && WeightsCached(r)
  }

  /** Min-heap property: a node is smaller than or equal to its children. */
  ghost predicate HeapOrdered(t: Tree) {
    match t
    case Empty => true
    case Node(x, _, l, r) =>
      && (l.Node? ==> x <= l.element)
      && (r.Node? ==> x <= r.element)
      && HeapOrdered(l) && HeapOrdered(r)
  }

  ghost predicate Valid(t: Tree) {
    WeightsCached(t) && HeapOrdered(t)
  }

  lemma {:induction false} WeightIsCount(t: Tree)
    requires WeightsCached(t)
    ensures Weight(t) == Count(t) == |Elements(t)|
  {
    match t
    case Empty =>
    case Node(_, _, l, r) =>
      WeightIsCount(l);
      WeightIsCount(r);
  }

  lemma {:induction false} RootIsMinimum(t: Tree)
    requires HeapOrdered(t) && t.Node?
    ensures forall y | y in Elements(t) :: t.element <= y
  {
    match t
    case Node(x, _, l, r) =>
      if l.Node? { RootIsMinimum(l); }
      if r.Node? { RootIsMinimum(r); }
  }

  /**
   * The maxiphobic merge. With `w` the operand with the smaller root (the
   * first operand on a tie, since the operands are swapped only when the
   * first root compares greater) and `l` the other one, the heaviest of
   * `w.left`, `w.right` and `l` becomes the left child and the other two are
   * merged into the right child; the new weight is the sum of both weights.
   */
  function Merge(a: Tree, b: Tree): (r: Tree)
    ensures a.Empty? ==> r == b
    ensures b.Empty? ==> r == a
    ensures Elements(r) == Elements(a) + Elements(b)
    decreases Count(a) + Count(b)
  {
    if a.Empty? then b
    else if b.Empty? then a
    else
      var w, l := Winner(a, b), Loser(a, b);
      var c := Arrange(w.left, w.right, l);
      var m := Merge(c.light, c.other);
      var r := Node(w.element, w.weight + l.weight, c.heavy, m);
      calc {
        Elements(r);
        multiset{w.element} + Elements(c.heavy) + Elements(m);
        multiset{w.element} + (Elements(c.heavy) + Elements(c.light) + Elements(c.other));
        multiset{w.element} + (Elements(w.left) + Elements(w.right) + Elements(l));
        Elements(w) + Elements(l);
      }
      r
  }

  /** The operand whose root survives: the second one only if the first compares greater. */
  function Winner(a: Tree, b: Tree): (w: Tree)
    requires a.Node? && b.Node?
    ensures w.Node?
  {
    if a.element > b.element then b else a
  }

  function Loser(a: Tree, b: Tree): (l: Tree)
    requires a.Node? && b.Node?
    ensures l.Node? && Winner(a, b).element <= l.element
    ensures Elements(Winner(a, b)) + Elements(l) == Elements(a) + Elements(b)
    ensures Count(Winner(a, b)) + Count(l) == Count(a) + Count(b)
  {
    if a.element > b.element then a else b
  }

  /** The three candidate subtrees, heaviest first. */
  datatype Candidates = Candidates(heavy: Tree, light: Tree, other: Tree)

  /**
   * The two conditional swaps of the source: first `tree1`/`tree2` when the
   * second is heavier, then `tree1`/`tree3` when the third is heavier. The
   * result is a rearrangement of its arguments whose first component is
   * at least as heavy as each argument.
   */
  function Arrange(t1: Tree, t2: Tree, t3: Tree): (c: Candidates)
    ensures Elements(c.heavy) + Elements(c.light) + Elements(c.other)
            == Elements(t1) + Elements(t2) + Elements(t3)
    ensures Count(c.heavy) + Count(c.light) + Count(c.other) == Count(t1) + Count(t2) + Count(t3)
    ensures c.heavy == t1 || c.heavy == t2 || c.heavy == t3
    ensures Weight(c.heavy) >= Weight(t1) && Weight(c.heavy) >= Weight(t2) && Weight(c.heavy) >= Weight(t3)
    ensures Weight(c.heavy) + Weight(c.light) + Weight(c.other) == Weight(t1) + Weight(t2) + Weight(t3)
    ensures (c.light == t1 || c.light == t2 || c.light == t3) && (c.other == t1 || c.other == t2 || c.other == t3)
  {
    var (a1, a2) := if Weight(t2) > Weight(t1) then (t2, t1) else (t1, t2);
    var (b1, b3) := if Weight(t3) > Weight(a1) then (t3, a1) else (a1, t3);
    Candidates(b1, a2, b3)
  }

  /**
   * The shape of a merge of two non-empty trees: the root is the smaller root
   * (the first operand's on a tie), the weights add up, and the left child is
   * the heaviest of the three candidates, each of which it outweighs.
   */
  lemma MergeShape(a: Tree, b: Tree)
    requires a.Node? && b.Node?
    ensures var r, w, l := Merge(a, b), Winner(a, b), Loser(a, b);
            && (a.element <= b.element ==> w == a && l == b)
            && (a.element > b.element ==> w == b && l == a)
            && r.Node? && r.element == w.element
            && r.element <= a.element && r.element <= b.element
            && r.weight == w.weight + l.weight
            && r.left in {w.left, w.right, l}
            && Weight(r.left) >= Weight(w.left)
            && Weight(r.left) >= Weight(w.right)
            && Weight(r.left) >= Weight(l)
  {
  }

  /** Merge preserves the cached weights and the heap order, and adds the weights. */
  lemma {:induction false} MergeValid(a: Tree, b: Tree)
    requires Valid(a) && Valid(b)
    ensures Valid(Merge(a, b))
    ensures Weight(Merge(a, b)) == Weight(a) + Weight(b)
    decreases Count(a) + Count(b)
  {
    if a.Node? && b.Node? {
      var w, l := Winner(a, b), Loser(a, b);
      var c := Arrange(w.left, w.right, l);
      CandidatesBelow(a, b);
      MergeValid(c.light, c.other);
      var m := Merge(c.light, c.other);
      assert Below(w.element, m) by {
        if c.light.Node? && c.other.Node? { MergeShape(c.light, c.other); }
      }
      NodeValid(w.element, w.weight + l.weight, c.heavy, m);
    }
  }

  lemma CandidatesBelow(a: Tree, b: Tree)
    requires Valid(a) && Valid(b) && a.Node? && b.Node?
    ensures var w, l := Winner(a, b), Loser(a, b);
            var c := Arrange(w.left, w.right, l);
            && Below(w.element, c.heavy) && Below(w.element, c.light) && Below(w.element, c.other)
            && w.weight + l.weight == 1 + Weight(c.heavy) + Weight(c.light) + Weight(c.other)
  {
    var w, l := Winner(a, b), Loser(a, b);
    assert Below(w.element, w.left) && Below(w.element, w.right) && Below(w.element, l);
  }

  lemma NodeValid(x: int, wt: int, h: Tree, m: Tree)
    requires Below(x, h) && Below(x, m) && wt == 1 + Weight(h) + Weight(m)
    ensures Valid(Node(x, wt, h, m))
  {
  }

  /** `t` is a valid heap whose root, if any, is at least `x`. */
  ghost predicate Below(x: int, t: Tree) {
    Valid(t) && (t.Node? ==> x <= t.element)
  }

  /**
   * After a merge of two valid heaps the heavy (left) child holds at least a
   * third of the nodes below the root, which bounds the merge depth
   * logarithmically.
   */
  lemma MergeIsMaxiphobic(a: Tree, b: Tree)
    requires Valid(a) && Valid(b) && a.Node? && b.Node?
    ensures var r := Merge(a, b);
            r.Node? && 3 * Weight(r.left) >= Weight(r) - 1
            && Weight(r.right) == Weight(r) - 1 - Weight(r.left)
  {
    MergeValid(a, b);
    MergeShape(a, b);
  }

  // ---------------------------------------------------------------------
  // The heap object: a root reference (the comparator is the int order).
  // ---------------------------------------------------------------------

  datatype Heap = Heap(root: Tree)

  function EmptyHeap(): (h: Heap)
    ensures Valid(h.root) && Elements(h.root) == multiset{}
  {
    Heap(Empty)
  }

  function IsEmpty(h: Heap): (b: bool)
    requires Valid(h.root)
    ensures b <==> Elements(h.root) == multiset{}
  {
    h.root.Empty?
  }

  /** `size()` reads the cached weight of the root in constant time. */
  function Size(h: Heap): (n: int)
    requires Valid(h.root)
    ensures n == |Elements(h.root)|
  {
    WeightIsCount(h.root);
    Weight(h.root)
  }

  function Clear(h: Heap): (c: Heap)
    ensures Valid(c.root) && Elements(c.root) == multiset{}
  {
    Heap(Empty)
  }

  /** Insertion merges the root with a fresh singleton node. */
  function Insert(h: Heap, x: int): (r: Heap)
    requires Valid(h.root)
    ensures Valid(r.root)
    ensures Elements(r.root) == Elements(h.root) + multiset{x}
    ensures Size(r) == Size(h) + 1
  {
    MergeValid(h.root, Singleton(x));
    var m := Merge(h.root, Singleton(x));
    assert Elements(m) == Elements(h.root) + multiset{x} by {
      assert Elements(Singleton(x)) == multiset{x};
    }
    Heap(m)
  }

  function Minimum(h: Heap): (r: Result<int>)
    requires Valid(h.root)
    ensures r.Err? <==> Elements(h.root) == multiset{}
    ensures r.Err? ==> r.error == EmptyHeapException
    ensures r.Ok? ==> r.value in Elements(h.root)
                      && forall y | y in Elements(h.root) :: r.value <= y
  {
    if h.root.Empty? then Err(EmptyHeapException)
    else
      RootIsMinimum(h.root);
      Ok(h.root.element)
  }

  /** The root is dropped and its two children are merged. */
  function DeleteMinimum(h: Heap): (r: Result<Heap>)
    requires Valid(h.root)
    ensures r.Err? <==> Elements(h.root) == multiset{}
    ensures r.Err? ==> r.error == EmptyHeapException
    ensures r.Ok? ==> && Valid(r.value.root)
                      && Elements(r.value.root) == Elements(h.root) - multiset{Minimum(h).value}
                      && Size(r.value) == Size(h) - 1
  {
    if h.root.Empty? then Err(EmptyHeapException)
    else
      WeightIsCount(h.root);
      Ok(Heap(MergeChildren(h.root)))
  }

  /** The two children of a node merged into one heap. */
  function MergeChildren(t: Tree): (r: Tree)
    requires Valid(t) && t.Node?
    ensures Valid(r) && Weight(r) == Weight(t) - 1
    ensures Elements(r) == Elements(t) - multiset{t.element}
  {
    MergeValid(t.left, t.right);
    Merge(t.left, t.right)
  }

  /**
   * Deleting the minimum until the heap is empty yields every element, in
   * non-decreasing order: the heap sorts.
   */
  function PopAll(h: Heap): (s: seq<int>)
    requires Valid(h.root)
    ensures multiset(s) == Elements(h.root)
    ensures NonDecreasing(s)
    decreases Count(h.root)
  {
    if IsEmpty(h) then []
    else
      var m := Minimum(h).value;
      var rest := DeleteMinimum(h).value;
      PopStep(h);
      var tail := PopAll(rest);
      PopStepSorted(m, tail, rest);
      [m] + tail
  }

  lemma PopStep(h: Heap)
    requires Valid(h.root) && h.root.Node?
    ensures Minimum(h).Ok? && DeleteMinimum(h).Ok?
    ensures var m, rest := Minimum(h).value, DeleteMinimum(h).value;
            && Count(rest.root) < Count(h.root)
            && m in Elements(h.root)
            && Elements(h.root) == multiset{m} + Elements(rest.root)
            && forall y | y in Elements(rest.root) :: m <= y
  {
    var m, rest := Minimum(h).value, DeleteMinimum(h).value;
    assert Count(rest.root) < Count(h.root) by {
      WeightIsCount(h.root);
      WeightIsCount(rest.root);
    }
    PutBack(Elements(h.root), m);
  }

  /** Taking out one copy of a member and adding it back restores the multiset. */
  lemma PutBack(a: multiset<int>, m: int)
    requires m in a
    ensures a == multiset{m} + (a - multiset{m})
  {
  }

  lemma PopStepSorted(m: int, tail: seq<int>, rest: Heap)
    requires multiset(tail) == Elements(rest.root)
    requires forall y | y in Elements(rest.root) :: m <= y
    requires NonDecreasing(tail)
    ensures multiset([m] + tail) == multiset{m} + Elements(rest.root)
    ensures NonDecreasing([m] + tail)
  {
    forall k | 0 <= k < |tail| ensures m <= tail[k] {
      assert tail[k] in multiset(tail);
    }
    ConsSorted(m, tail);
  }

  ghost predicate NonDecreasing(s: seq<int>) {
    forall i, j | 0 <= i < j < |s| :: s[i] <= s[j]
  }

  lemma ConsSorted(m: int, tail: seq<int>)
    requires forall i, j | 0 <= i < j < |tail| :: tail[i] <= tail[j]
    requires forall k | 0 <= k < |tail| :: m <= tail[k]
    ensures forall i, j | 0 <= i < j < |[m] + tail| :: ([m] + tail)[i] <= ([m] + tail)[j]
  {
    var s := [m] + tail;
    forall i, j | 0 <= i < j < |s| ensures s[i] <= s[j] {
      assert s[j] == tail[j - 1];
      if i > 0 { assert s[i] == tail[i - 1]; }
    }
  }

  // ---------------------------------------------------------------------
  // Bulk construction and copying.
  // ---------------------------------------------------------------------

  function Singleton(x: int): Tree {
    Node(x, 1, Empty, Empty)
  }

  /** The elements of a queue of trees, taken together. */
  function ForestElements(q: seq<Tree>): multiset<int> {
    if q == [] then multiset{} else Elements(q[0]) + ForestElements(q[1..])
  }

  lemma {:induction false} ForestElementsAppend(p: seq<Tree>, q: seq<Tree>)
    ensures ForestElements(p + q) == ForestElements(p) + ForestElements(q)
  {
    if p == [] {
      assert p + q == q;
    } else {
      assert (p + q)[1..] == p[1..] + q;
      ForestElementsAppend(p[1..], q);
    }
  }

  function Singletons(xs: seq<int>): (q: seq<Tree>)
    ensures |q| == |xs|
    ensures forall i | 0 <= i < |q| :: q[i] == Singleton(xs[i])
  {
    if xs == [] then [] else [Singleton(xs[0])] + Singletons(xs[1..])
  }

  lemma {:induction false} SingletonsElements(xs: seq<int>)
    ensures ForestElements(Singletons(xs)) == multiset(xs)
  {
    if xs != [] {
      assert xs == [xs[0]] + xs[1..];
      assert Singletons(xs)[1..] == Singletons(xs[1..]);
      assert Elements(Singletons(xs)[0]) == multiset{xs[0]};
      SingletonsElements(xs[1..]);
      assert multiset(xs) == multiset{xs[0]} + multiset(xs[1..]);
    }
  }

  /**
   * The private bulk `merge(comparator, nodes)` behind `of` and `from`: the
   * singleton nodes go into a FIFO queue; the two front trees are repeatedly
   * dequeued, merged, and the result enqueued, until one tree is left.
   */
  method Of(xs: seq<int>) returns (h: Heap)
    ensures Valid(h.root)
    ensures Elements(h.root) == multiset(xs)
    ensures h.root.Empty? <==> xs == []
  {
    if |xs| == 0 {
      return Heap(Empty);
    }
    var q := Singletons(xs);
    SingletonsElements(xs);
    forall i | 0 <= i < |q| ensures Valid(q[i]) {
      assert q[i] == Singleton(xs[i]);
    }
    while |q| > 1
      invariant |q| >= 1
      invariant forall i | 0 <= i < |q| :: Valid(q[i])
      invariant ForestElements(q) == multiset(xs)
      decreases |q|
    {
      QueueStep(q);
      q := q[2..] + [Merge(q[0], q[1])];
    }
    assert ForestElements(q) == Elements(q[0]) + ForestElements(q[1..]);
    assert q[1..] == [];
    h := Heap(q[0]);
  }

  /** One round of the bulk merge keeps every tree valid and the elements unchanged. */
  lemma QueueStep(q: seq<Tree>)
    requires |q| >= 2 && forall i | 0 <= i < |q| :: Valid(q[i])
    ensures var q' := q[2..] + [Merge(q[0], q[1])];
            && (forall i | 0 <= i < |q'| :: Valid(q'[i]))
            && ForestElements(q') == ForestElements(q)
  {
    var m := Merge(q[0], q[1]);
    MergeValid(q[0], q[1]);
    var q' := q[2..] + [m];
    forall i | 0 <= i < |q'| ensures Valid(q'[i]) {
      if i < |q'| - 1 { assert q'[i] == q[i + 2]; } else { assert q'[i] == m; }
    }
    ForestElementsAppend(q[2..], [m]);
    assert q[1..][1..] == q[2..];
    assert ForestElements([m]) == Elements(m) by {
      assert [m][1..] == [];
    }
  }

  /** `copyOf` rebuilds every node with the same element and weight. */
  function CopyTree(t: Tree): Tree {
    match t
    case Empty => Empty
    case Node(x, w, l, r) => Node(x, w, CopyTree(l), CopyTree(r))
  }

  lemma {:induction false} CopyTreeIsIdentical(t: Tree)
    ensures CopyTree(t) == t
  {
    match t
    case Empty =>
    case Node(_, _, l, r) =>
      CopyTreeIsIdentical(l);
      CopyTreeIsIdentical(r);
  }

  function CopyOf(h: Heap): (c: Heap)
    ensures c == h
  {
    CopyTreeIsIdentical(h.root);
    Heap(CopyTree(h.root))
  }
}
