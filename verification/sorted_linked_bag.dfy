/**
 * A sorted bag kept as a singly-linked chain of nodes, one per distinct
 * element with its count. The chain is modelled as its sequence of bins;
 * `last` is the element of the node the `last` pointer designates, which
 * after the sole node is deleted still names that node while the chain is
 * empty. `size` is the count the class keeps separately.
 */
module SortedLinkedBag {
  import opened Wrappers
  import opened SortedSeqs
  import opened Bins

  datatype LinkedBag = LinkedBag(comparatorId: nat, nodes: seq<Bin>, last: Option<int>, size: int)

  /**
   * The class invariant: ascending unique nodes with positive counts,
   * `size` their total, and `last` the final node whenever there is one.
   */
  ghost predicate Valid(b: LinkedBag) {
    WellFormed(b.nodes) && b.size == Total(b.nodes)
    && (b.nodes != [] ==> b.last == Some(b.nodes[|b.nodes| - 1].element))
  }

  function Elements(b: LinkedBag): multiset<int> {
    Contents(b.nodes)
  }

  function Size(b: LinkedBag): int {
    b.size
  }

  function IsEmpty(b: LinkedBag): bool {
    b.size == 0
  }

  lemma SizeIsCardinality(b: LinkedBag)
    requires Valid(b)
    ensures Size(b) == |Elements(b)|
    ensures IsEmpty(b) <==> b.nodes == []
  {
    TotalIsLength(b.nodes);
    TotalAtLeastLength(b.nodes);
  }

  function Empty(comparatorId: nat): (b: LinkedBag)
    ensures Valid(b) && Elements(b) == multiset{} && b.comparatorId == comparatorId
  {
    LinkedBag(comparatorId, [], None, 0)
  }

  function Clear(b: LinkedBag): (r: LinkedBag)
    ensures Valid(r) && Elements(r) == multiset{} && Size(r) == 0 && r.comparatorId == b.comparatorId
  {
    LinkedBag(b.comparatorId, [], None, 0)
  }

  // ---------------------------------------------------------------------
  // Facts about runs of bins used throughout.
  // ---------------------------------------------------------------------

  /** The tail of a well-formed run is well formed, and its head is absent from it. */
  lemma Rest(bs: seq<Bin>)
    requires WellFormed(bs) && bs != []
    ensures WellFormed(bs[1..])
    ensures Contents(bs) == Single(bs[0]) + Contents(bs[1..])
    ensures Contents(bs[1..])[bs[0].element] == 0
    ensures bs[1..] != [] ==> bs[0].element < bs[1].element
  {
    var rest := bs[1..];
    var ks := Keys(bs);
    assert StrictlyIncreasing(Keys(rest)) by {
      forall i, j | 0 <= i < j < |rest|
        ensures Keys(rest)[i] < Keys(rest)[j]
      {
        assert Keys(rest)[i] == ks[i + 1] && Keys(rest)[j] == ks[j + 1];
      }
    }
    Below(rest, bs[0].element);
  }

  /** Nothing below the first element occurs in a well-formed run. */
  lemma Below(bs: seq<Bin>, y: int)
    requires StrictlyIncreasing(Keys(bs)) && (bs == [] || y < bs[0].element)
    ensures Contents(bs)[y] == 0
    decreases |bs|
  {
    if bs != [] {
      var rest := bs[1..];
      assert Keys(rest) == Keys(bs)[1..];
      if rest != [] {
        assert Keys(bs)[0] < Keys(bs)[1];
      }
      Below(rest, y);
    }
  }

  /** A bin below the head of a well-formed run extends it. */
  lemma Cons(nb: Bin, bs: seq<Bin>)
    requires WellFormed(bs) && nb.occurrences >= 1
    requires bs == [] || nb.element < bs[0].element
    ensures WellFormed([nb] + bs) && Total([nb] + bs) == nb.occurrences + Total(bs)
    ensures Contents([nb] + bs) == Single(nb) + Contents(bs)
  {
    var cs := [nb] + bs;
    assert cs[1..] == bs;
    var ks := Keys(cs);
    assert ks == [nb.element] + Keys(bs);
    forall i, j | 0 <= i < j < |ks|
      ensures ks[i] < ks[j]
    {
      if i == 0 {
        assert Keys(bs)[0] <= Keys(bs)[j - 1];
      }
    }
  }

  // ---------------------------------------------------------------------
  // Finder, occurrences, minimum, maximum.
  // ---------------------------------------------------------------------

  /**
   * The Finder walks the chain while `x` is above the current node. The
   * returned `index` is the position of `current` (`|nodes|` for null);
   * `previous` is the node before it, null when `index` is 0.
   */
  method Finder(b: LinkedBag, x: int) returns (found: bool, index: nat)
    requires Valid(b)
    ensures found <==> x in Elements(b)
    ensures index == Position(Keys(b.nodes), x)
    ensures found ==> index < |b.nodes| && b.nodes[index].element == x
  {
    var ks := Keys(b.nodes);
    index := 0;
    while index < |b.nodes| && x > b.nodes[index].element
      invariant 0 <= index <= |b.nodes|
      invariant forall i | 0 <= i < index :: ks[i] < x
    {
      index := index + 1;
    }
    found := index < |b.nodes| && x == b.nodes[index].element;
    PositionSplits(ks, x);
    PositionUnique(ks, x, index);
    MemberAtPosition(ks, x);
    WellFormedMembers(b.nodes, x);
  }

  /** The index of the node holding `x`, or of the first node above it. */
  function Index(b: LinkedBag, x: int): nat {
    Position(Keys(b.nodes), x)
  }

  predicate Found(b: LinkedBag, x: int) {
    Index(b, x) < |b.nodes| && b.nodes[Index(b, x)].element == x
  }

  lemma FoundIsMember(b: LinkedBag, x: int)
    requires Valid(b)
    ensures Found(b, x) <==> x in Elements(b)
  {
    MemberAtPosition(Keys(b.nodes), x);
    WellFormedMembers(b.nodes, x);
  }

  function Occurrences(b: LinkedBag, x: int): (n: int)
    requires Valid(b)
    ensures n == Elements(b)[x]
  {
    FoundIsMember(b, x);
    ContentsCount(b.nodes, x);
    if Found(b, x) then b.nodes[Index(b, x)].occurrences else 0
  }

  /** The first node holds the least element and the last node the greatest. */
  lemma Extremes(bs: seq<Bin>)
    requires WellFormed(bs) && bs != []
    ensures bs[0].element in Contents(bs) && bs[|bs| - 1].element in Contents(bs)
    ensures forall y | y in Contents(bs) :: bs[0].element <= y <= bs[|bs| - 1].element
  {
    var ks := Keys(bs);
    WellFormedMembers(bs, bs[0].element);
    WellFormedMembers(bs, bs[|bs| - 1].element);
    forall y | y in Contents(bs)
      ensures bs[0].element <= y <= bs[|bs| - 1].element
    {
      WellFormedMembers(bs, y);
      var i :| 0 <= i < |ks| && ks[i] == y;
      assert ks[0] <= ks[i] <= ks[|bs| - 1];
    }
  }

  function Minimum(b: LinkedBag): (r: Result<int>)
    requires Valid(b)
    ensures r.Err? <==> Elements(b) == multiset{}
    ensures r.Err? ==> r.error == NoSuchElementException
    ensures r.Ok? ==> r.value in Elements(b) && forall y | y in Elements(b) :: r.value <= y
  {
    SizeIsCardinality(b);
    if IsEmpty(b) then Err(NoSuchElementException)
    else
      Extremes(b.nodes);
      Ok(b.nodes[0].element)
  }

  /** `maximum` reads the node `last` designates. */
  function Maximum(b: LinkedBag): (r: Result<int>)
    requires Valid(b)
    ensures r.Err? <==> Elements(b) == multiset{}
    ensures r.Err? ==> r.error == NoSuchElementException
    ensures r.Ok? ==> r.value in Elements(b) && forall y | y in Elements(b) :: y <= r.value
  {
    SizeIsCardinality(b);
    if IsEmpty(b) then Err(NoSuchElementException)
    else
      Extremes(b.nodes);
      Ok(b.last.value)
  }

  // ---------------------------------------------------------------------
  // Insertion and deletion.
  // ---------------------------------------------------------------------

  /**
   * `insert`: a found node's count goes up; otherwise a new node enters
   * before `current`, and `last` moves only when the bag was empty or the
   * new node goes at the end.
   */
  function Insert(b: LinkedBag, x: int): (r: LinkedBag)
    requires Valid(b)
    ensures Valid(r) && r.comparatorId == b.comparatorId
    ensures Elements(r) == Elements(b) + multiset{x}
    ensures Size(r) == Size(b) + 1
  {
    LinkedBag(b.comparatorId, Placed(b.nodes, x), InsertedLast(b, x), b.size + 1)
  }

  /** Where `last` points after `insert`: the new node when it is the only or the final one. */
  function InsertedLast(b: LinkedBag, x: int): (l: Option<int>)
    requires Valid(b)
    ensures var cs := Placed(b.nodes, x); l == Some(cs[|cs| - 1].element)
  {
    SizeIsCardinality(b);
    var p := Index(b, x);
    if Found(b, x) then b.last
    else if IsEmpty(b) then Some(x)
    else if p == 0 then b.last
    else if p == |b.nodes| then Some(x)
    else b.last
  }

  /** The chain with one more occurrence of `x`: its node bumped, or a new node at its position. */
  function Placed(bs: seq<Bin>, x: int): (cs: seq<Bin>)
    requires WellFormed(bs)
    ensures WellFormed(cs) && Total(cs) == Total(bs) + 1
    ensures Contents(cs) == Contents(bs) + multiset{x}
    ensures cs != [] && cs[|cs| - 1].element == if Position(Keys(bs), x) == |bs| then x else bs[|bs| - 1].element
  {
    var p := Position(Keys(bs), x);
    if p < |bs| && bs[p].element == x then Bumped(bs, p)
    else
      MemberAtPosition(Keys(bs), x);
      Added(bs, x)
  }

  /** The chain with one more occurrence in node `p`. */
  function Bumped(bs: seq<Bin>, p: nat): (cs: seq<Bin>)
    requires WellFormed(bs) && p < |bs|
    ensures WellFormed(cs) && Total(cs) == Total(bs) + 1
    ensures Contents(cs) == Contents(bs) + multiset{bs[p].element}
    ensures cs != [] && cs[|cs| - 1].element == bs[|bs| - 1].element
  {
    BumpBin(bs, p);
    bs[p := Bin(bs[p].element, bs[p].occurrences + 1)]
  }

  /** The chain with a new node for an absent `x` at its position. */
  function Added(bs: seq<Bin>, x: int): (cs: seq<Bin>)
    requires WellFormed(bs) && x !in Keys(bs)
    ensures WellFormed(cs) && Total(cs) == Total(bs) + 1
    ensures Contents(cs) == Contents(bs) + multiset{x}
    ensures cs != [] && cs[|cs| - 1].element == if Position(Keys(bs), x) == |bs| then x else bs[|bs| - 1].element
  {
    var p := Position(Keys(bs), x);
    AddBin(bs, x);
    var cs := bs[..p] + [Bin(x, 1)] + bs[p..];
    assert cs[|cs| - 1] == if p == |bs| then Bin(x, 1) else bs[|bs| - 1];
    cs
  }

  /**
   * `delete`: a found node's count goes down and a node reaching zero is
   * unlinked; `last` moves back only when the unlinked node was the final
   * node and not also the first.
   */
  function Delete(b: LinkedBag, x: int): (r: LinkedBag)
    requires Valid(b)
    ensures Valid(r) && r.comparatorId == b.comparatorId
    ensures Elements(r) == Elements(b) - multiset{x}
    ensures Size(r) == if x in Elements(b) then Size(b) - 1 else Size(b)
  {
    FoundIsMember(b, x);
    if !Found(b, x) then
      ContentsCount(b.nodes, x);
      b
    else
      Unlink(b, Index(b, x))
  }

  /** One occurrence fewer at node `p`, unlinking it when none remain. */
  function Unlink(b: LinkedBag, p: nat): (r: LinkedBag)
    requires Valid(b) && p < |b.nodes|
    ensures Valid(r) && r.comparatorId == b.comparatorId
    ensures Elements(r) == Elements(b) - multiset{b.nodes[p].element}
    ensures Size(r) == Size(b) - 1
  {
    var cs := DropOne(b.nodes, p);
    var l := UnlinkedLast(b, p);
    assert Total(cs) == b.size - 1;
    LinkedBag(b.comparatorId, cs, l, b.size - 1)
  }

  /** Where `last` points after `delete`: the predecessor when the final node was unlinked. */
  function UnlinkedLast(b: LinkedBag, p: nat): (l: Option<int>)
    requires Valid(b) && p < |b.nodes|
    ensures var cs := DropOne(b.nodes, p); cs != [] ==> l == Some(cs[|cs| - 1].element)
  {
    DropOneLast(b.nodes, p);
    if p == 0 then b.last
    else if p == |b.nodes| - 1 then (if b.nodes[p].occurrences > 1 then b.last else Some(b.nodes[p - 1].element))
    else b.last
  }

  /** The chain after node `p` loses one occurrence. */
  function DropOne(bs: seq<Bin>, p: nat): (cs: seq<Bin>)
    requires WellFormed(bs) && p < |bs|
    ensures WellFormed(cs) && Total(cs) == Total(bs) - 1
    ensures Contents(cs) == Contents(bs) - multiset{bs[p].element}
  {
    var n := bs[p].occurrences;
    if n > 1 then
      LowerBin(bs, p);
      bs[p := Bin(bs[p].element, n - 1)]
    else
      DropBin(bs, p);
      bs[..p] + bs[p + 1..]
  }

  /** The final node survives unless it was the one unlinked, when its predecessor becomes final. */
  lemma DropOneLast(bs: seq<Bin>, p: nat)
    requires WellFormed(bs) && p < |bs|
    ensures |DropOne(bs, p)| == if bs[p].occurrences == 1 then |bs| - 1 else |bs|
    ensures var cs := DropOne(bs, p);
            cs != [] ==>
              cs[|cs| - 1].element == if p == |bs| - 1 && bs[p].occurrences == 1 then bs[p - 1].element else bs[|bs| - 1].element
  {
    var n := bs[p].occurrences;
    var cs := DropOne(bs, p);
    if n > 1 {
      LastOfUpdate(bs, p, Bin(bs[p].element, n - 1), cs);
    } else {
      LastOfRemoval(bs, p, cs);
    }
  }

  /** Updating one position of a sequence leaves its last item alone unless that is the position updated. */
  lemma LastOfUpdate<T>(s: seq<T>, p: nat, v: T, t: seq<T>)
    requires p < |s| && t == s[p := v]
    ensures |t| == |s| && t[|t| - 1] == if p == |s| - 1 then v else s[|s| - 1]
  {
  }

  /** Removing one position of a sequence leaves its last item unless that is the one removed. */
  lemma LastOfRemoval<T>(s: seq<T>, p: nat, t: seq<T>)
    requires p < |s| && t == s[..p] + s[p + 1..]
    ensures |t| == |s| - 1
    ensures t != [] ==> t[|t| - 1] == if p == |s| - 1 then s[p - 1] else s[|s| - 1]
  {
    if p < |s| - 1 {
      assert t[|t| - 1] == s[p + 1..][|s| - 2 - p];
    }
  }

  /** Deleting the only occurrence of the only element empties the chain but leaves `last` naming it. */
  lemma DeleteSoleNodeLeavesLast(x: int)
    ensures var b := LinkedBag(0, [Bin(x, 1)], Some(x), 1);
            Valid(b) && Delete(b, x) == LinkedBag(0, [], Some(x), 0)
  {
    var b := LinkedBag(0, [Bin(x, 1)], Some(x), 1);
    OneBin(Bin(x, 1));
    assert Keys(b.nodes) == [x];
    assert Index(b, x) == 0;
  }

  /** `append`: for an element at least the maximum, bumps the last node or links a new one after it. */
  function Append(b: LinkedBag, x: int): (r: LinkedBag)
    requires Valid(b)
    requires b.nodes == [] || b.nodes[|b.nodes| - 1].element <= x
    ensures Valid(r) && r.comparatorId == b.comparatorId
    ensures Elements(r) == Elements(b) + multiset{x}
    ensures r.nodes != [] && r.nodes[|r.nodes| - 1].element == x
  {
    SizeIsCardinality(b);
    if IsEmpty(b) then LinkFirst(b.comparatorId, x)
    else if x == b.last.value then BumpLast(b)
    else LinkLast(b, x)
  }

  /** The first node of an empty chain, which `last` then designates. */
  function LinkFirst(comparatorId: nat, x: int): (r: LinkedBag)
    ensures Valid(r) && r.comparatorId == comparatorId
    ensures Elements(r) == multiset{x} && Expand(r.nodes) == [x]
    ensures r.nodes != [] && r.nodes[|r.nodes| - 1].element == x
  {
    OneBin(Bin(x, 1));
    assert Single(Bin(x, 1)) == multiset{x};
    assert Repeat(x, 1) == [x];
    LinkedBag(comparatorId, [Bin(x, 1)], Some(x), 1)
  }

  /** One more occurrence in the final node. */
  function BumpLast(b: LinkedBag): (r: LinkedBag)
    requires Valid(b) && b.nodes != []
    ensures Valid(r) && r.comparatorId == b.comparatorId
    ensures Elements(r) == Elements(b) + multiset{b.nodes[|b.nodes| - 1].element}
    ensures Expand(r.nodes) == Expand(b.nodes) + [b.nodes[|b.nodes| - 1].element]
    ensures r.nodes != [] && r.nodes[|r.nodes| - 1].element == b.nodes[|b.nodes| - 1].element
  {
    var cs := BumpedLast(b.nodes);
    LinkedBag(b.comparatorId, cs, b.last, b.size + 1)
  }

  /** The chain with one more occurrence in its final node. */
  function BumpedLast(bs: seq<Bin>): (cs: seq<Bin>)
    requires WellFormed(bs) && bs != []
    ensures WellFormed(cs) && Total(cs) == Total(bs) + 1
    ensures Contents(cs) == Contents(bs) + multiset{bs[|bs| - 1].element}
    ensures Expand(cs) == Expand(bs) + [bs[|bs| - 1].element]
    ensures cs != [] && cs[|cs| - 1].element == bs[|bs| - 1].element
  {
    var cs := Bumped(bs, |bs| - 1);
    BumpLastExpand(bs, cs);
    cs
  }

  /** A new node after the final one, which `last` then designates. */
  function LinkLast(b: LinkedBag, x: int): (r: LinkedBag)
    requires Valid(b) && b.nodes != [] && b.nodes[|b.nodes| - 1].element < x
    ensures Valid(r) && r.comparatorId == b.comparatorId
    ensures Elements(r) == Elements(b) + multiset{x}
    ensures Expand(r.nodes) == Expand(b.nodes) + [x]
    ensures r.nodes != [] && r.nodes[|r.nodes| - 1].element == x
  {
    LinkedBag(b.comparatorId, Linked(b.nodes, x), Some(x), b.size + 1)
  }

  /** The chain with a single occurrence of `x`, above all its elements, linked after it. */
  function Linked(bs: seq<Bin>, x: int): (cs: seq<Bin>)
    requires WellFormed(bs) && (bs == [] || bs[|bs| - 1].element < x)
    ensures WellFormed(cs) && Total(cs) == Total(bs) + 1
    ensures Contents(cs) == Contents(bs) + multiset{x}
    ensures Expand(cs) == Expand(bs) + [x]
    ensures cs != [] && cs[|cs| - 1].element == x
  {
    var nb := Bin(x, 1);
    Snoc(bs, nb);
    AppendContents(bs, [nb]);
    AppendExpand(bs, [nb]);
    OneBin(nb);
    assert Single(nb) == multiset{x};
    assert Repeat(x, 1) == [x];
    bs + [nb]
  }

  /** Appending adds one copy at the end of the iteration. */
  lemma AppendIterates(b: LinkedBag, x: int)
    requires Valid(b)
    requires b.nodes == [] || b.nodes[|b.nodes| - 1].element <= x
    ensures Expand(Append(b, x).nodes) == Expand(b.nodes) + [x]
  {
    SizeIsCardinality(b);
  }

  /** One more occurrence in the final bin adds one copy at the end of the iteration. */
  lemma BumpLastExpand(bs: seq<Bin>, cs: seq<Bin>)
    requires bs != [] && bs[|bs| - 1].occurrences >= 0
    requires cs == bs[|bs| - 1 := Bin(bs[|bs| - 1].element, bs[|bs| - 1].occurrences + 1)]
    ensures Expand(cs) == Expand(bs) + [bs[|bs| - 1].element]
  {
    var p := |bs| - 1;
    var nb := bs[p];
    var mb := Bin(nb.element, nb.occurrences + 1);
    LastSplit(bs, mb, cs);
    AppendExpand(bs[..p], [nb]);
    AppendExpand(bs[..p], [mb]);
    OneBin(nb);
    OneBin(mb);
    RepeatSnoc(nb.element, nb.occurrences);
  }

  /** A sequence is its front followed by its last item, and replacing that item keeps the front. */
  lemma LastSplit<T>(s: seq<T>, v: T, t: seq<T>)
    requires s != [] && t == s[|s| - 1 := v]
    ensures s == s[..|s| - 1] + [s[|s| - 1]] && t == s[..|s| - 1] + [v]
  {
  }

  /** Appends a non-decreasing sequence one element at a time. */
  function AppendAll(b: LinkedBag, xs: seq<int>): (r: LinkedBag)
    requires Valid(b) && NonDecreasing(xs)
    requires b.nodes == [] || xs == [] || b.nodes[|b.nodes| - 1].element <= xs[0]
    ensures Valid(r) && r.comparatorId == b.comparatorId
    decreases |xs|
  {
    if xs == [] then b
    else
      assert |xs| > 1 ==> xs[0] <= xs[1];
      AppendAll(Append(b, xs[0]), xs[1..])
  }

  /** Appending a sequence adds it at the end of the iteration. */
  lemma {:induction false} AppendAllIterates(b: LinkedBag, xs: seq<int>)
    requires Valid(b) && NonDecreasing(xs)
    requires b.nodes == [] || xs == [] || b.nodes[|b.nodes| - 1].element <= xs[0]
    ensures Expand(AppendAll(b, xs).nodes) == Expand(b.nodes) + xs
    decreases |xs|
  {
    if xs != [] {
      var b' := Append(b, xs[0]);
      AppendIterates(b, xs[0]);
      assert |xs| > 1 ==> xs[0] <= xs[1];
      AppendAllIterates(b', xs[1..]);
      assert AppendAll(b, xs) == AppendAll(b', xs[1..]);
      ShiftFirst(Expand(b.nodes), xs);
    }
  }

  /** `copyOf`: appends the source's iteration, which is ascending. */
  function CopyOf(comparatorId: nat, that: seq<int>): (r: LinkedBag)
    requires NonDecreasing(that)
    ensures Valid(r) && r.comparatorId == comparatorId && Elements(r) == multiset(that)
    ensures Expand(r.nodes) == that
  {
    var r := AppendAll(Empty(comparatorId), that);
    AppendAllIterates(Empty(comparatorId), that);
    ExpandIsContents(r.nodes);
    r
  }

  /** Inserts the elements one by one. */
  function InsertAll(b: LinkedBag, xs: seq<int>): (r: LinkedBag)
    requires Valid(b)
    ensures Valid(r) && r.comparatorId == b.comparatorId
    ensures Elements(r) == Elements(b) + multiset(xs)
    decreases |xs|
  {
    if xs == [] then b
    else
      assert xs == [xs[0]] + xs[1..];
      InsertAll(Insert(b, xs[0]), xs[1..])
  }

  /** `of` and `from`: an empty bag receiving every element in turn. */
  function Of(comparatorId: nat, xs: seq<int>): (r: LinkedBag)
    ensures Valid(r) && r.comparatorId == comparatorId && Elements(r) == multiset(xs)
  {
    InsertAll(Empty(comparatorId), xs)
  }

  // ---------------------------------------------------------------------
  // The in-place set operations against another linked bag.
  // ---------------------------------------------------------------------

  /** A merged chain and the amount the loop added to or removed from `size`. */
  datatype Merged = Merged(nodes: seq<Bin>, delta: int)

  /** A bag over a merged chain; every set operation leaves `last` on its final node, or null when it is empty. */
  function Chain(comparatorId: nat, cs: seq<Bin>, size: int): (r: LinkedBag)
    requires WellFormed(cs) && size == Total(cs)
    ensures Valid(r) && r.comparatorId == comparatorId && r.nodes == cs && Size(r) == size
  {
    LinkedBag(comparatorId, cs, if cs == [] then None else Some(cs[|cs| - 1].element), size)
  }

  /** Linking a node in front of a chain. */
  lemma ConsBins(nb: Bin, bs: seq<Bin>)
    ensures Total([nb] + bs) == nb.occurrences + Total(bs)
    ensures Contents([nb] + bs) == Single(nb) + Contents(bs)
  {
    assert ([nb] + bs)[1..] == bs;
  }

  /**
   * The union loop: matching nodes add counts, nodes of `that` below the
   * current node are linked in with their counts, and once this chain is
   * exhausted the remaining nodes of `that` are appended. As written,
   * `append` adds a single occurrence of each (`asWritten`); the corrected
   * loop appends them with their counts.
   */
  function UnionLoop(xs: seq<Bin>, ys: seq<Bin>, asWritten: bool): (r: Merged)
    ensures r.delta == Total(r.nodes) - Total(xs)
    decreases |xs| + |ys|
  {
    if ys == [] then Merged(xs, 0)
    else if xs == [] then
      var m := UnionLoop([], ys[1..], asWritten);
      var nb := if asWritten then Bin(ys[0].element, 1) else ys[0];
      ConsBins(nb, m.nodes);
      Merged([nb] + m.nodes, m.delta + nb.occurrences)
    else if xs[0].element < ys[0].element then
      var m := UnionLoop(xs[1..], ys, asWritten);
      ConsBins(xs[0], m.nodes);
      Merged([xs[0]] + m.nodes, m.delta)
    else if xs[0].element > ys[0].element then
      var m := UnionLoop(xs, ys[1..], asWritten);
      ConsBins(ys[0], m.nodes);
      Merged([ys[0]] + m.nodes, m.delta + ys[0].occurrences)
    else
      var m := UnionLoop(xs[1..], ys[1..], asWritten);
      var nb := Bin(xs[0].element, xs[0].occurrences + ys[0].occurrences);
      ConsBins(nb, m.nodes);
      Merged([nb] + m.nodes, m.delta + ys[0].occurrences)
  }

  /** Either union loop yields a well-formed chain headed by one of the two heads. */
  lemma {:induction false} UnionLoopWellFormed(xs: seq<Bin>, ys: seq<Bin>, asWritten: bool)
    requires WellFormed(xs) && WellFormed(ys)
    ensures var r := UnionLoop(xs, ys, asWritten).nodes;
            WellFormed(r)
            && (r != [] ==> (xs != [] && r[0].element == xs[0].element) || (ys != [] && r[0].element == ys[0].element))
    decreases |xs| + |ys|
  {
    if ys != [] {
      if xs == [] {
        Rest(ys);
        UnionLoopWellFormed([], ys[1..], asWritten);
        var nb := if asWritten then Bin(ys[0].element, 1) else ys[0];
        Cons(nb, UnionLoop([], ys[1..], asWritten).nodes);
      } else {
        if xs[0].element < ys[0].element {
          Rest(xs);
          UnionLoopWellFormed(xs[1..], ys, asWritten);
          Cons(xs[0], UnionLoop(xs[1..], ys, asWritten).nodes);
        } else if xs[0].element > ys[0].element {
          Rest(ys);
          UnionLoopWellFormed(xs, ys[1..], asWritten);
          Cons(ys[0], UnionLoop(xs, ys[1..], asWritten).nodes);
        } else {
          Rest(xs);
          Rest(ys);
          UnionLoopWellFormed(xs[1..], ys[1..], asWritten);
          Cons(Bin(xs[0].element, xs[0].occurrences + ys[0].occurrences), UnionLoop(xs[1..], ys[1..], asWritten).nodes);
        }
      }
    }
  }

  /** The corrected union loop keeps every occurrence of both chains. */
  lemma {:induction false} UnionLoopContents(xs: seq<Bin>, ys: seq<Bin>)
    requires Positive(xs) && Positive(ys)
    ensures Contents(UnionLoop(xs, ys, false).nodes) == Contents(xs) + Contents(ys)
    decreases |xs| + |ys|
  {
    if ys != [] {
      assert Positive(ys[1..]);
      if xs == [] || xs[0].element > ys[0].element {
        UnionLoopContents(xs, ys[1..]);
        UnionTakeRight(xs, ys);
      } else {
        assert Positive(xs[1..]);
        if xs[0].element < ys[0].element {
          UnionLoopContents(xs[1..], ys);
          UnionTakeLeft(xs, ys);
        } else {
          UnionLoopContents(xs[1..], ys[1..]);
          UnionTakeBoth(xs, ys);
        }
      }
    }
  }

  /** A step of the corrected union loop that links in the node of `that`. */
  lemma UnionTakeRight(xs: seq<Bin>, ys: seq<Bin>)
    requires ys != [] && (xs == [] || xs[0].element > ys[0].element)
    requires Contents(UnionLoop(xs, ys[1..], false).nodes) == Contents(xs) + Contents(ys[1..])
    ensures Contents(UnionLoop(xs, ys, false).nodes) == Contents(xs) + Contents(ys)
  {
    var m := UnionLoop(xs, ys[1..], false).nodes;
    assert UnionLoop(xs, ys, false).nodes == [ys[0]] + m;
    ConsBins(ys[0], m);
    Swap(Single(ys[0]), Contents(xs), Contents(ys[1..]));
  }

  /** A step of the union loop that moves past a node of this chain. */
  lemma UnionTakeLeft(xs: seq<Bin>, ys: seq<Bin>)
    requires xs != [] && ys != [] && xs[0].element < ys[0].element
    requires Contents(UnionLoop(xs[1..], ys, false).nodes) == Contents(xs[1..]) + Contents(ys)
    ensures Contents(UnionLoop(xs, ys, false).nodes) == Contents(xs) + Contents(ys)
  {
    var m := UnionLoop(xs[1..], ys, false).nodes;
    assert UnionLoop(xs, ys, false).nodes == [xs[0]] + m;
    ConsBins(xs[0], m);
    assert Single(xs[0]) + (Contents(xs[1..]) + Contents(ys)) == (Single(xs[0]) + Contents(xs[1..])) + Contents(ys);
  }

  /** A step of the union loop over equal nodes, which add their counts. */
  lemma UnionTakeBoth(xs: seq<Bin>, ys: seq<Bin>)
    requires xs != [] && ys != [] && xs[0].element == ys[0].element
    requires xs[0].occurrences >= 1 && ys[0].occurrences >= 1
    requires Contents(UnionLoop(xs[1..], ys[1..], false).nodes) == Contents(xs[1..]) + Contents(ys[1..])
    ensures Contents(UnionLoop(xs, ys, false).nodes) == Contents(xs) + Contents(ys)
  {
    var e := xs[0].element;
    var nb := Bin(e, xs[0].occurrences + ys[0].occurrences);
    var m := UnionLoop(xs[1..], ys[1..], false).nodes;
    assert UnionLoop(xs, ys, false).nodes == [nb] + m;
    ConsBins(nb, m);
    SingleSum(e, xs[0].occurrences, ys[0].occurrences);
    Interleave(Single(xs[0]), Single(ys[0]), Contents(xs[1..]), Contents(ys[1..]));
  }

  /**
   * The intersection loop: nodes below the other chain's current node are
   * unlinked, matching nodes keep the smaller count, and whatever of this
   * chain remains once `that` is exhausted is cut off.
   */
  function InterLoop(xs: seq<Bin>, ys: seq<Bin>): (cs: seq<Bin>)
    ensures |cs| <= |xs|
    decreases |xs| + |ys|
  {
    if xs == [] || ys == [] then []
    else if xs[0].element < ys[0].element then InterLoop(xs[1..], ys)
    else if xs[0].element > ys[0].element then InterLoop(xs, ys[1..])
    else [Bin(xs[0].element, Min(xs[0].occurrences, ys[0].occurrences))] + InterLoop(xs[1..], ys[1..])
  }

  function Min(a: int, b: int): int {
    if a <= b then a else b
  }

  /** The intersection loop yields a well-formed chain starting no lower than this one. */
  lemma {:induction false} InterLoopWellFormed(xs: seq<Bin>, ys: seq<Bin>)
    requires WellFormed(xs) && WellFormed(ys)
    ensures var cs := InterLoop(xs, ys);
            WellFormed(cs) && (cs != [] ==> xs != [] && xs[0].element <= cs[0].element)
    decreases |xs| + |ys|
  {
    if xs != [] && ys != [] {
      if xs[0].element < ys[0].element {
        Rest(xs);
        InterLoopWellFormed(xs[1..], ys);
      } else if xs[0].element > ys[0].element {
        Rest(ys);
        InterLoopWellFormed(xs, ys[1..]);
      } else {
        Rest(xs);
        Rest(ys);
        InterLoopWellFormed(xs[1..], ys[1..]);
        Cons(Bin(xs[0].element, Min(xs[0].occurrences, ys[0].occurrences)), InterLoop(xs[1..], ys[1..]));
      }
    }
  }

  /** The intersection keeps each element as often as it occurs in both chains. */
  lemma {:induction false} InterLoopContents(xs: seq<Bin>, ys: seq<Bin>)
    requires WellFormed(xs) && WellFormed(ys)
    ensures Contents(InterLoop(xs, ys)) == Contents(xs) * Contents(ys)
    decreases |xs| + |ys|
  {
    if xs != [] && ys != [] {
      if xs[0].element < ys[0].element {
        Rest(xs);
        InterLoopContents(xs[1..], ys);
        Below(ys, xs[0].element);
        InterAbsent(xs[0], Contents(xs[1..]), Contents(ys));
      } else if xs[0].element > ys[0].element {
        Rest(ys);
        InterLoopContents(xs, ys[1..]);
        Below(xs, ys[0].element);
        InterAbsent(ys[0], Contents(ys[1..]), Contents(xs));
        assert Contents(xs) * Contents(ys) == Contents(ys) * Contents(xs);
        assert Contents(xs) * Contents(ys[1..]) == Contents(ys[1..]) * Contents(xs);
      } else {
        Rest(xs);
        Rest(ys);
        var e := xs[0].element;
        ConsBins(Bin(e, Min(xs[0].occurrences, ys[0].occurrences)), InterLoop(xs[1..], ys[1..]));
        InterLoopContents(xs[1..], ys[1..]);
        InterHead(e, xs[0].occurrences, ys[0].occurrences, Contents(xs[1..]), Contents(ys[1..]));
      }
    }
  }

  /**
   * The difference loop: matching nodes lose the other chain's count and
   * are unlinked when nothing remains; other nodes of this chain stay.
   * `delta` is minus the loop's `sizeDel`.
   */
  function DiffLoop(xs: seq<Bin>, ys: seq<Bin>): (r: Merged)
    ensures r.delta == Total(r.nodes) - Total(xs)
    decreases |xs| + |ys|
  {
    if xs == [] || ys == [] then Merged(xs, 0)
    else if xs[0].element < ys[0].element then
      var m := DiffLoop(xs[1..], ys);
      ConsBins(xs[0], m.nodes);
      Merged([xs[0]] + m.nodes, m.delta)
    else if xs[0].element > ys[0].element then DiffLoop(xs, ys[1..])
    else
      var m := DiffLoop(xs[1..], ys[1..]);
      var d := xs[0].occurrences - ys[0].occurrences;
      if d > 0 then
        ConsBins(Bin(xs[0].element, d), m.nodes);
        Merged([Bin(xs[0].element, d)] + m.nodes, m.delta - ys[0].occurrences)
      else
        Merged(m.nodes, m.delta - xs[0].occurrences)
  }

  /** The difference loop yields a well-formed chain starting no lower than this one. */
  lemma {:induction false} DiffLoopWellFormed(xs: seq<Bin>, ys: seq<Bin>)
    requires WellFormed(xs) && WellFormed(ys)
    ensures var cs := DiffLoop(xs, ys).nodes;
            WellFormed(cs) && (cs != [] ==> xs != [] && xs[0].element <= cs[0].element)
    decreases |xs| + |ys|
  {
    if xs != [] && ys != [] {
      if xs[0].element < ys[0].element {
        Rest(xs);
        DiffLoopWellFormed(xs[1..], ys);
        Cons(xs[0], DiffLoop(xs[1..], ys).nodes);
      } else if xs[0].element > ys[0].element {
        Rest(ys);
        DiffLoopWellFormed(xs, ys[1..]);
      } else {
        Rest(xs);
        Rest(ys);
        DiffLoopWellFormed(xs[1..], ys[1..]);
        var d := xs[0].occurrences - ys[0].occurrences;
        if d > 0 {
          Cons(Bin(xs[0].element, d), DiffLoop(xs[1..], ys[1..]).nodes);
        }
      }
    }
  }

  /** The difference keeps each element as often as it occurs here beyond its count in `that`. */
  lemma {:induction false} DiffLoopContents(xs: seq<Bin>, ys: seq<Bin>)
    requires WellFormed(xs) && WellFormed(ys)
    ensures Contents(DiffLoop(xs, ys).nodes) == Contents(xs) - Contents(ys)
    decreases |xs| + |ys|
  {
    if xs != [] && ys != [] {
      if xs[0].element < ys[0].element {
        Rest(xs);
        DiffLoopContents(xs[1..], ys);
        ConsBins(xs[0], DiffLoop(xs[1..], ys).nodes);
        Below(ys, xs[0].element);
        DiffAbsentLeft(xs[0], Contents(xs[1..]), Contents(ys));
      } else if xs[0].element > ys[0].element {
        Rest(ys);
        DiffLoopContents(xs, ys[1..]);
        Below(xs, ys[0].element);
        DiffAbsentRight(ys[0], Contents(xs), Contents(ys[1..]));
      } else {
        Rest(xs);
        Rest(ys);
        var e := xs[0].element;
        var p, q := xs[0].occurrences, ys[0].occurrences;
        DiffLoopContents(xs[1..], ys[1..]);
        DiffHead(e, p, q, Contents(xs[1..]), Contents(ys[1..]));
        if p - q > 0 {
          ConsBins(Bin(e, p - q), DiffLoop(xs[1..], ys[1..]).nodes);
        }
      }
    }
  }

  /** `union` as written, which undercounts the nodes of `that` past this bag's maximum. */
  function UnionAsWritten(b: LinkedBag, that: LinkedBag): (r: LinkedBag)
    requires Valid(b) && Valid(that)
    ensures Valid(r) && r.comparatorId == b.comparatorId
  {
    SizeIsCardinality(b);
    if IsEmpty(b) then UnionIntoEmpty(b, that)
    else
      var m := UnionLoop(b.nodes, that.nodes, true);
      UnionLoopWellFormed(b.nodes, that.nodes, true);
      Chain(b.comparatorId, m.nodes, b.size + m.delta)
  }

  /** `union`: every occurrence of `that` joins this bag. */
  function Union(b: LinkedBag, that: LinkedBag): (r: LinkedBag)
    requires Valid(b) && Valid(that)
    ensures Valid(r) && r.comparatorId == b.comparatorId
    ensures Elements(r) == Elements(b) + Elements(that)
  {
    SizeIsCardinality(b);
    if IsEmpty(b) then UnionIntoEmpty(b, that)
    else
      var m := UnionLoop(b.nodes, that.nodes, false);
      UnionLoopWellFormed(b.nodes, that.nodes, false);
      UnionLoopContents(b.nodes, that.nodes);
      Chain(b.comparatorId, m.nodes, b.size + m.delta)
  }

  /** An empty bag takes the union by appending the iteration of `that`. */
  function UnionIntoEmpty(b: LinkedBag, that: LinkedBag): (r: LinkedBag)
    requires Valid(b) && Valid(that) && b.nodes == []
    ensures Valid(r) && r.comparatorId == b.comparatorId
    ensures Elements(r) == Elements(that)
  {
    ExpandSorted(that.nodes);
    var r := AppendAll(b, Expand(that.nodes));
    AppendAllIterates(b, Expand(that.nodes));
    ExpandIsContents(r.nodes);
    ExpandIsContents(that.nodes);
    r
  }

  /** `intersection`: an empty `that` clears this bag; otherwise the loop keeps the common occurrences. */
  function Intersection(b: LinkedBag, that: LinkedBag): (r: LinkedBag)
    requires Valid(b) && Valid(that)
    ensures Valid(r) && r.comparatorId == b.comparatorId
    ensures Elements(r) == Elements(b) * Elements(that)
  {
    SizeIsCardinality(that);
    if IsEmpty(that) then Clear(b)
    else
      var cs := InterLoop(b.nodes, that.nodes);
      InterLoopWellFormed(b.nodes, that.nodes);
      InterLoopContents(b.nodes, that.nodes);
      Chain(b.comparatorId, cs, Total(cs))
  }

  /** `difference`: only when both bags are non-empty does the loop run. */
  function Difference(b: LinkedBag, that: LinkedBag): (r: LinkedBag)
    requires Valid(b) && Valid(that)
    ensures Valid(r) && r.comparatorId == b.comparatorId
    ensures Elements(r) == Elements(b) - Elements(that)
  {
    SizeIsCardinality(b);
    SizeIsCardinality(that);
    if !IsEmpty(b) && !IsEmpty(that) then
      var m := DiffLoop(b.nodes, that.nodes);
      DiffLoopWellFormed(b.nodes, that.nodes);
      DiffLoopContents(b.nodes, that.nodes);
      Chain(b.comparatorId, m.nodes, b.size + m.delta)
    else b
  }

  /** This bag {1} and `that` {2, 2}: the loop as written appends a single 2. */
  lemma UnionAsWrittenLosesOccurrences()
    ensures var b := LinkedBag(0, [Bin(1, 1)], Some(1), 1);
            var that := LinkedBag(0, [Bin(2, 2)], Some(2), 2);
            Valid(b) && Valid(that)
            && UnionAsWritten(b, that).nodes == [Bin(1, 1), Bin(2, 1)]
            && Union(b, that).nodes == [Bin(1, 1), Bin(2, 2)]
            && Elements(UnionAsWritten(b, that)) != Elements(b) + Elements(that)
  {
    var b := LinkedBag(0, [Bin(1, 1)], Some(1), 1);
    var that := LinkedBag(0, [Bin(2, 2)], Some(2), 2);
    OneBin(Bin(1, 1));
    OneBin(Bin(2, 2));
    assert [Bin(1, 1)][1..] == [] && [Bin(2, 2)][1..] == [];
    assert UnionLoop([Bin(1, 1)], [Bin(2, 2)], true).nodes == [Bin(1, 1), Bin(2, 1)];
    assert UnionLoop([Bin(1, 1)], [Bin(2, 2)], false).nodes == [Bin(1, 1), Bin(2, 2)];
    var r := UnionAsWritten(b, that);
    OneBin(Bin(2, 1));
    AppendContents([Bin(1, 1)], [Bin(2, 1)]);
    assert [Bin(1, 1), Bin(2, 1)] == [Bin(1, 1)] + [Bin(2, 1)];
    assert Elements(r)[2] == 1;
    assert (Elements(b) + Elements(that))[2] == 2;
  }
}
