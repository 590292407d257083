/**
 * Bins: one distinct element paired with its number of occurrences. A
 * sorted bag is a run of bins with strictly increasing elements and
 * positive counts; it iterates each element as many times as it occurs.
 */
module Bins {
  import opened SortedSeqs

  datatype Bin = Bin(element: int, occurrences: int)

  /** The elements of a run of bins, in order. */
  function Keys(bs: seq<Bin>): (ks: seq<int>)
    ensures |ks| == |bs|
    ensures forall i | 0 <= i < |bs| :: ks[i] == bs[i].element
  {
    if bs == [] then [] else [bs[0].element] + Keys(bs[1..])
  }

  /** Strictly increasing elements, every count positive. */
  ghost predicate WellFormed(bs: seq<Bin>) {
    StrictlyIncreasing(Keys(bs)) && Positive(bs)
  }

  /** Every bin holds at least one occurrence. */
  ghost predicate Positive(bs: seq<Bin>) {
    forall i | 0 <= i < |bs| :: bs[i].occurrences >= 1
  }

  /** The number of elements counting repetitions. */
  function Total(bs: seq<Bin>): int {
    if bs == [] then 0 else bs[0].occurrences + Total(bs[1..])
  }

  function Repeat(x: int, n: int): (r: seq<int>)
    ensures |r| == if n <= 0 then 0 else n
    ensures forall i | 0 <= i < |r| :: r[i] == x
    decreases n
  {
    if n <= 0 then [] else [x] + Repeat(x, n - 1)
  }

  /** The iteration order: each bin's element repeated by its count, bin after bin. */
  function Expand(bs: seq<Bin>): seq<int> {
    if bs == [] then [] else Repeat(bs[0].element, bs[0].occurrences) + Expand(bs[1..])
  }

  /** The multiset of elements a single bin stands for. */
  function Single(b: Bin): multiset<int> {
    multiset{}[b.element := if b.occurrences <= 0 then 0 else b.occurrences]
  }

  /** The multiset of elements a run of bins stands for. */
  function Contents(bs: seq<Bin>): multiset<int> {
    if bs == [] then multiset{} else Single(bs[0]) + Contents(bs[1..])
  }

  lemma AppendBins(a: seq<Bin>, b: seq<Bin>)
    ensures Keys(a + b) == Keys(a) + Keys(b)
    ensures Total(a + b) == Total(a) + Total(b)
    ensures Expand(a + b) == Expand(a) + Expand(b)
    ensures Contents(a + b) == Contents(a) + Contents(b)
  {
    AppendKeys(a, b);
    AppendTotal(a, b);
    AppendExpand(a, b);
    AppendContents(a, b);
  }

  lemma AppendKeys(a: seq<Bin>, b: seq<Bin>)
    ensures Keys(a + b) == Keys(a) + Keys(b)
  {
    var l, r := Keys(a + b), Keys(a) + Keys(b);
    assert |l| == |r|;
    forall i | 0 <= i < |l|
      ensures l[i] == r[i]
    {
      if i < |a| {
        assert (a + b)[i] == a[i];
      } else {
        assert (a + b)[i] == b[i - |a|];
      }
    }
  }

  lemma {:induction false} AppendTotal(a: seq<Bin>, b: seq<Bin>)
    ensures Total(a + b) == Total(a) + Total(b)
  {
    if a == [] {
      assert a + b == b;
    } else {
      assert (a + b)[0] == a[0];
      assert (a + b)[1..] == a[1..] + b;
      AppendTotal(a[1..], b);
    }
  }

  lemma {:induction false} AppendExpand(a: seq<Bin>, b: seq<Bin>)
    ensures Expand(a + b) == Expand(a) + Expand(b)
  {
    if a == [] {
      assert a + b == b;
    } else {
      assert (a + b)[0] == a[0];
      assert (a + b)[1..] == a[1..] + b;
      AppendExpand(a[1..], b);
    }
  }

  lemma {:induction false} AppendContents(a: seq<Bin>, b: seq<Bin>)
    ensures Contents(a + b) == Contents(a) + Contents(b)
  {
    if a == [] {
      assert a + b == b;
    } else {
      assert (a + b)[0] == a[0];
      assert (a + b)[1..] == a[1..] + b;
      AppendContents(a[1..], b);
    }
  }

  lemma OneBin(b: Bin)
    ensures Keys([b]) == [b.element] && Total([b]) == b.occurrences
    ensures Expand([b]) == Repeat(b.element, b.occurrences) && Contents([b]) == Single(b)
  {
    assert [b][1..] == [];
  }

  lemma RepeatContents(x: int, n: int)
    ensures multiset(Repeat(x, n)) == Single(Bin(x, n))
    decreases n
  {
    if n > 0 {
      RepeatContents(x, n - 1);
    }
  }

  /** Iterating a run of bins lists exactly the multiset it stands for. */
  lemma {:induction false} ExpandIsContents(bs: seq<Bin>)
    ensures multiset(Expand(bs)) == Contents(bs)
  {
    if bs != [] {
      ExpandIsContents(bs[1..]);
      RepeatContents(bs[0].element, bs[0].occurrences);
    }
  }

  /** With positive counts, the total is the number of listed elements. */
  lemma {:induction false} TotalIsLength(bs: seq<Bin>)
    requires forall i | 0 <= i < |bs| :: bs[i].occurrences >= 1
    ensures Total(bs) == |Expand(bs)| == |Contents(bs)|
  {
    ExpandIsContents(bs);
    if bs != [] {
      assert forall i | 0 <= i < |bs[1..]| :: bs[1..][i] == bs[i + 1];
      TotalIsLength(bs[1..]);
    }
  }

  /** Splitting a run around one bin. */
  lemma Around(bs: seq<Bin>, i: nat)
    requires i < |bs|
    ensures bs == bs[..i] + [bs[i]] + bs[i + 1..]
    ensures Keys(bs) == Keys(bs[..i]) + [bs[i].element] + Keys(bs[i + 1..])
    ensures Total(bs) == Total(bs[..i]) + bs[i].occurrences + Total(bs[i + 1..])
    ensures Contents(bs) == Contents(bs[..i]) + Single(bs[i]) + Contents(bs[i + 1..])
  {
    SplitAt(bs, i);
    AroundKeys(bs, i);
    AroundTotal(bs, i);
    AroundContents(bs, i);
  }

  /** A sequence is its prefix, the entry at `i` and its suffix. */
  lemma SplitAt<T>(s: seq<T>, i: nat)
    requires i < |s|
    ensures s == s[..i] + [s[i]] + s[i + 1..]
  {
  }

  lemma AroundKeys(bs: seq<Bin>, i: nat)
    requires i < |bs|
    ensures Keys(bs) == Keys(bs[..i]) + [bs[i].element] + Keys(bs[i + 1..])
  {
    var l, r := Keys(bs), Keys(bs[..i]) + [bs[i].element] + Keys(bs[i + 1..]);
    assert |l| == |r|;
    forall k | 0 <= k < |l|
      ensures l[k] == r[k]
    {
      if k < i {
        assert bs[..i][k] == bs[k];
      } else if i < k {
        assert bs[i + 1..][k - i - 1] == bs[k];
      }
    }
  }

  lemma AroundTotal(bs: seq<Bin>, i: nat)
    requires i < |bs|
    ensures Total(bs) == Total(bs[..i]) + bs[i].occurrences + Total(bs[i + 1..])
  {
    calc {
      Total(bs);
    == { SplitAt(bs, i); }
      Total(bs[..i] + [bs[i]] + bs[i + 1..]);
    == { AppendTotal(bs[..i] + [bs[i]], bs[i + 1..]); }
      Total(bs[..i] + [bs[i]]) + Total(bs[i + 1..]);
    == { AppendTotal(bs[..i], [bs[i]]); OneBin(bs[i]); }
      Total(bs[..i]) + bs[i].occurrences + Total(bs[i + 1..]);
    }
  }

  lemma AroundContents(bs: seq<Bin>, i: nat)
    requires i < |bs|
    ensures Contents(bs) == Contents(bs[..i]) + Single(bs[i]) + Contents(bs[i + 1..])
  {
    calc {
      Contents(bs);
    == { SplitAt(bs, i); }
      Contents(bs[..i] + [bs[i]] + bs[i + 1..]);
    == { AppendContents(bs[..i] + [bs[i]], bs[i + 1..]); }
      Contents(bs[..i] + [bs[i]]) + Contents(bs[i + 1..]);
    == { AppendContents(bs[..i], [bs[i]]); OneBin(bs[i]); }
      Contents(bs[..i]) + Single(bs[i]) + Contents(bs[i + 1..]);
    }
  }

  /** Replacing one bin's count: keys stay, the contents change only at that bin. */
  lemma ReplaceBin(bs: seq<Bin>, i: nat, n: int)
    requires i < |bs|
    ensures Keys(bs[i := Bin(bs[i].element, n)]) == Keys(bs)
    ensures Total(bs[i := Bin(bs[i].element, n)]) == Total(bs) - bs[i].occurrences + n
    ensures Contents(bs[i := Bin(bs[i].element, n)]) + Single(bs[i])
            == Contents(bs) + Single(Bin(bs[i].element, n))
  {
    ReplaceKeys(bs, i, n);
    ReplaceTotal(bs, i, n);
    ReplaceContents(bs, i, n);
  }

  /** The keys half of `ReplaceBin`, on its own. */
  lemma ReplaceKeys(bs: seq<Bin>, i: nat, n: int)
    requires i < |bs|
    ensures Keys(bs[i := Bin(bs[i].element, n)]) == Keys(bs)
  {
    assert forall k | 0 <= k < |bs| :: Keys(bs[i := Bin(bs[i].element, n)])[k] == Keys(bs)[k];
  }

  /** The total half of `ReplaceBin`, on its own. */
  lemma ReplaceTotal(bs: seq<Bin>, i: nat, n: int)
    requires i < |bs|
    ensures Total(bs[i := Bin(bs[i].element, n)]) == Total(bs) - bs[i].occurrences + n
  {
    calc {
      Total(bs[i := Bin(bs[i].element, n)]);
    == { AroundTotal(bs[i := Bin(bs[i].element, n)], i); UpdateOutside(bs, i, Bin(bs[i].element, n)); }
      Total(bs[..i]) + n + Total(bs[i + 1..]);
    == { AroundTotal(bs, i); }
      Total(bs) - bs[i].occurrences + n;
    }
  }

  /** The contents half of `ReplaceBin`, on its own. */
  lemma ReplaceContents(bs: seq<Bin>, i: nat, n: int)
    requires i < |bs|
    ensures Contents(bs[i := Bin(bs[i].element, n)]) + Single(bs[i])
            == Contents(bs) + Single(Bin(bs[i].element, n))
  {
    calc {
      Contents(bs[i := Bin(bs[i].element, n)]) + Single(bs[i]);
    == { AroundContents(bs[i := Bin(bs[i].element, n)], i); UpdateOutside(bs, i, Bin(bs[i].element, n)); }
      Contents(bs[..i]) + Single(Bin(bs[i].element, n)) + Contents(bs[i + 1..]) + Single(bs[i]);
    == { Exchange(Contents(bs[..i]), Single(Bin(bs[i].element, n)), Contents(bs[i + 1..]), Single(bs[i])); }
      Contents(bs[..i]) + Single(bs[i]) + Contents(bs[i + 1..]) + Single(Bin(bs[i].element, n));
    == { AroundContents(bs, i); }
      Contents(bs) + Single(Bin(bs[i].element, n));
    }
  }

  /** Two summands of a four-way multiset sum trade places. */
  lemma Exchange(a: multiset<int>, x: multiset<int>, c: multiset<int>, y: multiset<int>)
    ensures a + x + c + y == a + y + c + x
  {
  }

  /** The last two summands of a three-way multiset sum trade places. */
  lemma SwapLast(a: multiset<int>, b: multiset<int>, c: multiset<int>)
    ensures a + b + c == a + c + b
  {
  }

  /** Inserting a bin at position `i`. */
  lemma InsertBin(bs: seq<Bin>, i: nat, nb: Bin)
    requires i <= |bs|
    ensures Keys(bs[..i] + [nb] + bs[i..]) == InsertAt(Keys(bs), i, nb.element)
    ensures Total(bs[..i] + [nb] + bs[i..]) == Total(bs) + nb.occurrences
    ensures Contents(bs[..i] + [nb] + bs[i..]) == Contents(bs) + Single(nb)
  {
    InsertBinKeys(bs, i, nb);
    InsertBinTotal(bs, i, nb);
    InsertBinContents(bs, i, nb);
  }

  lemma InsertBinKeys(bs: seq<Bin>, i: nat, nb: Bin)
    requires i <= |bs|
    ensures Keys(bs[..i] + [nb] + bs[i..]) == InsertAt(Keys(bs), i, nb.element)
  {
    calc {
      Keys(bs[..i] + [nb] + bs[i..]);
    == { AppendKeys(bs[..i] + [nb], bs[i..]); AppendKeys(bs[..i], [nb]); OneBin(nb); }
      Keys(bs[..i]) + [nb.element] + Keys(bs[i..]);
    == { KeysSlices(bs, i); }
      Keys(bs)[..i] + [nb.element] + Keys(bs)[i..];
    }
  }

  /** The keys of a prefix or suffix are that prefix or suffix of the keys. */
  lemma KeysSlices(bs: seq<Bin>, i: nat)
    requires i <= |bs|
    ensures Keys(bs[..i]) == Keys(bs)[..i] && Keys(bs[i..]) == Keys(bs)[i..]
  {
    assert bs == bs[..i] + bs[i..];
    AppendKeys(bs[..i], bs[i..]);
  }

  lemma InsertBinTotal(bs: seq<Bin>, i: nat, nb: Bin)
    requires i <= |bs|
    ensures Total(bs[..i] + [nb] + bs[i..]) == Total(bs) + nb.occurrences
  {
    assert bs == bs[..i] + bs[i..];
    AppendTotal(bs[..i] + [nb], bs[i..]);
    AppendTotal(bs[..i], [nb]);
    AppendTotal(bs[..i], bs[i..]);
    OneBin(nb);
  }

  lemma InsertBinContents(bs: seq<Bin>, i: nat, nb: Bin)
    requires i <= |bs|
    ensures Contents(bs[..i] + [nb] + bs[i..]) == Contents(bs) + Single(nb)
  {
    assert bs == bs[..i] + bs[i..];
    AppendContents(bs[..i] + [nb], bs[i..]);
    AppendContents(bs[..i], [nb]);
    AppendContents(bs[..i], bs[i..]);
    OneBin(nb);
  }

  /** Removing the bin at position `i`. */
  lemma RemoveBin(bs: seq<Bin>, i: nat)
    requires i < |bs|
    ensures Keys(bs[..i] + bs[i + 1..]) == RemoveAt(Keys(bs), i)
    ensures Total(bs[..i] + bs[i + 1..]) == Total(bs) - bs[i].occurrences
    ensures Contents(bs[..i] + bs[i + 1..]) + Single(bs[i]) == Contents(bs)
  {
    calc {
      Keys(bs[..i] + bs[i + 1..]);
    == { AppendKeys(bs[..i], bs[i + 1..]); }
      Keys(bs[..i]) + Keys(bs[i + 1..]);
    == { KeysSlices(bs, i); KeysSlices(bs, i + 1); }
      Keys(bs)[..i] + Keys(bs)[i + 1..];
    }
    calc {
      Total(bs[..i] + bs[i + 1..]);
    == { AppendTotal(bs[..i], bs[i + 1..]); }
      Total(bs[..i]) + Total(bs[i + 1..]);
    == { AroundTotal(bs, i); }
      Total(bs) - bs[i].occurrences;
    }
    calc {
      Contents(bs[..i] + bs[i + 1..]) + Single(bs[i]);
    == { AppendContents(bs[..i], bs[i + 1..]); }
      Contents(bs[..i]) + Contents(bs[i + 1..]) + Single(bs[i]);
    == { SwapLast(Contents(bs[..i]), Contents(bs[i + 1..]), Single(bs[i])); }
      Contents(bs[..i]) + Single(bs[i]) + Contents(bs[i + 1..]);
    == { AroundContents(bs, i); }
      Contents(bs);
    }
  }

  /** In a well-formed run, the multiplicity of `x` is the count of its bin, or zero. */
  /** Dropping the first bin keeps a bin sequence well formed. */
  lemma TailWellFormed(bs: seq<Bin>)
    requires WellFormed(bs) && bs != []
    ensures WellFormed(bs[1..])
  {
    forall i, j | 0 <= i < j < |bs| - 1
      ensures Keys(bs[1..])[i] < Keys(bs[1..])[j]
    {
      assert Keys(bs[1..])[i] == Keys(bs)[i + 1] && Keys(bs[1..])[j] == Keys(bs)[j + 1];
    }
    assert forall k | 0 <= k < |bs| - 1 :: bs[1..][k] == bs[k + 1];
  }

  lemma {:induction false} ContentsCount(bs: seq<Bin>, x: int)
    requires WellFormed(bs)
    ensures x !in Keys(bs) ==> Contents(bs)[x] == 0
    ensures forall i | 0 <= i < |bs| && bs[i].element == x :: Contents(bs)[x] == bs[i].occurrences
  {
    if bs != [] {
      var rest := bs[1..];
      assert Keys(bs) == [bs[0].element] + Keys(rest);
      TailWellFormed(bs);
      ContentsCount(rest, x);
      forall i | 0 < i < |bs|
        ensures bs[i].element != bs[0].element
      {
        assert Keys(bs)[0] < Keys(bs)[i];
      }
      forall i | 1 <= i < |bs| && bs[i].element == x
        ensures Contents(bs)[x] == bs[i].occurrences
      {
        assert rest[i - 1] == bs[i];
      }
    }
  }

  /** Every count in the run is positive; a well-formed run lists its keys once each. */
  lemma WellFormedMembers(bs: seq<Bin>, x: int)
    requires WellFormed(bs)
    ensures x in Contents(bs) <==> x in Keys(bs)
  {
    ContentsCount(bs, x);
    if x in Keys(bs) {
      var i :| 0 <= i < |bs| && Keys(bs)[i] == x;
    }
  }

  ghost predicate NonDecreasing(s: seq<int>) {
    forall i, j | 0 <= i <= j < |s| :: s[i] <= s[j]
  }

  /** Moving the first element of `xs` across a concatenation. */
  lemma ShiftFirst(a: seq<int>, xs: seq<int>)
    requires xs != []
    ensures a + xs == (a + [xs[0]]) + xs[1..]
  {
    assert xs == [xs[0]] + xs[1..];
  }

  /** Iteration of a well-formed run is in ascending order. */
  lemma {:induction false} ExpandSorted(bs: seq<Bin>)
    requires WellFormed(bs)
    ensures NonDecreasing(Expand(bs))
    ensures forall k | 0 <= k < |Expand(bs)| :: bs[0].element <= Expand(bs)[k]
  {
    if bs != [] {
      var rest := bs[1..];
      assert Keys(bs) == [bs[0].element] + Keys(rest);
      assert WellFormed(rest) by {
        forall i, j | 0 <= i < j < |rest|
          ensures Keys(rest)[i] < Keys(rest)[j]
        {
          assert Keys(rest)[i] == Keys(bs)[i + 1] && Keys(rest)[j] == Keys(bs)[j + 1];
        }
      }
      ExpandSorted(rest);
      var r := Repeat(bs[0].element, bs[0].occurrences);
      var e := Expand(rest);
      assert Expand(bs) == r + e;
      if rest != [] {
        assert Keys(bs)[0] < Keys(bs)[1];
        assert forall k | 0 <= k < |e| :: bs[0].element < e[k];
      }
    }
  }

  /** With positive counts there are at least as many elements as bins. */
  lemma {:induction false} TotalAtLeastLength(bs: seq<Bin>)
    requires forall i | 0 <= i < |bs| :: bs[i].occurrences >= 1
    ensures Total(bs) >= |bs|
  {
    if bs != [] {
      assert forall i | 0 <= i < |bs[1..]| :: bs[1..][i] == bs[i + 1];
      TotalAtLeastLength(bs[1..]);
    }
  }

  /** A new single-occurrence bin for an absent element, at its insertion point, keeps the run well formed. */
  lemma AddBin(bs: seq<Bin>, x: int)
    requires WellFormed(bs) && x !in Keys(bs)
    ensures var p := Position(Keys(bs), x);
            var cs := bs[..p] + [Bin(x, 1)] + bs[p..];
            WellFormed(cs) && Total(cs) == Total(bs) + 1 && Contents(cs) == Contents(bs) + multiset{x}
  {
    InsertBin(bs, Position(Keys(bs), x), Bin(x, 1));
    InsertAtPosition(Keys(bs), x);
    InsertKeepsPositive(bs, Position(Keys(bs), x), Bin(x, 1));
    assert Single(Bin(x, 1)) == multiset{x};
  }

  /** Inserting a bin with a positive count keeps every count positive. */
  lemma InsertKeepsPositive(bs: seq<Bin>, p: nat, nb: Bin)
    requires Positive(bs) && p <= |bs| && nb.occurrences >= 1
    ensures Positive(bs[..p] + [nb] + bs[p..])
  {
    forall k | 0 <= k < |bs[..p] + [nb] + bs[p..]|
      ensures (bs[..p] + [nb] + bs[p..])[k].occurrences >= 1
    {
      if k < p {
        assert (bs[..p] + [nb] + bs[p..])[k] == bs[k];
      } else if k > p {
        assert (bs[..p] + [nb] + bs[p..])[k] == bs[k - 1];
      }
    }
  }

  /** Changing a bin's count to another positive count keeps the run well formed. */
  lemma SetCount(bs: seq<Bin>, i: nat, n: int)
    requires WellFormed(bs) && i < |bs| && n >= 1
    ensures var cs := bs[i := Bin(bs[i].element, n)];
            WellFormed(cs) && Total(cs) == Total(bs) - bs[i].occurrences + n
            && Contents(cs) + Single(bs[i]) == Contents(bs) + Single(Bin(bs[i].element, n))
  {
    ReplaceBin(bs, i, n);
  }

  /** One more occurrence in bin `i`. */
  lemma BumpBin(bs: seq<Bin>, i: nat)
    requires WellFormed(bs) && i < |bs|
    ensures var cs := bs[i := Bin(bs[i].element, bs[i].occurrences + 1)];
            WellFormed(cs) && Total(cs) == Total(bs) + 1 && Contents(cs) == Contents(bs) + multiset{bs[i].element}
  {
    var cs := bs[i := Bin(bs[i].element, bs[i].occurrences + 1)];
    ReplaceBin(bs, i, bs[i].occurrences + 1);
    RecountKeepsWellFormed(bs, i, bs[i].occurrences + 1);
    BumpContents(bs, i);
  }

  /** A positive new count for one bin keeps the run well formed. */
  lemma RecountKeepsWellFormed(bs: seq<Bin>, i: nat, n: int)
    requires WellFormed(bs) && i < |bs| && n >= 1
    ensures WellFormed(bs[i := Bin(bs[i].element, n)])
  {
    ReplaceBin(bs, i, n);
  }

  lemma BumpContents(bs: seq<Bin>, i: nat)
    requires i < |bs| && bs[i].occurrences >= 1
    ensures Contents(bs[i := Bin(bs[i].element, bs[i].occurrences + 1)]) == Contents(bs) + multiset{bs[i].element}
  {
    calc {
      Contents(bs[i := Bin(bs[i].element, bs[i].occurrences + 1)]);
    == { AroundContents(bs[i := Bin(bs[i].element, bs[i].occurrences + 1)], i);
         UpdateOutside(bs, i, Bin(bs[i].element, bs[i].occurrences + 1)); }
      Contents(bs[..i]) + Single(Bin(bs[i].element, bs[i].occurrences + 1)) + Contents(bs[i + 1..]);
    == { BumpBetween(Contents(bs[..i]), Contents(bs[i + 1..]), bs[i].element, bs[i].occurrences); }
      (Contents(bs[..i]) + Single(bs[i]) + Contents(bs[i + 1..])) + multiset{bs[i].element};
    == { AroundContents(bs, i); }
      Contents(bs) + multiset{bs[i].element};
    }
  }

  /** One more copy in the middle bin is one more copy in the whole. */
  lemma BumpBetween(a: multiset<int>, b: multiset<int>, e: int, n: int)
    requires n >= 1
    ensures a + Single(Bin(e, n + 1)) + b == (a + Single(Bin(e, n)) + b) + multiset{e}
  {
    assert Single(Bin(e, n + 1)) == Single(Bin(e, n)) + multiset{e};
  }

  /** Updating one position leaves the parts before and after it alone. */
  lemma UpdateOutside<T>(s: seq<T>, i: nat, x: T)
    requires i < |s|
    ensures s[i := x][..i] == s[..i] && s[i := x][i + 1..] == s[i + 1..]
  {
  }

  /** How many copies of `y` one bin stands for. */
  lemma SingleCount(b: Bin, y: int)
    ensures Single(b)[y] == if y == b.element && b.occurrences > 0 then b.occurrences else 0
  {
  }

  lemma Cancel(a: multiset<int>, b: multiset<int>, c: multiset<int>)
    requires a + c == b + c
    ensures a == b
  {
    assert forall y :: a[y] == (a + c)[y] - c[y];
  }

  /** One occurrence fewer in bin `i`, which keeps at least one. */
  lemma LowerBin(bs: seq<Bin>, i: nat)
    requires WellFormed(bs) && i < |bs| && bs[i].occurrences > 1
    ensures var cs := bs[i := Bin(bs[i].element, bs[i].occurrences - 1)];
            WellFormed(cs) && Total(cs) == Total(bs) - 1 && Contents(cs) == Contents(bs) - multiset{bs[i].element}
  {
    ReplaceTotal(bs, i, bs[i].occurrences - 1);
    RecountKeepsWellFormed(bs, i, bs[i].occurrences - 1);
    LowerContents(bs, i);
  }

  /** The contents half of `LowerBin`, on its own. */
  lemma LowerContents(bs: seq<Bin>, i: nat)
    requires i < |bs| && bs[i].occurrences > 1
    ensures Contents(bs[i := Bin(bs[i].element, bs[i].occurrences - 1)]) == Contents(bs) - multiset{bs[i].element}
  {
    calc {
      Contents(bs[i := Bin(bs[i].element, bs[i].occurrences - 1)]);
    == { AroundContents(bs[i := Bin(bs[i].element, bs[i].occurrences - 1)], i);
         UpdateOutside(bs, i, Bin(bs[i].element, bs[i].occurrences - 1)); }
      Contents(bs[..i]) + Single(Bin(bs[i].element, bs[i].occurrences - 1)) + Contents(bs[i + 1..]);
    == { LowerBetween(Contents(bs[..i]), Contents(bs[i + 1..]), bs[i]); }
      (Contents(bs[..i]) + Single(bs[i]) + Contents(bs[i + 1..])) - multiset{bs[i].element};
    == { AroundContents(bs, i); }
      Contents(bs) - multiset{bs[i].element};
    }
  }

  /** One occurrence fewer in the middle summand is one occurrence fewer in the sum. */
  lemma LowerBetween(a: multiset<int>, c: multiset<int>, b: Bin)
    requires b.occurrences > 1
    ensures a + Single(Bin(b.element, b.occurrences - 1)) + c == (a + Single(b) + c) - multiset{b.element}
  {
    assert Single(b) == Single(Bin(b.element, b.occurrences - 1)) + multiset{b.element};
  }

  /** Dropping a bin holding a single occurrence keeps the run well formed. */
  lemma DropBin(bs: seq<Bin>, i: nat)
    requires WellFormed(bs) && i < |bs| && bs[i].occurrences == 1
    ensures var cs := bs[..i] + bs[i + 1..];
            WellFormed(cs) && Total(cs) == Total(bs) - 1 && Contents(cs) == Contents(bs) - multiset{bs[i].element}
  {
    RemoveBin(bs, i);
    RemoveAtKeepsOrder(Keys(bs), i);
    RemoveKeepsPositive(bs, i);
    DropSingle(Contents(bs[..i] + bs[i + 1..]), Contents(bs), bs[i]);
  }

  /** Removing a bin keeps every remaining count positive. */
  lemma RemoveKeepsPositive(bs: seq<Bin>, i: nat)
    requires Positive(bs) && i < |bs|
    ensures Positive(bs[..i] + bs[i + 1..])
  {
    var cs := bs[..i] + bs[i + 1..];
    forall k | 0 <= k < |cs|
      ensures cs[k].occurrences >= 1
    {
      if k < i {
        assert cs[k] == bs[k];
      } else {
        assert cs[k] == bs[k + 1];
      }
    }
  }

  /** Taking away a bin holding one occurrence takes away that one element. */
  lemma DropSingle(c: multiset<int>, d: multiset<int>, b: Bin)
    requires b.occurrences == 1 && c + Single(b) == d
    ensures c == d - multiset{b.element}
  {
    assert Single(b) == multiset{b.element};
  }

  /** A non-empty listing starts with its first bin's run. */
  lemma ExpandFirst(bs: seq<Bin>)
    requires bs != []
    ensures Expand(bs) == Repeat(bs[0].element, bs[0].occurrences) + Expand(bs[1..])
  {
  }

  /** One more copy at the end of a repetition. */
  lemma RepeatSnoc(x: int, n: int)
    requires n >= 0
    ensures Repeat(x, n) + [x] == Repeat(x, n + 1)
  {
    if n > 0 {
      RepeatSnoc(x, n - 1);
    }
  }

  /** A bin above every present one extends a well-formed run. */
  lemma Snoc(bs: seq<Bin>, nb: Bin)
    requires WellFormed(bs) && nb.occurrences >= 1
    requires bs == [] || bs[|bs| - 1].element < nb.element
    ensures WellFormed(bs + [nb]) && Total(bs + [nb]) == Total(bs) + nb.occurrences
  {
    AppendKeys(bs, [nb]);
    AppendTotal(bs, [nb]);
    OneBin(nb);
    AppendAbove(Keys(bs), nb.element);
    SnocKeepsPositive(bs, nb);
  }

  /** Appending a bin with a positive count keeps every count positive. */
  lemma SnocKeepsPositive(bs: seq<Bin>, nb: Bin)
    requires Positive(bs) && nb.occurrences >= 1
    ensures Positive(bs + [nb])
  {
    forall k | 0 <= k < |bs + [nb]|
      ensures (bs + [nb])[k].occurrences >= 1
    {
      if k < |bs| {
        assert (bs + [nb])[k] == bs[k];
      }
    }
  }

  // ---------------------------------------------------------------------
  // Multiset steps of the merges of two runs, one head bin at a time.
  // ---------------------------------------------------------------------

  lemma Swap(a: multiset<int>, b: multiset<int>, c: multiset<int>)
    ensures a + (b + c) == b + (a + c)
  {
  }

  lemma Interleave(a: multiset<int>, b: multiset<int>, c: multiset<int>, d: multiset<int>)
    ensures (a + b) + (c + d) == (a + c) + (b + d)
  {
  }

  /** Equal head bins of two runs add their counts. */
  lemma SingleSum(e: int, p: int, q: int)
    requires p >= 1 && q >= 1
    ensures Single(Bin(e, p + q)) == Single(Bin(e, p)) + Single(Bin(e, q))
  {
  }

  /** A head absent from the other side leaves the intersection. */
  lemma InterAbsent(h: Bin, a: multiset<int>, c: multiset<int>)
    requires c[h.element] == 0
    ensures (Single(h) + a) * c == a * c
  {
    forall y
      ensures ((Single(h) + a) * c)[y] == (a * c)[y]
    {
    }
  }

  /** Equal heads meet at the smaller count. */
  lemma InterHead(e: int, p: int, q: int, a: multiset<int>, c: multiset<int>)
    requires p >= 1 && q >= 1 && a[e] == 0 && c[e] == 0
    ensures Single(Bin(e, if p <= q then p else q)) + a * c == (Single(Bin(e, p)) + a) * (Single(Bin(e, q)) + c)
  {
    forall y
      ensures (Single(Bin(e, if p <= q then p else q)) + a * c)[y] == ((Single(Bin(e, p)) + a) * (Single(Bin(e, q)) + c))[y]
    {
    }
  }

  /** A head of the left side absent from the right side stays in the difference. */
  lemma DiffAbsentLeft(h: Bin, a: multiset<int>, c: multiset<int>)
    requires c[h.element] == 0
    ensures Single(h) + (a - c) == (Single(h) + a) - c
  {
    forall y
      ensures (Single(h) + (a - c))[y] == ((Single(h) + a) - c)[y]
    {
    }
  }

  /** A head of the right side absent from the left side takes nothing away. */
  lemma DiffAbsentRight(h: Bin, a: multiset<int>, c: multiset<int>)
    requires a[h.element] == 0
    ensures a - c == a - (Single(h) + c)
  {
    forall y
      ensures (a - c)[y] == (a - (Single(h) + c))[y]
    {
    }
  }

  /** Equal heads leave the excess count of the left one, if any. */
  lemma DiffHead(e: int, p: int, q: int, a: multiset<int>, c: multiset<int>)
    requires p >= 1 && q >= 1 && a[e] == 0 && c[e] == 0
    ensures (if p - q > 0 then Single(Bin(e, p - q)) else multiset{}) + (a - c) == (Single(Bin(e, p)) + a) - (Single(Bin(e, q)) + c)
  {
    forall y
      ensures ((if p - q > 0 then Single(Bin(e, p - q)) else multiset{}) + (a - c))[y] == ((Single(Bin(e, p)) + a) - (Single(Bin(e, q)) + c))[y]
    {
    }
  }
}
