/**
 * A sorted bag stored as an array of bins. The first `bins` slots hold the
 * bins in increasing element order; `size` counts every occurrence. Slots
 * past `bins` are whatever earlier shifts left there (`None` is `null`),
 * which matters because several operations read or write beyond `bins`.
 */
module SortedArrayBag {
  import opened Wrappers
  import opened SortedSeqs
  import opened Bins

  const DefaultInitialCapacity: nat := 16

  datatype ArrayBag = ArrayBag(comparatorId: nat, slots: seq<Option<Bin>>, bins: nat, size: nat)

  function Nones(n: nat): (s: seq<Option<Bin>>)
    ensures |s| == n && forall i | 0 <= i < n :: s[i] == None
  {
    seq(n, _ => None)
  }

  ghost predicate LiveSlotsFilled(b: ArrayBag) {
    b.bins <= |b.slots| && forall i | 0 <= i < b.bins :: b.slots[i].Some?
  }

  /** The bins in use. */
  function Live(b: ArrayBag): (bs: seq<Bin>)
    requires LiveSlotsFilled(b)
    ensures |bs| == b.bins && forall i | 0 <= i < b.bins :: bs[i] == b.slots[i].value
  {
    seq(b.bins, i requires 0 <= i < b.bins => b.slots[i].value)
  }

  /** Slots holding exactly `want` in their first `bins` places have `want` as their live bins. */
  lemma LiveIs(r: ArrayBag, want: seq<Bin>)
    requires r.bins == |want| <= |r.slots|
    requires forall k | 0 <= k < r.bins :: r.slots[k] == Some(want[k])
    ensures LiveSlotsFilled(r) && Live(r) == want
  {
  }

  /** A non-empty array whose first `bins` slots are well-formed bins totalling `size`. */
  ghost predicate Valid(b: ArrayBag) {
    0 < |b.slots| && LiveSlotsFilled(b) && WellFormed(Live(b)) && b.size == Total(Live(b))
  }

  function Elements(b: ArrayBag): multiset<int>
    requires LiveSlotsFilled(b)
  {
    Contents(Live(b))
  }

  /** Every bin holds at least one occurrence. */
  lemma SizeAtLeastBins(b: ArrayBag)
    requires Valid(b)
    ensures b.bins <= b.size
  {
    TotalAtLeastLength(Live(b));
  }

  function Size(b: ArrayBag): nat {
    b.size
  }

  function IsEmpty(b: ArrayBag): bool {
    b.size == 0
  }

  /** `size` counts every occurrence, and the bag is empty exactly when it has no bins. */
  lemma SizeIsCardinality(b: ArrayBag)
    requires Valid(b)
    ensures Size(b) == |Elements(b)|
    ensures IsEmpty(b) <==> b.bins == 0
  {
    TotalIsLength(Live(b));
  }

  function New(comparatorId: nat, initialCapacity: int): (r: Result<ArrayBag>)
    ensures r.Err? <==> initialCapacity <= 0
    ensures r.Err? ==> r.error == IllegalArgumentException
    ensures r.Ok? ==> Valid(r.value) && Elements(r.value) == multiset{}
                      && |r.value.slots| == initialCapacity && r.value.comparatorId == comparatorId
  {
    if initialCapacity <= 0 then Err(IllegalArgumentException)
    else Ok(ArrayBag(comparatorId, Nones(initialCapacity), 0, 0))
  }

  function Empty(comparatorId: nat): (b: ArrayBag)
    ensures Valid(b) && Elements(b) == multiset{} && |b.slots| == DefaultInitialCapacity
  {
    New(comparatorId, DefaultInitialCapacity).value
  }

  /** Doubles the array, padding with nulls, when every slot holds a bin. */
  function EnsureCapacity(b: ArrayBag): (r: ArrayBag)
    requires Valid(b)
    ensures Valid(r) && r.bins == b.bins && r.bins < |r.slots| && Live(r) == Live(b)
    ensures |r.slots| >= |b.slots| && r.slots[..|b.slots|] == b.slots
    ensures |r.slots| == if b.bins == |b.slots| then 2 * |b.slots| else |b.slots|
    ensures r.size == b.size && r.comparatorId == b.comparatorId
  {
    if b.bins == |b.slots| then
      var r := b.(slots := b.slots + Nones(|b.slots|));
      LiveIs(r, Live(b));
      r
    else b
  }

  /** The insertion point of `x` among the bin elements. */
  function Index(b: ArrayBag, x: int): nat
    requires LiveSlotsFilled(b)
  {
    Position(Keys(Live(b)), x)
  }

  predicate Found(b: ArrayBag, x: int)
    requires LiveSlotsFilled(b)
  {
    Index(b, x) < b.bins && Live(b)[Index(b, x)].element == x
  }

  lemma FoundIsMember(b: ArrayBag, x: int)
    requires Valid(b)
    ensures Found(b, x) <==> x in Elements(b)
    ensures Index(b, x) <= b.bins
  {
    MemberAtPosition(Keys(Live(b)), x);
    WellFormedMembers(Live(b), x);
  }

  /** The Finder: `Arrays.binarySearch` over the bins' elements, decoded. */
  method Finder(b: ArrayBag, x: int) returns (found: bool, index: nat)
    requires Valid(b)
    ensures found <==> x in Elements(b)
    ensures index == Position(Keys(Live(b)), x)
  {
    var r := ArraysBinarySearch(Keys(Live(b)), x);
    found := r >= 0;
    index := if found then r else -(r + 1);
    FoundIsMember(b, x);
  }

  function Occurrences(b: ArrayBag, x: int): (n: int)
    requires Valid(b)
    ensures n == Elements(b)[x]
  {
    FoundIsMember(b, x);
    ContentsCount(Live(b), x);
    if Found(b, x) then Live(b)[Index(b, x)].occurrences else 0
  }

  // ---------------------------------------------------------------------
  // The shift loops, with Java's array bounds checks.
  // ---------------------------------------------------------------------

  /** `for (i = hi; i >= lo; i--) a[i + 1] = a[i];` */
  function ShiftUp(a: seq<Option<Bin>>, lo: nat, hi: int): (r: Result<seq<Option<Bin>>>)
    ensures r.Err? ==> r.error == ArrayIndexOutOfBoundsException
    ensures r.Ok? ==> |r.value| == |a|
    decreases hi + 1
  {
    if hi < lo then Ok(a)
    else if hi + 1 >= |a| then Err(ArrayIndexOutOfBoundsException)
    else ShiftUp(a[hi + 1 := a[hi]], lo, hi - 1)
  }

  /** The loop fails exactly when its first store is out of bounds; otherwise it moves `a[lo..hi]` up one place. */
  lemma {:induction false} ShiftUpEffect(a: seq<Option<Bin>>, lo: nat, hi: int)
    requires lo <= hi + 1
    ensures ShiftUp(a, lo, hi).Err? <==> lo <= hi && hi + 1 >= |a|
    ensures ShiftUp(a, lo, hi).Ok? ==>
      forall k {:trigger ShiftUp(a, lo, hi).value[k]} | 0 <= k < |a| :: ShiftUp(a, lo, hi).value[k] == if lo < k <= hi + 1 then a[k - 1] else a[k]
    decreases hi + 1
  {
    if lo <= hi && hi + 1 < |a| {
      var a' := a[hi + 1 := a[hi]];
      ShiftUpEffect(a', lo, hi - 1);
      var r := ShiftUp(a', lo, hi - 1).value;
      forall k | 0 <= k < |a|
        ensures r[k] == if lo < k <= hi + 1 then a[k - 1] else a[k]
      {
        if lo < k <= hi {
          assert r[k] == a'[k - 1];
        } else if k == hi + 1 {
          assert r[k] == a'[k];
        } else {
          assert r[k] == a'[k];
        }
      }
    }
  }

  /** `for (i = lo; i < hi; i++) a[i] = a[i + 1];` */
  function ShiftDown(a: seq<Option<Bin>>, lo: nat, hi: int): (r: Result<seq<Option<Bin>>>)
    ensures r.Err? ==> r.error == ArrayIndexOutOfBoundsException
    ensures r.Ok? ==> |r.value| == |a|
    decreases hi - lo
  {
    if hi <= lo then Ok(a)
    else if lo + 1 >= |a| then Err(ArrayIndexOutOfBoundsException)
    else ShiftDown(a[lo := a[lo + 1]], lo + 1, hi)
  }

  /** The loop fails exactly when its last read is out of bounds; otherwise it moves `a[lo+1..hi]` down one place. */
  lemma {:induction false} ShiftDownEffect(a: seq<Option<Bin>>, lo: nat, hi: int)
    ensures ShiftDown(a, lo, hi).Err? <==> lo < hi && hi >= |a|
    ensures ShiftDown(a, lo, hi).Ok? ==>
      forall k {:trigger ShiftDown(a, lo, hi).value[k]} | 0 <= k < |a| :: ShiftDown(a, lo, hi).value[k] == if lo <= k < hi then a[k + 1] else a[k]
    decreases hi - lo
  {
    if lo < hi && lo + 1 < |a| {
      var a' := a[lo := a[lo + 1]];
      ShiftDownEffect(a', lo + 1, hi);
      if ShiftDown(a', lo + 1, hi).Ok? {
        var r := ShiftDown(a', lo + 1, hi).value;
        forall k | 0 <= k < |a|
          ensures r[k] == if lo <= k < hi then a[k + 1] else a[k]
        {
          if lo + 1 <= k < hi {
            assert r[k] == a'[k + 1];
          } else {
            assert r[k] == a'[k];
          }
        }
      }
    }
  }

  // ---------------------------------------------------------------------
  // Insertion.
  // ---------------------------------------------------------------------

  /** The array after making room for a new bin at the insertion point, shifting up to slot `hi`. */
  function OpenSlot(b: ArrayBag, x: int, hi: int): Result<ArrayBag>
    requires Valid(b)
  {
    var g := EnsureCapacity(b);
    var p := Index(b, x);
    var shifted :- ShiftUp(g.slots, p, hi);
    if p < |shifted| then
      Ok(ArrayBag(b.comparatorId, shifted[p := Some(Bin(x, 1))], b.bins + 1, b.size + 1))
    else Err(ArrayIndexOutOfBoundsException)
  }

  /** The live bins after a new bin for an absent `x` enters at its insertion point. */
  lemma OpenSlotLive(b: ArrayBag, x: int, hi: int)
    requires Valid(b) && x !in Elements(b) && b.bins - 1 <= hi
    requires OpenSlot(b, x, hi).Ok?
    ensures Valid(OpenSlot(b, x, hi).value)
    ensures Live(OpenSlot(b, x, hi).value) == Live(b)[..Index(b, x)] + [Bin(x, 1)] + Live(b)[Index(b, x)..]
    ensures Elements(OpenSlot(b, x, hi).value) == Elements(b) + multiset{x}
    ensures OpenSlot(b, x, hi).value.size == b.size + 1 && OpenSlot(b, x, hi).value.comparatorId == b.comparatorId
  {
    FoundIsMember(b, x);
    WellFormedMembers(Live(b), x);
    OpenSlotSlots(b, x, hi);
    AddBin(Live(b), x);
  }

  lemma OpenSlotSlots(b: ArrayBag, x: int, hi: int)
    requires Valid(b) && !Found(b, x) && b.bins - 1 <= hi
    requires OpenSlot(b, x, hi).Ok?
    ensures LiveSlotsFilled(OpenSlot(b, x, hi).value)
    ensures Live(OpenSlot(b, x, hi).value) == Live(b)[..Index(b, x)] + [Bin(x, 1)] + Live(b)[Index(b, x)..]
    ensures OpenSlot(b, x, hi).value.size == b.size + 1 && OpenSlot(b, x, hi).value.comparatorId == b.comparatorId
    ensures 0 < |OpenSlot(b, x, hi).value.slots|
  {
    FoundIsMember(b, x);
    ShiftUpEffect(EnsureCapacity(b).slots, Index(b, x), hi);
    OpenedSlots(EnsureCapacity(b).slots, Live(b), Index(b, x), Bin(x, 1), ShiftUp(EnsureCapacity(b).slots, Index(b, x), hi).value);
    LiveIs(OpenSlot(b, x, hi).value, Live(b)[..Index(b, x)] + [Bin(x, 1)] + Live(b)[Index(b, x)..]);
  }

  /** Slots holding `bs`, shifted up from `p`, with `nb` stored at `p`, hold `bs` with `nb` inserted at `p`. */
  lemma OpenedSlots(g: seq<Option<Bin>>, bs: seq<Bin>, p: nat, nb: Bin, shifted: seq<Option<Bin>>)
    requires p <= |bs| < |g| == |shifted|
    requires forall k | 0 <= k < |bs| :: g[k] == Some(bs[k])
    requires forall k {:trigger shifted[k]} | 0 <= k <= |bs| :: shifted[k] == if p < k then g[k - 1] else g[k]
    ensures forall k | 0 <= k < |bs| + 1 :: shifted[p := Some(nb)][k] == Some((bs[..p] + [nb] + bs[p..])[k])
  {
    forall k | 0 <= k < |bs| + 1
      ensures shifted[p := Some(nb)][k] == Some((bs[..p] + [nb] + bs[p..])[k])
    {
      if k < p {
        assert (bs[..p] + [nb] + bs[p..])[k] == bs[k];
      } else if k > p {
        assert (bs[..p] + [nb] + bs[p..])[k] == bs[k - 1];
      } else {
        assert (bs[..p] + [nb] + bs[p..])[k] == nb;
      }
    }
  }

  /**
   * The intended `insert`: a present element's count goes up by one; an
   * absent one gets a new bin, the shift bounded by the number of bins.
   */
  function Insert(b: ArrayBag, x: int): (r: ArrayBag)
    requires Valid(b)
    ensures Valid(r) && r.comparatorId == b.comparatorId
    ensures Elements(r) == Elements(b) + multiset{x}
    ensures Size(r) == Size(b) + 1
  {
    FoundIsMember(b, x);
    if Found(b, x) then
      IncrementBin(b, x)
    else
      OpenBin(b, x)
  }

  /** Gives an absent `x` a new bin at its insertion point, the shift bounded by the number of bins. */
  function OpenBin(b: ArrayBag, x: int): (r: ArrayBag)
    requires Valid(b) && !Found(b, x)
    ensures Valid(r) && r.comparatorId == b.comparatorId
    ensures Live(r) == Live(b)[..Index(b, x)] + [Bin(x, 1)] + Live(b)[Index(b, x)..]
    ensures Elements(r) == Elements(b) + multiset{x}
    ensures Size(r) == Size(b) + 1
    ensures |r.slots| == |EnsureCapacity(b).slots|
  {
    FoundIsMember(b, x);
    OpenSlotFits(b, x);
    OpenSlotLive(b, x, b.bins - 1);
    OpenSlot(b, x, b.bins - 1).value
  }

  /** With the shift bounded by the number of bins, a grown array always has room. */
  lemma OpenSlotFits(b: ArrayBag, x: int)
    requires Valid(b)
    ensures OpenSlot(b, x, b.bins - 1).Ok?
  {
    FoundIsMember(b, x);
    ShiftUpEffect(EnsureCapacity(b).slots, Index(b, x), b.bins - 1);
  }

  /** Bumps the count of the bin holding a present `x`. */
  function IncrementBin(b: ArrayBag, x: int): (r: ArrayBag)
    requires Valid(b) && Found(b, x)
    ensures Valid(r) && r.comparatorId == b.comparatorId && r.bins == b.bins
    ensures Elements(r) == Elements(b) + multiset{x}
    ensures Size(r) == Size(b) + 1
    ensures |r.slots| == |b.slots|
    ensures Live(r) == Live(b)[Index(b, x) := Bin(x, Live(b)[Index(b, x)].occurrences + 1)]
  {
    var p := Index(b, x);
    var bs := Live(b);
    var r := b.(slots := b.slots[p := Some(Bin(x, bs[p].occurrences + 1))], size := b.size + 1);
    LiveIs(r, bs[p := Bin(bs[p].element, bs[p].occurrences + 1)]);
    BumpBin(bs, p);
    r
  }

  /**
   * `insert` as written: the shift loop starts at `size - 1` (the number of
   * occurrences) rather than at the last bin.
   */
  function InsertAsWritten(b: ArrayBag, x: int): (r: Result<ArrayBag>)
    requires Valid(b)
    ensures r.Err? <==> x !in Elements(b) && Index(b, x) < b.size && b.size >= |EnsureCapacity(b).slots|
    ensures r.Err? ==> r.error == ArrayIndexOutOfBoundsException
    ensures r.Ok? ==> Valid(r.value) && Live(r.value) == Live(Insert(b, x)) && Size(r.value) == Size(Insert(b, x))
    ensures r.Ok? ==> |r.value.slots| == |Insert(b, x).slots| && r.value.comparatorId == b.comparatorId
  {
    FoundIsMember(b, x);
    if Found(b, x) then
      Ok(IncrementBin(b, x))
    else
      OpenSlotAsWritten(b, x);
      OpenSlotLength(b, x, b.size - 1);
      OpenSlot(b, x, b.size - 1)
  }

  /** A successful opening has the grown array's length and keeps the comparator. */
  lemma OpenSlotLength(b: ArrayBag, x: int, hi: int)
    requires Valid(b)
    ensures OpenSlot(b, x, hi).Ok? ==>
      |OpenSlot(b, x, hi).value.slots| == |EnsureCapacity(b).slots| && OpenSlot(b, x, hi).value.comparatorId == b.comparatorId
  {
  }

  /** Opening the slot with the shift bounded by `size` fails exactly when the first store overruns. */
  lemma OpenSlotAsWritten(b: ArrayBag, x: int)
    requires Valid(b) && !Found(b, x)
    ensures OpenSlot(b, x, b.size - 1).Err? <==> Index(b, x) < b.size && b.size >= |EnsureCapacity(b).slots|
    ensures OpenSlot(b, x, b.size - 1).Err? ==> OpenSlot(b, x, b.size - 1).error == ArrayIndexOutOfBoundsException
    ensures OpenSlot(b, x, b.bins - 1).Ok? && Valid(OpenSlot(b, x, b.bins - 1).value)
    ensures OpenSlot(b, x, b.size - 1).Ok? ==>
      Valid(OpenSlot(b, x, b.size - 1).value)
      && Live(OpenSlot(b, x, b.size - 1).value) == Live(OpenSlot(b, x, b.bins - 1).value)
      && Size(OpenSlot(b, x, b.size - 1).value) == Size(OpenSlot(b, x, b.bins - 1).value)
  {
    var g := EnsureCapacity(b);
    FoundIsMember(b, x);
    SizeAtLeastBins(b);
    ShiftUpEffect(g.slots, Index(b, x), b.size - 1);
    ShiftUpEffect(g.slots, Index(b, x), b.bins - 1);
    OpenSlotAgrees(b, x);
  }

  lemma OpenSlotAgrees(b: ArrayBag, x: int)
    requires Valid(b) && !Found(b, x)
    requires OpenSlot(b, x, b.bins - 1).Ok?
    ensures Valid(OpenSlot(b, x, b.bins - 1).value)
    ensures OpenSlot(b, x, b.size - 1).Ok? ==>
      Valid(OpenSlot(b, x, b.size - 1).value)
      && Live(OpenSlot(b, x, b.size - 1).value) == Live(OpenSlot(b, x, b.bins - 1).value)
      && Size(OpenSlot(b, x, b.size - 1).value) == Size(OpenSlot(b, x, b.bins - 1).value)
  {
    FoundIsMember(b, x);
    SizeAtLeastBins(b);
    OpenSlotLive(b, x, b.bins - 1);
    if OpenSlot(b, x, b.size - 1).Ok? {
      OpenSlotLive(b, x, b.size - 1);
    }
  }

  /** Every count one (`size == bins`): the insert as written never overruns. */
  lemma InsertAsWrittenSafeWithoutRepeats(b: ArrayBag, x: int)
    requires Valid(b) && b.size == b.bins
    ensures InsertAsWritten(b, x).Ok?
  {
  }

  // ---------------------------------------------------------------------
  // Deletion.
  // ---------------------------------------------------------------------

  /** The array after a bin whose count reached zero is closed up, shifting up to slot `hi`. */
  function CloseSlot(b: ArrayBag, x: int, hi: int): Result<ArrayBag>
    requires Valid(b) && Found(b, x)
  {
    var p := Index(b, x);
    var lowered := b.slots[p := Some(Bin(x, 0))];
    var shifted :- ShiftDown(lowered, p, hi);
    SizeAtLeastBins(b);
    Ok(ArrayBag(b.comparatorId, shifted, b.bins - 1, b.size - 1))
  }

  /** With the shift bounded by the number of bins, closing up never reads past the array. */
  lemma CloseSlotFits(b: ArrayBag, x: int)
    requires Valid(b) && Found(b, x)
    ensures CloseSlot(b, x, b.bins - 1).Ok?
  {
    ShiftDownEffect(b.slots[Index(b, x) := Some(Bin(x, 0))], Index(b, x), b.bins - 1);
  }

  lemma CloseSlotLive(b: ArrayBag, x: int, hi: int)
    requires Valid(b) && Found(b, x) && Live(b)[Index(b, x)].occurrences == 1 && b.bins - 1 <= hi
    requires CloseSlot(b, x, hi).Ok?
    ensures Valid(CloseSlot(b, x, hi).value)
    ensures Live(CloseSlot(b, x, hi).value) == Live(b)[..Index(b, x)] + Live(b)[Index(b, x) + 1..]
    ensures Elements(CloseSlot(b, x, hi).value) == Elements(b) - multiset{x}
    ensures CloseSlot(b, x, hi).value.size == b.size - 1 && CloseSlot(b, x, hi).value.comparatorId == b.comparatorId
  {
    CloseSlotSlots(b, x, hi);
    DropBin(Live(b), Index(b, x));
  }

  lemma CloseSlotSlots(b: ArrayBag, x: int, hi: int)
    requires Valid(b) && Found(b, x) && b.bins - 1 <= hi
    requires CloseSlot(b, x, hi).Ok?
    ensures LiveSlotsFilled(CloseSlot(b, x, hi).value)
    ensures Live(CloseSlot(b, x, hi).value) == Live(b)[..Index(b, x)] + Live(b)[Index(b, x) + 1..]
    ensures CloseSlot(b, x, hi).value.size == b.size - 1 && CloseSlot(b, x, hi).value.comparatorId == b.comparatorId
    ensures 0 < |CloseSlot(b, x, hi).value.slots|
  {
    ShiftDownEffect(b.slots[Index(b, x) := Some(Bin(x, 0))], Index(b, x), hi);
    ClosedSlots(b.slots, Live(b), Index(b, x), Bin(x, 0), ShiftDown(b.slots[Index(b, x) := Some(Bin(x, 0))], Index(b, x), hi).value);
    LiveIs(CloseSlot(b, x, hi).value, Live(b)[..Index(b, x)] + Live(b)[Index(b, x) + 1..]);
  }

  /** Slots holding `bs`, with slot `p` overwritten and the rest shifted down onto it, hold `bs` without entry `p`. */
  lemma ClosedSlots(a: seq<Option<Bin>>, bs: seq<Bin>, p: nat, nb: Bin, shifted: seq<Option<Bin>>)
    requires p < |bs| <= |a| == |shifted|
    requires forall k | 0 <= k < |bs| :: a[k] == Some(bs[k])
    requires forall k {:trigger shifted[k]} | 0 <= k < |bs| - 1 :: shifted[k] == if p <= k then a[p := Some(nb)][k + 1] else a[p := Some(nb)][k]
    ensures forall k | 0 <= k < |bs| - 1 :: shifted[k] == Some((bs[..p] + bs[p + 1..])[k])
  {
    forall k | 0 <= k < |bs| - 1
      ensures shifted[k] == Some((bs[..p] + bs[p + 1..])[k])
    {
      if k < p {
        assert (bs[..p] + bs[p + 1..])[k] == bs[k];
      } else {
        assert (bs[..p] + bs[p + 1..])[k] == bs[k + 1];
      }
    }
  }

  /** Lowers the count of the bin holding a present `x` that occurs more than once. */
  function DecrementBin(b: ArrayBag, x: int): (r: ArrayBag)
    requires Valid(b) && Found(b, x) && Live(b)[Index(b, x)].occurrences > 1
    ensures Valid(r) && r.comparatorId == b.comparatorId && r.bins == b.bins
    ensures Elements(r) == Elements(b) - multiset{x}
  {
    var p := Index(b, x);
    var bs := Live(b);
    SizeAtLeastBins(b);
    LowerBin(bs, p);
    var r := b.(slots := b.slots[p := Some(Bin(x, bs[p].occurrences - 1))], size := b.size - 1);
    LiveIs(r, bs[p := Bin(bs[p].element, bs[p].occurrences - 1)]);
    r
  }

  /** The intended `delete`: one occurrence fewer; an emptied bin is closed up, the shift bounded by the bins. */
  function Delete(b: ArrayBag, x: int): (r: ArrayBag)
    requires Valid(b)
    ensures Valid(r) && r.comparatorId == b.comparatorId
    ensures Elements(r) == Elements(b) - multiset{x}
    ensures Size(r) == if x in Elements(b) then Size(b) - 1 else Size(b)
  {
    FoundIsMember(b, x);
    SizeIsCardinality(b);
    if !Found(b, x) then
      b
    else if Live(b)[Index(b, x)].occurrences > 1 then
      var r := DecrementBin(b, x);
      SizeIsCardinality(r);
      r
    else
      var r := CloseBin(b, x);
      SizeIsCardinality(r);
      r
  }

  /** Closes up the bin of an `x` that occurs once, the shift bounded by the number of bins. */
  function CloseBin(b: ArrayBag, x: int): (r: ArrayBag)
    requires Valid(b) && Found(b, x) && Live(b)[Index(b, x)].occurrences == 1
    ensures Valid(r) && r.comparatorId == b.comparatorId
    ensures Live(r) == Live(b)[..Index(b, x)] + Live(b)[Index(b, x) + 1..]
    ensures Elements(r) == Elements(b) - multiset{x}
    ensures Size(r) == Size(b) - 1
  {
    CloseSlotFits(b, x);
    CloseSlotLive(b, x, b.bins - 1);
    CloseSlot(b, x, b.bins - 1).value
  }

  /**
   * `delete` as written: closing an emptied bin runs `i` up to `size - 1`
   * and reads `elements[i + 1]`.
   */
  function DeleteAsWritten(b: ArrayBag, x: int): (r: Result<ArrayBag>)
    requires Valid(b)
    ensures r.Err? <==> x in Elements(b) && Elements(b)[x] == 1 && b.size >= |b.slots|
    ensures r.Err? ==> r.error == ArrayIndexOutOfBoundsException
    ensures r.Ok? ==> Valid(r.value) && Live(r.value) == Live(Delete(b, x)) && Size(r.value) == Size(Delete(b, x))
  {
    FoundIsMember(b, x);
    ContentsCount(Live(b), x);
    if !Found(b, x) then Ok(b)
    else if Live(b)[Index(b, x)].occurrences > 1 then Ok(DecrementBin(b, x))
    else
      CloseSlotAsWritten(b, x);
      CloseSlot(b, x, b.size)
  }

  /** Closing up with the shift bounded by `size` fails exactly when the array is full; otherwise it agrees with `CloseBin`. */
  lemma CloseSlotAsWritten(b: ArrayBag, x: int)
    requires Valid(b) && Found(b, x) && Live(b)[Index(b, x)].occurrences == 1
    ensures CloseSlot(b, x, b.size).Err? <==> b.size >= |b.slots|
    ensures CloseSlot(b, x, b.size).Err? ==> CloseSlot(b, x, b.size).error == ArrayIndexOutOfBoundsException
    ensures CloseSlot(b, x, b.size).Ok? ==>
      Valid(CloseSlot(b, x, b.size).value)
      && Live(CloseSlot(b, x, b.size).value) == Live(CloseBin(b, x))
      && CloseSlot(b, x, b.size).value.size == b.size - 1
  {
    SizeAtLeastBins(b);
    ShiftDownEffect(b.slots[Index(b, x) := Some(Bin(x, 0))], Index(b, x), b.size);
    if CloseSlot(b, x, b.size).Ok? {
      CloseSlotLive(b, x, b.size);
    }
  }

  // ---------------------------------------------------------------------
  // Queries.
  // ---------------------------------------------------------------------

  function Minimum(b: ArrayBag): (r: Result<int>)
    requires Valid(b)
    ensures r.Err? <==> Elements(b) == multiset{}
    ensures r.Err? ==> r.error == NoSuchElementException
    ensures r.Ok? ==> r.value in Elements(b) && forall y | y in Elements(b) :: r.value <= y
  {
    SizeIsCardinality(b);
    if IsEmpty(b) then Err(NoSuchElementException)
    else
      BoundsOfElements(b);
      Ok(Live(b)[0].element)
  }

  /** The intended `maximum`: the element of the last bin. */
  function Maximum(b: ArrayBag): (r: Result<int>)
    requires Valid(b)
    ensures r.Err? <==> Elements(b) == multiset{}
    ensures r.Err? ==> r.error == NoSuchElementException
    ensures r.Ok? ==> r.value in Elements(b) && forall y | y in Elements(b) :: y <= r.value
  {
    SizeIsCardinality(b);
    if IsEmpty(b) then Err(NoSuchElementException)
    else
      BoundsOfElements(b);
      Ok(Live(b)[b.bins - 1].element)
  }

  /** The first bin holds the least element and the last bin the greatest. */
  lemma BoundsOfElements(b: ArrayBag)
    requires Valid(b) && b.bins > 0
    ensures Live(b)[0].element in Elements(b) && Live(b)[b.bins - 1].element in Elements(b)
    ensures forall y | y in Elements(b) :: Live(b)[0].element <= y <= Live(b)[b.bins - 1].element
  {
    WellFormedMembers(Live(b), Live(b)[0].element);
    WellFormedMembers(Live(b), Live(b)[b.bins - 1].element);
    forall y | y in Elements(b)
      ensures Live(b)[0].element <= y <= Live(b)[b.bins - 1].element
    {
      WellFormedMembers(Live(b), y);
      BetweenEnds(Keys(Live(b)), y);
    }
  }

  /**
   * `maximum` as written: reads slot `size - 1`, which is the last bin only
   * when every count is one.
   */
  function MaximumAsWritten(b: ArrayBag): (r: Result<int>)
    requires Valid(b)
    ensures IsEmpty(b) ==> r == Err(NoSuchElementException)
    ensures b.size == b.bins ==> r == Maximum(b)
  {
    if IsEmpty(b) then Err(NoSuchElementException)
    else if b.size - 1 >= |b.slots| then Err(ArrayIndexOutOfBoundsException)
    else if b.slots[b.size - 1].None? then Err(NullPointerException)
    else Ok(b.slots[b.size - 1].value.element)
  }

  /** `clear` drops every bin and leaves the array untouched. */
  function Clear(b: ArrayBag): (r: ArrayBag)
    requires Valid(b)
    ensures Valid(r) && Elements(r) == multiset{} && r.slots == b.slots
  {
    if IsEmpty(b) then
      SizeIsCardinality(b);
      b
    else b.(bins := 0, size := 0)
  }

  // ---------------------------------------------------------------------
  // Iteration and construction.
  // ---------------------------------------------------------------------

  /** The iterator: walks the bins, yielding each element as often as it occurs. */
  method Iterate(b: ArrayBag) returns (xs: seq<int>)
    requires Valid(b)
    ensures xs == Expand(Live(b))
    ensures multiset(xs) == Elements(b) && NonDecreasing(xs)
  {
    var bs := Live(b);
    var binIndex := 0;
    var occurrencesLeft := 0;
    xs := [];
    if b.bins > 0 {
      occurrencesLeft := b.slots[0].value.occurrences;
      IterateStart(bs);
    }
    while binIndex < b.bins
      invariant 0 <= binIndex <= b.bins
      invariant binIndex < b.bins ==> 1 <= occurrencesLeft <= bs[binIndex].occurrences
      invariant binIndex < b.bins ==>
        xs + Repeat(bs[binIndex].element, occurrencesLeft) + Expand(bs[binIndex + 1..]) == Expand(bs)
      invariant binIndex == b.bins ==> xs == Expand(bs)
      decreases b.bins - binIndex, occurrencesLeft
    {
      binIndex, occurrencesLeft, xs := IterateNext(bs, binIndex, occurrencesLeft, xs);
    }
    ExpandIsContents(bs);
    ExpandSorted(bs);
  }

  /** Before the first step, the whole listing is still ahead. */
  lemma IterateStart(bs: seq<Bin>)
    requires bs != []
    ensures [] + Repeat(bs[0].element, bs[0].occurrences) + Expand(bs[0 + 1..]) == Expand(bs)
  {
  }

  /**
   * One step of the iterator over the live bins `bs`: yield the current
   * element, then move to the next bin when this one is spent.
   */
  method IterateNext(bs: seq<Bin>, i: nat, left: int, xs: seq<int>) returns (i': nat, left': int, xs': seq<int>)
    requires Positive(bs) && i < |bs| && 1 <= left <= bs[i].occurrences
    requires xs + Repeat(bs[i].element, left) + Expand(bs[i + 1..]) == Expand(bs)
    ensures i' == i + 1 || (i' == i && left' == left - 1)
    ensures i' <= |bs|
    ensures i' < |bs| ==> 1 <= left' <= bs[i'].occurrences
    ensures i' < |bs| ==> xs' + Repeat(bs[i'].element, left') + Expand(bs[i' + 1..]) == Expand(bs)
    ensures i' == |bs| ==> xs' == Expand(bs)
  {
    xs' := xs + [bs[i].element];
    left' := left - 1;
    i' := i;
    if left' > 0 {
      StepWithin(bs, i, xs, left);
    } else if i + 1 < |bs| {
      StepAcross(bs, i, xs);
      i' := i + 1;
      left' := bs[i'].occurrences;
    } else {
      StepLast(bs, i, xs);
      i' := i + 1;
    }
  }

  /** Yielding one occurrence of a bin that has more left. */
  lemma StepWithin(bs: seq<Bin>, i: nat, xs: seq<int>, left: int)
    requires i < |bs| && 1 < left
    requires xs + Repeat(bs[i].element, left) + Expand(bs[i + 1..]) == Expand(bs)
    ensures (xs + [bs[i].element]) + Repeat(bs[i].element, left - 1) + Expand(bs[i + 1..]) == Expand(bs)
  {
    assert Repeat(bs[i].element, left) == [bs[i].element] + Repeat(bs[i].element, left - 1);
  }

  /** Yielding the last occurrence of a bin that has a successor. */
  lemma StepAcross(bs: seq<Bin>, i: nat, xs: seq<int>)
    requires i + 1 < |bs|
    requires xs + Repeat(bs[i].element, 1) + Expand(bs[i + 1..]) == Expand(bs)
    ensures (xs + [bs[i].element]) + Repeat(bs[i + 1].element, bs[i + 1].occurrences) + Expand(bs[i + 1 + 1..]) == Expand(bs)
  {
    calc {
      (xs + [bs[i].element]) + Repeat(bs[i + 1].element, bs[i + 1].occurrences) + Expand(bs[i + 1 + 1..]);
    == { Regroup(xs + [bs[i].element], Repeat(bs[i + 1].element, bs[i + 1].occurrences), Expand(bs[i + 1 + 1..])); }
      (xs + [bs[i].element]) + (Repeat(bs[i + 1].element, bs[i + 1].occurrences) + Expand(bs[i + 1 + 1..]));
    == { ExpandFirst(bs[i + 1..]); assert bs[i + 1..][1..] == bs[i + 1 + 1..]; }
      (xs + [bs[i].element]) + Expand(bs[i + 1..]);
    == { assert Repeat(bs[i].element, 1) == [bs[i].element]; }
      xs + Repeat(bs[i].element, 1) + Expand(bs[i + 1..]);
    }
  }

  /** Concatenation regroups to the right. */
  lemma Regroup(a: seq<int>, b: seq<int>, c: seq<int>)
    ensures a + b + c == a + (b + c)
  {
  }

  /** Yielding the last occurrence of the last bin. */
  lemma StepLast(bs: seq<Bin>, i: nat, xs: seq<int>)
    requires i + 1 == |bs|
    requires xs + Repeat(bs[i].element, 1) + Expand(bs[i + 1..]) == Expand(bs)
    ensures xs + [bs[i].element] == Expand(bs)
  {
    assert Repeat(bs[i].element, 1) == [bs[i].element];
    assert bs[i + 1..] == [];
  }

  /** Appends a bin after the present ones, growing the array if it is full. */
  function AppendBin(b: ArrayBag, nb: Bin): (r: ArrayBag)
    requires Valid(b) && nb.occurrences >= 1
    requires b.bins == 0 || Live(b)[b.bins - 1].element < nb.element
    ensures Valid(r) && Live(r) == Live(b) + [nb] && r.comparatorId == b.comparatorId
  {
    var g := EnsureCapacity(b);
    var r := ArrayBag(b.comparatorId, g.slots[b.bins := Some(nb)], b.bins + 1, b.size + nb.occurrences);
    LiveIs(r, Live(b) + [nb]);
    Snoc(Live(b), nb);
    r
  }

  /**
   * `copyOf`: groups the runs of equal elements of a sorted iteration into
   * bins of a default-capacity bag, then takes the source's size.
   */
  method CopyOf(comparatorId: nat, that: seq<int>) returns (r: ArrayBag)
    requires NonDecreasing(that)
    ensures Valid(r) && r.comparatorId == comparatorId
    ensures Expand(Live(r)) == that
    ensures Elements(r) == multiset(that) && Size(r) == |that|
  {
    r := Empty(comparatorId);
    if that == [] {
      return;
    }
    var current := that[0];
    var count := 1;
    var k := 1;
    StartRun(that, 0);
    while k < |that|
      invariant 1 <= k <= |that|
      invariant Grouped(r, current, count, that, k) && r.comparatorId == comparatorId
    {
      r, current, count := GroupNext(r, current, count, that, k);
      k := k + 1;
    }
    FinishCopy(r, current, count, that);
    r := AppendBin(r, Bin(current, count));
  }

  /**
   * The grouping loop's state after reading `that[..k]`: the closed runs are
   * the bins of `r`, and the open run is `count` copies of `current`, which
   * lies above every bin.
   */
  ghost predicate Grouped(r: ArrayBag, current: int, count: nat, that: seq<int>, k: nat) {
    1 <= k <= |that| && 1 <= count <= k && current == that[k - 1]
    && Valid(r) && (r.bins == 0 || Live(r)[r.bins - 1].element < current)
    && Expand(Live(r)) + Repeat(current, count) == that[..k]
  }

  /** Closing the last run into a bin completes the copy. */
  lemma FinishCopy(r: ArrayBag, current: int, count: nat, that: seq<int>)
    requires Grouped(r, current, count, that, |that|)
    ensures Expand(Live(AppendBin(r, Bin(current, count)))) == that
    ensures Elements(AppendBin(r, Bin(current, count))) == multiset(that)
    ensures Size(AppendBin(r, Bin(current, count))) == |that|
  {
    assert that[..|that|] == that;
    CloseRun(Live(r), current, count, that, |that|);
    TotalIsLength(Live(AppendBin(r, Bin(current, count))));
    ExpandIsContents(Live(AppendBin(r, Bin(current, count))));
  }

  /** The body of the grouping loop: `that[k]` extends the current run or closes it into a bin. */
  method GroupNext(r: ArrayBag, current: int, count: nat, that: seq<int>, k: nat)
      returns (r': ArrayBag, current': int, count': nat)
    requires NonDecreasing(that) && k < |that| && Grouped(r, current, count, that, k)
    ensures Grouped(r', current', count', that, k + 1) && r'.comparatorId == r.comparatorId
  {
    if that[k] == current {
      SameRun(r, current, count, that, k);
      r', current', count' := r, current, count + 1;
    } else {
      NextRun(r, current, count, that, k);
      r' := AppendBin(r, Bin(current, count));
      current', count' := that[k], 1;
    }
  }

  /** A repeat of the current element keeps the bins and lengthens the open run. */
  lemma SameRun(r: ArrayBag, current: int, count: nat, that: seq<int>, k: nat)
    requires k < |that| && that[k] == current && Grouped(r, current, count, that, k)
    ensures Grouped(r, current, count + 1, that, k + 1)
  {
    ExtendRun(Expand(Live(r)), current, count, that, k);
  }

  /** A new element closes the current run into a bin and starts a run of its own. */
  lemma NextRun(r: ArrayBag, current: int, count: nat, that: seq<int>, k: nat)
    requires NonDecreasing(that) && k < |that| && that[k] != current && Grouped(r, current, count, that, k)
    ensures Grouped(AppendBin(r, Bin(current, count)), that[k], 1, that, k + 1)
    ensures AppendBin(r, Bin(current, count)).comparatorId == r.comparatorId
  {
    assert that[k - 1] <= that[k];
    CloseRun(Live(r), current, count, that, k);
    StartRun(that, k);
  }

  /** A repeat of the current element extends its run. */
  lemma ExtendRun(done: seq<int>, current: int, count: nat, that: seq<int>, k: nat)
    requires 1 <= k < |that| && that[k] == current
    requires done + Repeat(current, count) == that[..k]
    ensures done + Repeat(current, count + 1) == that[..k + 1]
  {
    RepeatSnoc(current, count);
    assert that[..k + 1] == that[..k] + [that[k]];
  }

  /** Closing the current run as a bin keeps the iteration grouped so far. */
  lemma CloseRun(bs: seq<Bin>, current: int, count: nat, that: seq<int>, k: nat)
    requires k <= |that|
    requires Expand(bs) + Repeat(current, count) == that[..k]
    ensures Expand(bs + [Bin(current, count)]) == that[..k]
  {
    AppendExpand(bs, [Bin(current, count)]);
    OneBin(Bin(current, count));
  }

  /** A new element starts a run of one. */
  lemma StartRun(that: seq<int>, k: nat)
    requires k < |that|
    ensures that[..k] + Repeat(that[k], 1) == that[..k + 1]
  {
    assert that[..k + 1] == that[..k] + [that[k]];
    assert Repeat(that[k], 1) == [that[k]];
  }

  /** Inserts the elements one by one. */
  function InsertAll(b: ArrayBag, xs: seq<int>): (r: ArrayBag)
    requires Valid(b)
    ensures Valid(r) && r.comparatorId == b.comparatorId
    ensures Elements(r) == Elements(b) + multiset(xs)
    decreases |xs|
  {
    if xs == [] then b
    else
      assert xs == [xs[0]] + xs[1..];
      InsertAll(Insert(b, xs[0]), xs[1..])
  }

  /**
   * `of` and `from` with the corrected `insert`: a default-capacity bag
   * receiving every element in turn. `OfAsWritten` uses the insert as written.
   */
  function Of(comparatorId: nat, xs: seq<int>): (r: ArrayBag)
    ensures Valid(r) && r.comparatorId == comparatorId && Elements(r) == multiset(xs)
  {
    InsertAll(Empty(comparatorId), xs)
  }

  /** Bags no insertion can tell apart: the same live bins, size, capacity and comparator. */
  ghost predicate Alike(b: ArrayBag, c: ArrayBag) {
    Valid(b) && Valid(c) && Live(b) == Live(c) && b.size == c.size
    && |b.slots| == |c.slots| && b.comparatorId == c.comparatorId
  }

  /** Both inserts see only what `Alike` compares. */
  lemma InsertAlike(b: ArrayBag, c: ArrayBag, x: int)
    requires Alike(b, c)
    ensures Alike(Insert(b, x), Insert(c, x))
    ensures InsertAsWritten(b, x).Err? <==> InsertAsWritten(c, x).Err?
    ensures InsertAsWritten(b, x).Ok? ==> Alike(InsertAsWritten(b, x).value, Insert(c, x))
  {
    FoundIsMember(b, x);
    FoundIsMember(c, x);
  }

  /** Inserts the elements one by one with the insert as written, stopping at the first failure. */
  function InsertAllAsWritten(b: ArrayBag, xs: seq<int>): (r: Result<ArrayBag>)
    requires Valid(b)
    ensures r.Err? ==> r.error == ArrayIndexOutOfBoundsException
    ensures r.Ok? ==> Valid(r.value) && r.value.comparatorId == b.comparatorId
    decreases |xs|
  {
    if xs == [] then Ok(b)
    else
      var b' :- InsertAsWritten(b, xs[0]);
      InsertAllAsWritten(b', xs[1..])
  }

  /** The corrected inserts over a prefix of length `i` start with the first element. */
  lemma InsertAllPrefix(c: ArrayBag, xs: seq<int>, i: nat)
    requires Valid(c) && 0 < i <= |xs|
    ensures InsertAll(c, xs[..i]) == InsertAll(Insert(c, xs[0]), xs[1..][..i - 1])
  {
    var p := xs[..i];
    assert p[0] == xs[0] && p[1..] == xs[1..][..i - 1];
  }

  /** The corrected inserts start with the first element. */
  lemma InsertAllStep(c: ArrayBag, xs: seq<int>)
    requires Valid(c) && xs != []
    ensures InsertAll(c, xs) == InsertAll(Insert(c, xs[0]), xs[1..])
  {
  }

  /** Every prefix after the first element is a prefix of the tail, started from the first insert. */
  lemma StepsShift(c: ArrayBag, xs: seq<int>)
    requires Valid(c) && xs != []
    ensures forall i | 0 < i < |xs| ::
      InsertAll(c, xs[..i]) == InsertAll(Insert(c, xs[0]), xs[1..][..i - 1]) && xs[i] == xs[1..][i - 1]
  {
    forall i | 0 < i < |xs|
      ensures InsertAll(c, xs[..i]) == InsertAll(Insert(c, xs[0]), xs[1..][..i - 1])
    {
      InsertAllPrefix(c, xs, i);
    }
  }

  /** One step of the insertion as written, when the first insert succeeds. */
  lemma InsertAllAsWrittenStep(b: ArrayBag, xs: seq<int>)
    requires Valid(b) && xs != [] && InsertAsWritten(b, xs[0]).Ok?
    ensures InsertAllAsWritten(b, xs) == InsertAllAsWritten(InsertAsWritten(b, xs[0]).value, xs[1..])
  {
  }

  /**
   * Inserting as written from a bag alike to `c` fails exactly when some
   * step's insert as written fails on the bag the corrected inserts have
   * built from `c` so far; otherwise it ends alike to the corrected result.
   */
  lemma {:induction false} InsertAllAsWrittenTracks(b: ArrayBag, c: ArrayBag, xs: seq<int>)
    requires Alike(b, c)
    ensures InsertAllAsWritten(b, xs).Err? <==>
      exists i | 0 <= i < |xs| :: InsertAsWritten(InsertAll(c, xs[..i]), xs[i]).Err?
    ensures InsertAllAsWritten(b, xs).Ok? ==> Alike(InsertAllAsWritten(b, xs).value, InsertAll(c, xs))
    decreases |xs|
  {
    if xs == [] {
    } else {
      InsertAlike(b, c, xs[0]);
      assert InsertAll(c, xs[..0]) == c by { assert xs[..0] == []; }
      if InsertAsWritten(b, xs[0]).Ok? {
        var b' := InsertAsWritten(b, xs[0]).value;
        InsertAllAsWrittenTracks(b', Insert(c, xs[0]), xs[1..]);
        InsertAllAsWrittenStep(b, xs);
        InsertAllStep(c, xs);
        StepsShift(c, xs);
      }
    }
  }

  /**
   * `of` and `from` as written: every element goes through the insert as
   * written, so building fails exactly when one of those inserts overruns
   * the array; otherwise the bag agrees with the corrected `Of`.
   */
  function OfAsWritten(comparatorId: nat, xs: seq<int>): (r: Result<ArrayBag>)
    ensures r.Err? ==> r.error == ArrayIndexOutOfBoundsException
    ensures r.Err? <==> exists i | 0 <= i < |xs| :: InsertAsWritten(Of(comparatorId, xs[..i]), xs[i]).Err?
    ensures r.Ok? ==> Valid(r.value) && r.value.comparatorId == comparatorId
                      && Live(r.value) == Live(Of(comparatorId, xs)) && Elements(r.value) == multiset(xs)
  {
    InsertAllAsWrittenTracks(Empty(comparatorId), Empty(comparatorId), xs);
    InsertAllAsWritten(Empty(comparatorId), xs)
  }

  /** Inserting 1 into a bag whose only bin holds `k` 1s bumps that bin and keeps the array. */
  lemma BumpOne(b: ArrayBag, k: nat)
    requires Valid(b) && b.bins == 1 && Live(b)[0] == Bin(1, k)
    ensures Valid(Insert(b, 1)) && Insert(b, 1).bins == 1 && Live(Insert(b, 1))[0] == Bin(1, k + 1)
    ensures |Insert(b, 1).slots| == |b.slots|
  {
    assert Keys(Live(b)) == [1];
    assert Position(Keys(Live(b)), 1) == 0;
    assert Found(b, 1);
  }

  /** Inserting more 1s into a bag whose only bin holds `k` 1s bumps that bin and keeps the array. */
  lemma {:induction false} InsertOnes(b: ArrayBag, k: nat, xs: seq<int>)
    requires Valid(b) && b.bins == 1 && Live(b)[0] == Bin(1, k)
    requires forall i | 0 <= i < |xs| :: xs[i] == 1
    ensures InsertAll(b, xs).bins == 1 && Live(InsertAll(b, xs))[0] == Bin(1, k + |xs|)
    ensures |InsertAll(b, xs).slots| == |b.slots|
    decreases |xs|
  {
    if xs != [] {
      assert xs[0] == 1;
      InsertAllStep(b, xs);
      BumpOne(b, k);
      InsertOnes(Insert(b, 1), k + 1, xs[1..]);
    }
  }

  /** Sixteen 1s fill the one bin of a default-capacity array without growing it. */
  lemma SixteenOnes()
    ensures Live(Of(0, seq(16, _ => 1))) == [Bin(1, 16)] && |Of(0, seq(16, _ => 1)).slots| == 16
  {
    var xs := seq(16, _ => 1);
    var e := Empty(0);
    assert Live(e) == [] && Position(Keys(Live(e)), 1) == 0;
    assert |xs| == 16 && xs[0] == 1;
    var one := Insert(e, 1);
    assert Live(one) == [Bin(1, 1)];
    InsertAllStep(e, xs);
    InsertOnes(one, 1, xs[1..]);
    assert Live(Of(0, xs)) == [Bin(1, 16)];
  }

  /**
   * `of(1, …, 1, 2)` with sixteen 1s: the corrected build holds all
   * seventeen elements, while the build as written overruns the default array.
   */
  lemma OfAsWrittenOnRepeatedElement()
    ensures |Elements(Of(0, seq(16, _ => 1) + [2]))| == 17
    ensures OfAsWritten(0, seq(16, _ => 1) + [2]) == Err(ArrayIndexOutOfBoundsException)
  {
    var xs := seq(16, _ => 1) + [2];
    var b := Of(0, seq(16, _ => 1));
    SixteenOnes();
    OneBin(Bin(1, 16));
    assert Position(Keys(Live(b)), 2) == 1;
    WellFormedMembers(Live(b), 2);
    assert InsertAsWritten(b, 2).Err?;
    assert xs[..16] == seq(16, _ => 1) && xs[16] == 2;
  }

  /** Occurrences after insertion and deletion change only at the element concerned. */
  lemma InsertDeleteOccurrences(b: ArrayBag, x: int, y: int)
    requires Valid(b)
    ensures Occurrences(Insert(b, x), y) == Occurrences(b, y) + (if x == y then 1 else 0)
    ensures Occurrences(Delete(b, x), y) == if x == y && Occurrences(b, y) > 0 then Occurrences(b, y) - 1 else Occurrences(b, y)
  {
  }

  // ---------------------------------------------------------------------
  // States that expose the defects.
  // ---------------------------------------------------------------------

  /** Two copies of one element: one bin, but `size` is 2 and slot 1 is null. */
  lemma MaximumAsWrittenOnRepeatedElement()
    ensures var b := ArrayBag(0, [Some(Bin(1, 2))] + Nones(15), 1, 2);
            Valid(b) && Elements(b) == multiset{1, 1}
            && MaximumAsWritten(b) == Err(NullPointerException) && Maximum(b) == Ok(1)
  {
    var b := ArrayBag(0, [Some(Bin(1, 2))] + Nones(15), 1, 2);
    assert Live(b) == [Bin(1, 2)];
    OneBin(Bin(1, 2));
    assert Single(Bin(1, 2)) == multiset{1, 1};
  }

  /** Sixteen copies of one element fill a default array's worth of `size`: a new element overruns. */
  lemma InsertAsWrittenOnRepeatedElement()
    ensures var b := ArrayBag(0, [Some(Bin(1, 16))] + Nones(15), 1, 16);
            Valid(b) && InsertAsWritten(b, 2) == Err(ArrayIndexOutOfBoundsException)
  {
    var b := ArrayBag(0, [Some(Bin(1, 16))] + Nones(15), 1, 16);
    assert Live(b) == [Bin(1, 16)];
    OneBin(Bin(1, 16));
    assert Position(Keys(Live(b)), 2) == 1;
    WellFormedMembers(Live(b), 2);
  }

  /** A full one-slot bag holding a single element cannot delete it. */
  lemma DeleteAsWrittenOnFullBag()
    ensures var b := ArrayBag(0, [Some(Bin(1, 1))], 1, 1);
            Valid(b) && b == Insert(New(0, 1).value, 1)
            && DeleteAsWritten(b, 1) == Err(ArrayIndexOutOfBoundsException)
  {
    var b := ArrayBag(0, [Some(Bin(1, 1))], 1, 1);
    assert Live(b) == [Bin(1, 1)];
    OneBin(Bin(1, 1));
    assert Single(Bin(1, 1)) == multiset{1};
    var e := New(0, 1).value;
    assert Live(e) == [];
    assert Position(Keys(Live(e)), 1) == 0;
    assert Position(Keys(Live(b)), 1) == 0;
  }
}
