/**
 * A sorted set stored in a growable array: the live prefix
 * `elements[0..size-1]` is strictly increasing under the set's comparator.
 * Elements are integers under their natural order, and the comparator
 * instance (compared by reference in the binary set operations) is an
 * abstract identity `comparatorId`.
 */
module SortedArraySet {
  import opened Wrappers
  import opened SortedSeqs

  const DefaultInitialCapacity: nat := 16

  /** `elements` is the live prefix of the array; `capacity` is the array's length. */
  datatype ArraySet = ArraySet(comparatorId: nat, elements: seq<int>, capacity: nat)

  /** Sorted without duplicates, and the live prefix fits in a non-empty array. */
  ghost predicate Valid(s: ArraySet) {
    StrictlyIncreasing(s.elements) && 0 < s.capacity && |s.elements| <= s.capacity
  }

  function Size(s: ArraySet): nat {
    |s.elements|
  }

  function IsEmpty(s: ArraySet): bool {
    Size(s) == 0
  }

  /** `size` is the number of distinct elements. */
  lemma SizeIsCardinality(s: ArraySet)
    requires Valid(s)
    ensures Size(s) == |Members(s.elements)|
    ensures IsEmpty(s) <==> Members(s.elements) == {}
  {
    DistinctLength(s.elements);
  }

  /** The constructor: a non-positive capacity is rejected. */
  function New(comparatorId: nat, initialCapacity: int): (r: Result<ArraySet>)
    ensures r.Err? <==> initialCapacity <= 0
    ensures r.Err? ==> r.error == IllegalArgumentException
    ensures r.Ok? ==> Valid(r.value) && r.value.elements == []
                      && r.value.capacity == initialCapacity
                      && r.value.comparatorId == comparatorId
  {
    if initialCapacity <= 0 then Err(IllegalArgumentException)
    else Ok(ArraySet(comparatorId, [], initialCapacity))
  }

  /** `empty`: the default capacity. */
  function Empty(comparatorId: nat): (s: ArraySet)
    ensures Valid(s) && s.elements == [] && s.capacity == DefaultInitialCapacity
  {
    New(comparatorId, DefaultInitialCapacity).value
  }

  /** Doubles the array when the live prefix fills it. */
  function EnsureCapacity(s: ArraySet): (r: ArraySet)
    requires Valid(s)
    ensures Valid(r) && r.elements == s.elements && r.comparatorId == s.comparatorId
    ensures |r.elements| < r.capacity
    ensures r.capacity == s.capacity || r.capacity == 2 * s.capacity
  {
    if |s.elements| == s.capacity then s.(capacity := s.capacity * 2) else s
  }

  /** The Finder's verdict, read off the insertion point. */
  predicate Found(s: ArraySet, x: int) {
    var p := Position(s.elements, x);
    p < |s.elements| && s.elements[p] == x
  }

  function Contains(s: ArraySet, x: int): (b: bool)
    requires Valid(s)
    ensures b <==> x in Members(s.elements)
  {
    MemberAtPosition(s.elements, x);
    Found(s, x)
  }

  /**
   * Replaces an equal element in place; otherwise grows the array if full
   * and shifts the tail right to open the insertion point.
   */
  function Insert(s: ArraySet, x: int): (r: ArraySet)
    requires Valid(s)
    ensures Valid(r) && r.comparatorId == s.comparatorId
    ensures Members(r.elements) == Members(s.elements) + {x}
    ensures Size(r) == if x in s.elements then Size(s) else Size(s) + 1
  {
    MemberAtPosition(s.elements, x);
    if Found(s, x) then
      assert s.elements[Position(s.elements, x) := x] == s.elements;
      s.(elements := s.elements[Position(s.elements, x) := x])
    else
      var g := EnsureCapacity(s);
      InsertAtPosition(s.elements, x);
      g.(elements := InsertAt(s.elements, Position(s.elements, x), x))
  }

  /**
   * The intended `delete`: shifts the tail left over a found element.
   * Capacity is unchanged.
   */
  function Delete(s: ArraySet, x: int): (r: ArraySet)
    requires Valid(s)
    ensures Valid(r) && r.comparatorId == s.comparatorId && r.capacity == s.capacity
    ensures Members(r.elements) == Members(s.elements) - {x}
    ensures Size(r) == if x in s.elements then Size(s) - 1 else Size(s)
  {
    MemberAtPosition(s.elements, x);
    if Found(s, x) then
      RemoveAtKeepsOrder(s.elements, Position(s.elements, x));
      s.(elements := RemoveAt(s.elements, Position(s.elements, x)))
    else
      s
  }

  /**
   * `delete` as written: the shift loop runs `i` up to `size - 1` and reads
   * `elements[i + 1]`, which is outside the array when it is full.
   */
  function DeleteAsWritten(s: ArraySet, x: int): (r: Result<ArraySet>)
    requires Valid(s)
    ensures r.Err? <==> x in s.elements && Size(s) == s.capacity
    ensures r.Err? ==> r.error == ArrayIndexOutOfBoundsException
    ensures r.Ok? ==> r.value == Delete(s, x)
  {
    MemberAtPosition(s.elements, x);
    if Found(s, x) && |s.elements| == s.capacity then Err(ArrayIndexOutOfBoundsException)
    else Ok(Delete(s, x))
  }

  function Minimum(s: ArraySet): (r: Result<int>)
    requires Valid(s)
    ensures r.Err? <==> s.elements == []
    ensures r.Err? ==> r.error == NoSuchElementException
    ensures r.Ok? ==> r.value in s.elements && forall y | y in s.elements :: r.value <= y
  {
    if IsEmpty(s) then Err(NoSuchElementException) else Ok(s.elements[0])
  }

  function Maximum(s: ArraySet): (r: Result<int>)
    requires Valid(s)
    ensures r.Err? <==> s.elements == []
    ensures r.Err? ==> r.error == NoSuchElementException
    ensures r.Ok? ==> r.value in s.elements && forall y | y in s.elements :: y <= r.value
  {
    if IsEmpty(s) then Err(NoSuchElementException) else Ok(s.elements[Size(s) - 1])
  }

  /** `clear` empties the live prefix and keeps the array. */
  function Clear(s: ArraySet): (r: ArraySet)
    requires Valid(s)
    ensures Valid(r) && r.elements == [] && r.capacity == s.capacity
    ensures r.comparatorId == s.comparatorId
  {
    if IsEmpty(s) then s else s.(elements := [])
  }

  /** Appends an element above every present one (the caller's obligation). */
  function Append(s: ArraySet, x: int): (r: ArraySet)
    requires Valid(s) && (s.elements == [] || s.elements[|s.elements| - 1] < x)
    ensures Valid(r) && r.elements == s.elements + [x] && r.comparatorId == s.comparatorId
    ensures |s.elements| < s.capacity ==> r.capacity == s.capacity
  {
    var g := EnsureCapacity(s);
    g.(elements := g.elements + [x])
  }

  /** Appends a sorted run that starts above the present elements. */
  function AppendAll(s: ArraySet, xs: seq<int>): (r: ArraySet)
    requires Valid(s) && StrictlyIncreasing(s.elements + xs)
    ensures Valid(r) && r.elements == s.elements + xs && r.comparatorId == s.comparatorId
    ensures |s.elements| + |xs| <= s.capacity ==> r.capacity == s.capacity
    decreases |xs|
  {
    if xs == [] then
      assert s.elements + xs == s.elements;
      s
    else
      var n := |s.elements|;
      assert (s.elements + [xs[0]]) + xs[1..] == s.elements + xs;
      assert s.elements + [xs[0]] == (s.elements + xs)[..n + 1];
      assert n > 0 ==> s.elements[n - 1] == (s.elements + xs)[n - 1] < (s.elements + xs)[n] == xs[0];
      AppendAll(Append(s, xs[0]), xs[1..])
  }

  /** `copyOf`: an empty source gives the default capacity, otherwise exactly `size`. */
  function CopyOf(that: ArraySet): (r: ArraySet)
    requires Valid(that)
    ensures Valid(r) && r.elements == that.elements && r.comparatorId == that.comparatorId
    ensures r.capacity == if that.elements == [] then DefaultInitialCapacity else Size(that)
  {
    if IsEmpty(that) then Empty(that.comparatorId)
    else
      assert [] + that.elements == that.elements;
      AppendAll(New(that.comparatorId, Size(that)).value, that.elements)
  }

  /** Inserts the elements one by one, in order. */
  function InsertAll(s: ArraySet, xs: seq<int>): (r: ArraySet)
    requires Valid(s)
    ensures Valid(r) && r.comparatorId == s.comparatorId
    ensures Members(r.elements) == Members(s.elements) + Members(xs)
    decreases |xs|
  {
    if xs == [] then s
    else
      assert xs == [xs[0]] + xs[1..];
      InsertAll(Insert(s, xs[0]), xs[1..])
  }

  /** `of`: capacity for every argument (the default when there are none), then insertion. */
  function Of(comparatorId: nat, xs: seq<int>): (r: ArraySet)
    ensures Valid(r) && r.comparatorId == comparatorId && Members(r.elements) == Members(xs)
  {
    var cap := if |xs| > 0 then |xs| else DefaultInitialCapacity;
    InsertAll(New(comparatorId, cap).value, xs)
  }

  /** `from`: the default capacity, then insertion in iteration order. */
  function From(comparatorId: nat, xs: seq<int>): (r: ArraySet)
    ensures Valid(r) && r.comparatorId == comparatorId && Members(r.elements) == Members(xs)
  {
    InsertAll(Empty(comparatorId), xs)
  }

  /** Inserting then asking: membership changes exactly for the inserted element. */
  lemma InsertThenContains(s: ArraySet, x: int, y: int)
    requires Valid(s)
    ensures Contains(Insert(s, x), y) <==> y == x || Contains(s, y)
  {
  }

  /** Deleting then asking: membership changes exactly for the deleted element. */
  lemma DeleteThenContains(s: ArraySet, x: int, y: int)
    requires Valid(s)
    ensures Contains(Delete(s, x), y) <==> y != x && Contains(s, y)
  {
  }

  /** Inserting an absent element and deleting it again restores the set. */
  lemma DeleteUndoesInsert(s: ArraySet, x: int)
    requires Valid(s) && x !in s.elements
    ensures Delete(Insert(s, x), x).elements == s.elements
  {
    var p := Position(s.elements, x);
    var t := InsertAt(s.elements, p, x);
    assert Insert(s, x).elements == t by {
      MemberAtPosition(s.elements, x);
    }
    assert Position(t, x) == p by {
      PositionOfInserted(s.elements, x);
    }
    assert Delete(Insert(s, x), x).elements == RemoveAt(t, p);
    RemoveInserted(s.elements, p, x);
  }

  /** A full set rejects deleting any of its elements; `of(1)` is full. */
  lemma DeleteAsWrittenFailsOnFullSet()
    ensures Of(0, [1]).elements == [1] && Of(0, [1]).capacity == 1
    ensures DeleteAsWritten(Of(0, [1]), 1) == Err(ArrayIndexOutOfBoundsException)
  {
    var e := New(0, 1).value;
    assert Position(e.elements, 1) == 0;
    assert Insert(e, 1) == ArraySet(0, [1], 1);
    assert Of(0, [1]) == InsertAll(ArraySet(0, [1], 1), []);
  }

  // ---------------------------------------------------------------------
  // Binary operations: merges over the two element runs.
  // ---------------------------------------------------------------------

  lemma MembersSnoc(s: seq<int>, i: nat)
    requires i < |s|
    ensures Members(s[..i + 1]) == Members(s[..i]) + {s[i]}
  {
    assert s[..i + 1] == s[..i] + [s[i]];
  }

  lemma MembersWhole(s: seq<int>)
    ensures s[..|s|] == s
  {
  }

  /** The ordering facts shared by the three merges. */
  ghost predicate Interleaved(a: seq<int>, i: nat, b: seq<int>, j: nat) {
    i <= |a| && j <= |b|
    && (i < |a| ==> forall k | 0 <= k < j :: b[k] < a[i])
    && (j < |b| ==> forall k | 0 <= k < i :: a[k] < b[j])
  }

  /** The last appended element lies below both cursors. */
  ghost predicate AccBelow(acc: seq<int>, a: seq<int>, i: nat, b: seq<int>, j: nat)
    requires i <= |a| && j <= |b|
  {
    acc != [] ==> (i < |a| ==> acc[|acc| - 1] < a[i]) && (j < |b| ==> acc[|acc| - 1] < b[j])
  }

  lemma AdvanceA(a: seq<int>, i: nat, b: seq<int>, j: nat)
    requires StrictlyIncreasing(a) && StrictlyIncreasing(b) && Interleaved(a, i, b, j)
    requires i < |a| && (j == |b| || a[i] < b[j])
    ensures Interleaved(a, i + 1, b, j)
  {
  }

  lemma AdvanceB(a: seq<int>, i: nat, b: seq<int>, j: nat)
    requires StrictlyIncreasing(a) && StrictlyIncreasing(b) && Interleaved(a, i, b, j)
    requires j < |b| && (i == |a| || b[j] < a[i])
    ensures Interleaved(a, i, b, j + 1)
  {
  }

  lemma AdvanceBoth(a: seq<int>, i: nat, b: seq<int>, j: nat)
    requires StrictlyIncreasing(a) && StrictlyIncreasing(b) && Interleaved(a, i, b, j)
    requires i < |a| && j < |b| && a[i] == b[j]
    ensures Interleaved(a, i + 1, b, j + 1)
  {
  }

  /** An element above the prefix before the cursor and below the cursor is absent from the run. */
  lemma AbsentFromOther(b: seq<int>, j: nat, x: int)
    requires StrictlyIncreasing(b) && j <= |b|
    requires forall k | 0 <= k < j :: b[k] < x
    requires j < |b| ==> x < b[j]
    ensures x !in Members(b)
  {
    forall k | 0 <= k < |b|
      ensures b[k] != x
    {
      if j <= k {
        assert b[j] <= b[k];
      }
    }
  }

  /** An element above every entry before the cursor is absent from that prefix. */
  lemma AbsentFromPrefix(b: seq<int>, j: nat, x: int)
    requires j <= |b|
    requires forall k | 0 <= k < j :: b[k] < x
    ensures x !in Members(b[..j])
  {
    forall k | 0 <= k < j
      ensures b[..j][k] != x
    {
      assert b[..j][k] == b[k];
    }
  }

  lemma MembersAppend(s: seq<int>, x: int)
    ensures Members(s + [x]) == Members(s) + {x}
  {
  }

  /** One step of the union merge: the smaller cursor's element (either, when equal) is appended. */
  lemma UnionStep(acc: seq<int>, a: seq<int>, i: nat, b: seq<int>, j: nat, e: int, i': nat, j': nat)
    requires StrictlyIncreasing(a) && StrictlyIncreasing(b) && Interleaved(a, i, b, j)
    requires AccBelow(acc, a, i, b, j)
    requires Members(acc) == Members(a[..i]) + Members(b[..j])
    requires || (j < |b| && (i == |a| || b[j] < a[i]) && e == b[j] && i' == i && j' == j + 1)
             || (i < |a| && (j == |b| || a[i] < b[j]) && e == a[i] && i' == i + 1 && j' == j)
             || (i < |a| && j < |b| && a[i] == b[j] && e == a[i] && i' == i + 1 && j' == j + 1)
    ensures acc == [] || acc[|acc| - 1] < e
    ensures Interleaved(a, i', b, j') && AccBelow(acc + [e], a, i', b, j')
    ensures Members(acc + [e]) == Members(a[..i']) + Members(b[..j'])
  {
    MembersAppend(acc, e);
    if j' == j + 1 {
      MembersSnoc(b, j);
    }
    if i' == i + 1 {
      MembersSnoc(a, i);
    }
    if i' == i {
      AdvanceB(a, i, b, j);
    } else if j' == j {
      AdvanceA(a, i, b, j);
    } else {
      AdvanceBoth(a, i, b, j);
    }
  }

  /** A step of the intersection merge past an element the other run lacks. */
  lemma InterSkip(acc: seq<int>, a: seq<int>, i: nat, b: seq<int>, j: nat, i': nat, j': nat)
    requires StrictlyIncreasing(a) && StrictlyIncreasing(b) && Interleaved(a, i, b, j)
    requires AccBelow(acc, a, i, b, j)
    requires i < |a| && j < |b|
    requires || (a[i] < b[j] && i' == i + 1 && j' == j)
             || (b[j] < a[i] && i' == i && j' == j + 1)
    ensures Interleaved(a, i', b, j') && AccBelow(acc, a, i', b, j')
    ensures Members(a[..i']) * Members(b[..j']) == Members(a[..i]) * Members(b[..j])
  {
    if i' == i + 1 {
      MembersSnoc(a, i);
      AbsentFromPrefix(b, j, a[i]);
      AdvanceA(a, i, b, j);
    } else {
      MembersSnoc(b, j);
      AbsentFromPrefix(a, i, b[j]);
      AdvanceB(a, i, b, j);
    }
  }

  /** A step of the intersection merge over an element both runs hold, which is appended. */
  lemma InterKeep(acc: seq<int>, a: seq<int>, i: nat, b: seq<int>, j: nat)
    requires StrictlyIncreasing(a) && StrictlyIncreasing(b) && Interleaved(a, i, b, j)
    requires AccBelow(acc, a, i, b, j)
    requires i < |a| && j < |b| && a[i] == b[j]
    requires Members(acc) == Members(a[..i]) * Members(b[..j])
    ensures acc == [] || acc[|acc| - 1] < a[i]
    ensures Interleaved(a, i + 1, b, j + 1) && AccBelow(acc + [a[i]], a, i + 1, b, j + 1)
    ensures Members(acc + [a[i]]) == Members(a[..i + 1]) * Members(b[..j + 1])
  {
    MembersSnoc(a, i);
    MembersSnoc(b, j);
    AbsentFromPrefix(b, j, a[i]);
    AbsentFromPrefix(a, i, b[j]);
    MembersAppend(acc, a[i]);
    AdvanceBoth(a, i, b, j);
  }

  /** A step of the difference merge over an element the other run lacks, which is appended. */
  lemma DiffKeep(acc: seq<int>, a: seq<int>, i: nat, b: seq<int>, j: nat)
    requires StrictlyIncreasing(a) && StrictlyIncreasing(b) && Interleaved(a, i, b, j)
    requires AccBelow(acc, a, i, b, j)
    requires i < |a| && (j == |b| || a[i] < b[j])
    requires Members(acc) == Members(a[..i]) - Members(b)
    ensures acc == [] || acc[|acc| - 1] < a[i]
    ensures Interleaved(a, i + 1, b, j) && AccBelow(acc + [a[i]], a, i + 1, b, j)
    ensures Members(acc + [a[i]]) == Members(a[..i + 1]) - Members(b)
  {
    MembersSnoc(a, i);
    AbsentFromOther(b, j, a[i]);
    MembersAppend(acc, a[i]);
    AdvanceA(a, i, b, j);
  }

  /** A step of the difference merge over an element both runs hold, which is dropped. */
  lemma DiffDrop(acc: seq<int>, a: seq<int>, i: nat, b: seq<int>, j: nat)
    requires StrictlyIncreasing(a) && StrictlyIncreasing(b) && Interleaved(a, i, b, j)
    requires AccBelow(acc, a, i, b, j)
    requires i < |a| && j < |b| && a[i] == b[j]
    requires Members(acc) == Members(a[..i]) - Members(b)
    ensures Interleaved(a, i + 1, b, j + 1) && AccBelow(acc, a, i + 1, b, j + 1)
    ensures Members(acc) == Members(a[..i + 1]) - Members(b)
  {
    MembersSnoc(a, i);
    assert a[i] in Members(b);
    AdvanceBoth(a, i, b, j);
  }

  /** `union`: same comparator required; equal, empty operands are copied; otherwise a merge. */
  method Union(s1: ArraySet, s2: ArraySet) returns (r: Result<ArraySet>)
    requires Valid(s1) && Valid(s2)
    ensures r.Err? <==> s1.comparatorId != s2.comparatorId
    ensures r.Err? ==> r.error == IllegalArgumentException
    ensures r.Ok? ==> Valid(r.value) && r.value.comparatorId == s1.comparatorId
    ensures r.Ok? ==> Members(r.value.elements) == Members(s1.elements) + Members(s2.elements)
  {
    if s1.comparatorId != s2.comparatorId {
      return Err(IllegalArgumentException);
    }
    if s1.elements == s2.elements {
      return Ok(CopyOf(s1));
    } else if IsEmpty(s1) {
      assert Members(s1.elements) == {};
      return Ok(CopyOf(s2));
    } else if IsEmpty(s2) {
      assert Members(s2.elements) == {};
      return Ok(CopyOf(s1));
    }
    var merged := UnionMerge(s1, s2);
    return Ok(merged);
  }

  /** The merge loop of `union`, on two non-empty operands with the same comparator. */
  method UnionMerge(s1: ArraySet, s2: ArraySet) returns (r: ArraySet)
    requires Valid(s1) && Valid(s2) && s1.elements != [] && s2.elements != []
    ensures Valid(r) && r.comparatorId == s1.comparatorId
    ensures Members(r.elements) == Members(s1.elements) + Members(s2.elements)
  {
    var a, b := s1.elements, s2.elements;
    var acc := New(s1.comparatorId, Size(s1)).value;
    var i, j := 0, 0;
    while i < |a| || j < |b|
      invariant Valid(acc) && acc.comparatorId == s1.comparatorId
      invariant Interleaved(a, i, b, j)
      invariant AccBelow(acc.elements, a, i, b, j)
      invariant Members(acc.elements) == Members(a[..i]) + Members(b[..j])
      decreases |a| - i + |b| - j
    {
      var e, i', j';
      if i == |a| {
        e, i', j' := b[j], i, j + 1;
      } else if j == |b| {
        e, i', j' := a[i], i + 1, j;
      } else if a[i] < b[j] {
        e, i', j' := a[i], i + 1, j;
      } else if a[i] > b[j] {
        e, i', j' := b[j], i, j + 1;
      } else {
        e, i', j' := a[i], i + 1, j + 1;
      }
      UnionStep(acc.elements, a, i, b, j, e, i', j');
      acc := Append(acc, e);
      i, j := i', j';
    }
    MembersWhole(a);
    MembersWhole(b);
    r := acc;
  }

  /** `intersection`: same comparator required; equal operands copied, an empty one gives empty; otherwise a merge. */
  method Intersection(s1: ArraySet, s2: ArraySet) returns (r: Result<ArraySet>)
    requires Valid(s1) && Valid(s2)
    ensures r.Err? <==> s1.comparatorId != s2.comparatorId
    ensures r.Err? ==> r.error == IllegalArgumentException
    ensures r.Ok? ==> Valid(r.value) && r.value.comparatorId == s1.comparatorId
    ensures r.Ok? ==> Members(r.value.elements) == Members(s1.elements) * Members(s2.elements)
  {
    if s1.comparatorId != s2.comparatorId {
      return Err(IllegalArgumentException);
    }
    if s1.elements == s2.elements {
      return Ok(CopyOf(s1));
    } else if IsEmpty(s1) || IsEmpty(s2) {
      return Ok(Empty(s1.comparatorId));
    }
    var merged := IntersectionMerge(s1, s2);
    return Ok(merged);
  }

  /** The merge loop of `intersection`, on two non-empty operands with the same comparator. */
  method IntersectionMerge(s1: ArraySet, s2: ArraySet) returns (r: ArraySet)
    requires Valid(s1) && Valid(s2) && s1.elements != [] && s2.elements != []
    ensures Valid(r) && r.comparatorId == s1.comparatorId
    ensures Members(r.elements) == Members(s1.elements) * Members(s2.elements)
  {
    var a, b := s1.elements, s2.elements;
    var acc := New(s1.comparatorId, Size(s1)).value;
    var i, j := 0, 0;
    while i < |a| && j < |b|
      invariant Valid(acc) && acc.comparatorId == s1.comparatorId
      invariant Interleaved(a, i, b, j)
      invariant AccBelow(acc.elements, a, i, b, j)
      invariant Members(acc.elements) == Members(a[..i]) * Members(b[..j])
      decreases |a| - i + |b| - j
    {
      if a[i] < b[j] {
        InterSkip(acc.elements, a, i, b, j, i + 1, j);
        i := i + 1;
      } else if a[i] > b[j] {
        InterSkip(acc.elements, a, i, b, j, i, j + 1);
        j := j + 1;
      } else {
        InterKeep(acc.elements, a, i, b, j);
        acc := Append(acc, a[i]);
        i, j := i + 1, j + 1;
      }
    }
    IntersectionRest(a, i, b, j);
    r := acc;
  }

  /** Once one run is exhausted, the rest of the other adds nothing in common. */
  lemma IntersectionRest(a: seq<int>, i: nat, b: seq<int>, j: nat)
    requires StrictlyIncreasing(a) && StrictlyIncreasing(b) && Interleaved(a, i, b, j)
    requires i == |a| || j == |b|
    ensures Members(a[..i]) * Members(b[..j]) == Members(a) * Members(b)
  {
    if i < |a| {
      forall k, m | i <= k < |a| && 0 <= m < |b|
        ensures b[m] < a[k]
      {
        assert b[m] < a[i] && a[i] <= a[k];
      }
    }
    if j < |b| {
      forall k, m | 0 <= k < |a| && j <= m < |b|
        ensures a[k] < b[m]
      {
        assert a[k] < b[j] && b[j] <= b[m];
      }
    }
    forall x | x in Members(a) && x in Members(b)
      ensures x in Members(a[..i]) && x in Members(b[..j])
    {
      var ka :| 0 <= ka < |a| && a[ka] == x;
      var kb :| 0 <= kb < |b| && b[kb] == x;
      assert a[..i][ka] == x && b[..j][kb] == x;
    }
  }

  /** `difference`: same comparator required; equal or empty first operand gives empty, empty second copies; otherwise a merge. */
  method Difference(s1: ArraySet, s2: ArraySet) returns (r: Result<ArraySet>)
    requires Valid(s1) && Valid(s2)
    ensures r.Err? <==> s1.comparatorId != s2.comparatorId
    ensures r.Err? ==> r.error == IllegalArgumentException
    ensures r.Ok? ==> Valid(r.value) && r.value.comparatorId == s1.comparatorId
    ensures r.Ok? ==> Members(r.value.elements) == Members(s1.elements) - Members(s2.elements)
  {
    if s1.comparatorId != s2.comparatorId {
      return Err(IllegalArgumentException);
    }
    if s1.elements == s2.elements || IsEmpty(s1) {
      return Ok(Empty(s1.comparatorId));
    } else if IsEmpty(s2) {
      return Ok(CopyOf(s1));
    }
    var merged := DifferenceMerge(s1, s2);
    return Ok(merged);
  }

  /** The merge loop of `difference`, on two non-empty operands with the same comparator. */
  method DifferenceMerge(s1: ArraySet, s2: ArraySet) returns (r: ArraySet)
    requires Valid(s1) && Valid(s2) && s1.elements != [] && s2.elements != []
    ensures Valid(r) && r.comparatorId == s1.comparatorId
    ensures Members(r.elements) == Members(s1.elements) - Members(s2.elements)
  {
    var a, b := s1.elements, s2.elements;
    var acc := New(s1.comparatorId, Size(s1)).value;
    var i, j := 0, 0;
    while i < |a|
      invariant Valid(acc) && acc.comparatorId == s1.comparatorId
      invariant Interleaved(a, i, b, j)
      invariant AccBelow(acc.elements, a, i, b, j)
      invariant Members(acc.elements) == Members(a[..i]) - Members(b)
      decreases |a| - i + |b| - j
    {
      if j == |b| || a[i] < b[j] {
        DiffKeep(acc.elements, a, i, b, j);
        acc := Append(acc, a[i]);
        i := i + 1;
      } else if a[i] > b[j] {
        AdvanceB(a, i, b, j);
        j := j + 1;
      } else {
        DiffDrop(acc.elements, a, i, b, j);
        i, j := i + 1, j + 1;
      }
    }
    MembersWhole(a);
    r := acc;
  }
}
