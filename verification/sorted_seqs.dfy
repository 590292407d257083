/**
 * Strictly increasing integer sequences: the contents of every sorted array
 * container of the model (set elements, bag bins, dictionary keys). The
 * insertion point `Position` is the functional meaning of each container's
 * `Finder`; the two binary searches below are proved to compute it.
 */
module SortedSeqs {

  ghost predicate StrictlyIncreasing(s: seq<int>) {
    forall i, j | 0 <= i < j < |s| :: s[i] < s[j]
  }

  /** The insertion point of `x`: the number of leading entries below `x`. */
  function Position(s: seq<int>, x: int): (p: nat)
    ensures p <= |s|
  {
    if s == [] || x <= s[0] then 0 else 1 + Position(s[1..], x)
  }

  /** Everything before the insertion point is below `x`, everything from it on is not. */
  lemma {:induction false} PositionSplits(s: seq<int>, x: int)
    requires StrictlyIncreasing(s)
    ensures forall i | 0 <= i < Position(s, x) :: s[i] < x
    ensures forall i | Position(s, x) <= i < |s| :: x <= s[i]
  {
    if s != [] && x > s[0] {
      PositionSplits(s[1..], x);
      forall i | 0 < i < Position(s, x)
        ensures s[i] < x
      {
        assert s[i] == s[1..][i - 1];
      }
      forall i | Position(s, x) <= i < |s|
        ensures x <= s[i]
      {
        assert s[i] == s[1..][i - 1];
      }
    }
  }

  /** The insertion point is the only index that splits the sequence around `x`. */
  lemma {:induction false} PositionUnique(s: seq<int>, x: int, p: int)
    requires 0 <= p <= |s|
    requires forall i | 0 <= i < p :: s[i] < x
    requires forall i | p <= i < |s| :: x <= s[i]
    ensures Position(s, x) == p
  {
    if s != [] {
      if p == 0 {
        assert x <= s[0];
      } else {
        assert s[0] < x;
        forall i | 0 <= i < p - 1
          ensures s[1..][i] < x
        {
          assert s[1..][i] == s[i + 1];
        }
        forall i | p - 1 <= i < |s| - 1
          ensures x <= s[1..][i]
        {
          assert s[1..][i] == s[i + 1];
        }
        PositionUnique(s[1..], x, p - 1);
      }
    }
  }

  /** `x` occurs exactly when it sits at its insertion point. */
  lemma {:induction false} MemberAtPosition(s: seq<int>, x: int)
    requires StrictlyIncreasing(s)
    ensures x in s <==> Position(s, x) < |s| && s[Position(s, x)] == x
  {
    if s != [] {
      assert s == [s[0]] + s[1..];
      if x <= s[0] {
        assert forall i | 0 < i < |s| :: s[i] != x;
      } else {
        MemberAtPosition(s[1..], x);
      }
    }
  }

  /** An absent key inserted at its insertion point is found there again. */
  lemma PositionOfInserted(s: seq<int>, x: int)
    requires StrictlyIncreasing(s) && x !in s
    ensures Position(InsertAt(s, Position(s, x), x), x) == Position(s, x)
  {
    var p := Position(s, x);
    var r := InsertAt(s, p, x);
    PositionSplits(s, x);
    forall i | 0 <= i < p
      ensures r[i] < x
    {
      assert r[i] == s[i];
    }
    forall i | p <= i < |r|
      ensures x <= r[i]
    {
      if i > p {
        assert r[i] == s[i - 1];
      }
    }
    PositionUnique(r, x, p);
  }

  /** Removing what was just inserted at a position gives back the sequence. */
  lemma RemoveInserted(s: seq<int>, p: nat, x: int)
    requires p <= |s|
    ensures RemoveAt(InsertAt(s, p, x), p) == s
  {
    var r := InsertAt(s, p, x);
    assert r[..p] == s[..p] && r[p + 1..] == s[p..];
  }

  /** Every entry of a sorted sequence lies between its first and last entries. */
  lemma BetweenEnds(s: seq<int>, x: int)
    requires StrictlyIncreasing(s) && x in s
    ensures s[0] <= x <= s[|s| - 1]
  {
    var i :| 0 <= i < |s| && s[i] == x;
    assert s[0] <= s[i] <= s[|s| - 1];
  }

  /** The keys of a sequence, as a set. */
  function Members(s: seq<int>): set<int> {
    set k | k in s
  }

  /** A sorted sequence without duplicates has as many members as entries. */
  lemma {:induction false} DistinctLength(s: seq<int>)
    requires StrictlyIncreasing(s)
    ensures |Members(s)| == |s|
  {
    if s != [] {
      assert s == [s[0]] + s[1..];
      assert Members(s) == {s[0]} + Members(s[1..]);
      assert s[0] !in s[1..];
      DistinctLength(s[1..]);
    }
  }

  /** A key above the last one extends a sorted sequence. */
  lemma AppendAbove(s: seq<int>, x: int)
    requires StrictlyIncreasing(s) && (s == [] || s[|s| - 1] < x)
    ensures StrictlyIncreasing(s + [x])
  {
  }

  function InsertAt(s: seq<int>, p: nat, x: int): (r: seq<int>)
    requires p <= |s|
    ensures |r| == |s| + 1 && r[p] == x
  {
    s[..p] + [x] + s[p..]
  }

  function RemoveAt(s: seq<int>, p: nat): (r: seq<int>)
    requires p < |s|
    ensures |r| == |s| - 1
  {
    s[..p] + s[p + 1..]
  }

  /** Inserting an absent key at its insertion point keeps the sequence sorted and adds exactly that key. */
  lemma InsertAtPosition(s: seq<int>, x: int)
    requires StrictlyIncreasing(s) && x !in s
    ensures StrictlyIncreasing(InsertAt(s, Position(s, x), x))
    ensures Members(InsertAt(s, Position(s, x), x)) == Members(s) + {x}
  {
    PositionSplits(s, x);
    assert forall i | Position(s, x) <= i < |s| :: x < s[i];
    InsertBetween(s, Position(s, x), x);
    InsertAtMembers(s, Position(s, x), x);
  }

  /** Where each entry of `InsertAt` comes from. */
  lemma InsertAtIndex(s: seq<int>, p: nat, x: int)
    requires p <= |s|
    ensures forall k | 0 <= k < p :: InsertAt(s, p, x)[k] == s[k]
    ensures forall k | p < k <= |s| :: InsertAt(s, p, x)[k] == s[k - 1]
  {
  }

  /** A key strictly between the entries before and after `p` fits at `p`. */
  lemma InsertBetween(s: seq<int>, p: nat, x: int)
    requires StrictlyIncreasing(s) && p <= |s|
    requires forall i | 0 <= i < p :: s[i] < x
    requires forall i | p <= i < |s| :: x < s[i]
    ensures StrictlyIncreasing(InsertAt(s, p, x))
  {
    var r := InsertAt(s, p, x);
    InsertAtIndex(s, p, x);
    forall i, j | 0 <= i < j < |r|
      ensures r[i] < r[j]
    {
      if j < p {
        assert r[i] == s[i] && r[j] == s[j];
      } else if j == p {
        assert r[i] == s[i];
      } else if i < p {
        assert r[i] == s[i] && r[j] == s[j - 1];
      } else if i == p {
        assert r[j] == s[j - 1];
      } else {
        assert r[i] == s[i - 1] && r[j] == s[j - 1];
      }
    }
  }

  lemma InsertAtMembers(s: seq<int>, p: nat, x: int)
    requires p <= |s|
    ensures Members(InsertAt(s, p, x)) == Members(s) + {x}
  {
    assert s == s[..p] + s[p..];
  }

  /** Removing an entry keeps the sequence sorted and drops exactly that key. */
  lemma RemoveAtKeepsOrder(s: seq<int>, p: nat)
    requires StrictlyIncreasing(s) && p < |s|
    ensures StrictlyIncreasing(RemoveAt(s, p))
    ensures Members(RemoveAt(s, p)) == Members(s) - {s[p]}
  {
    var r := RemoveAt(s, p);
    forall i, j | 0 <= i < j < |r|
      ensures r[i] < r[j]
    {
      if j < p {
        assert r[i] == s[i] && r[j] == s[j];
      } else if i < p {
        assert r[i] == s[i] && r[j] == s[j + 1];
      } else {
        assert r[i] == s[i + 1] && r[j] == s[j + 1];
      }
    }
    assert s == s[..p] + [s[p]] + s[p + 1..];
    forall i | 0 <= i < |r|
      ensures r[i] != s[p]
    {
      if i < p {
        assert r[i] == s[i];
      } else {
        assert r[i] == s[i + 1];
      }
    }
  }

  /**
   * The sets' `Finder`: binary search over `left`/`right` bounds with
   * `mid = left + (right - left) / 2`; on a miss the index is `left`.
   */
  method Finder(s: seq<int>, x: int) returns (found: bool, index: nat)
    requires StrictlyIncreasing(s)
    ensures found <==> x in s
    ensures index == Position(s, x)
  {
    var left: int := 0;
    var right: int := |s| - 1;
    while left <= right
      invariant 0 <= left <= right + 1 <= |s|
      invariant forall i | 0 <= i < left :: s[i] < x
      invariant forall i | right < i < |s| :: x < s[i]
      decreases right - left
    {
      var mid := left + (right - left) / 2;
      if x == s[mid] {
        PositionUnique(s, x, mid);
        MemberAtPosition(s, x);
        return true, mid;
      } else if x > s[mid] {
        left := mid + 1;
      } else {
        right := mid - 1;
      }
    }
    PositionUnique(s, x, left);
    MemberAtPosition(s, x);
    return false, left;
  }

  /**
   * `java.util.Arrays.binarySearch` over the keys: the index of `x` when
   * present, otherwise `-(insertion point) - 1`.
   */
  method ArraysBinarySearch(s: seq<int>, x: int) returns (r: int)
    requires StrictlyIncreasing(s)
    ensures 0 <= r <==> x in s
    ensures 0 <= r ==> r < |s| && s[r] == x && r == Position(s, x)
    ensures r < 0 ==> -(r + 1) == Position(s, x)
  {
    var low: int := 0;
    var high: int := |s| - 1;
    while low <= high
      invariant 0 <= low <= high + 1 <= |s|
      invariant forall i | 0 <= i < low :: s[i] < x
      invariant forall i | high < i < |s| :: x < s[i]
      decreases high - low
    {
      var mid := (low + high) / 2;
      if s[mid] < x {
        low := mid + 1;
      } else if s[mid] > x {
        high := mid - 1;
      } else {
        PositionUnique(s, x, mid);
        MemberAtPosition(s, x);
        return mid;
      }
    }
    PositionUnique(s, x, low);
    MemberAtPosition(s, x);
    return -(low + 1);
  }
}
