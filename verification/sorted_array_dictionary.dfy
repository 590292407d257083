/**
 * A sorted dictionary stored in a growable array of key-value entries: the
 * live prefix `elements[0..size-1]` is strictly increasing by key. Keys are
 * integers under their natural order; values are of any type. The abstract
 * meaning of an entry sequence is the map `ToMap`, in which a later entry
 * for a key overrides an earlier one.
 */
module SortedArrayDictionary {
  import opened Wrappers
  import opened SortedSeqs

  const DefaultInitialCapacity: nat := 16

  datatype Entry<V> = Entry(key: int, value: V)

  /** `entries` is the live prefix of the array; `capacity` is the array's length. */
  datatype Dictionary<V> = Dictionary(entries: seq<Entry<V>>, capacity: nat)

  function KeyList<V>(es: seq<Entry<V>>): (ks: seq<int>)
    ensures |ks| == |es|
    ensures forall i | 0 <= i < |es| :: ks[i] == es[i].key
  {
    seq(|es|, i requires 0 <= i < |es| => es[i].key)
  }

  /** Sorted by key without duplicate keys, and the live prefix fits in a non-empty array. */
  ghost predicate Valid<V>(d: Dictionary<V>) {
    StrictlyIncreasing(KeyList(d.entries)) && 0 < d.capacity && |d.entries| <= d.capacity
  }

  /** The map an entry sequence denotes: each key maps to the value of its last entry. */
  function ToMap<V>(es: seq<Entry<V>>): map<int, V>
    decreases |es|
  {
    if es == [] then map[]
    else ToMap(es[..|es| - 1])[es[|es| - 1].key := es[|es| - 1].value]
  }

  function Map<V>(d: Dictionary<V>): map<int, V> {
    ToMap(d.entries)
  }

  function Size<V>(d: Dictionary<V>): nat {
    |d.entries|
  }

  function IsEmpty<V>(d: Dictionary<V>): bool {
    Size(d) == 0
  }

  lemma KeyListAppend<V>(a: seq<Entry<V>>, b: seq<Entry<V>>)
    ensures KeyList(a + b) == KeyList(a) + KeyList(b)
  {
  }

  /** The keys of the map are the keys of the entries. */
  lemma {:induction false} ToMapKeys<V>(es: seq<Entry<V>>)
    ensures forall k :: k in ToMap(es) <==> k in KeyList(es)
    decreases |es|
  {
    if es != [] {
      var n := |es| - 1;
      ToMapKeys(es[..n]);
      KeyListAppend(es[..n], [es[n]]);
      assert es[..n] + [es[n]] == es;
    }
  }

  /** An entry with no later entry for its key gives the map's value for that key. */
  lemma {:induction false} ToMapLast<V>(es: seq<Entry<V>>, i: nat)
    requires i < |es|
    requires forall j | i < j < |es| :: es[j].key != es[i].key
    ensures es[i].key in ToMap(es) && ToMap(es)[es[i].key] == es[i].value
    decreases |es|
  {
    var n := |es| - 1;
    if i < n {
      ToMapLast(es[..n], i);
    }
  }

  /** Entries of a concatenation: the right-hand part overrides the left. */
  lemma {:induction false} ToMapAppend<V>(a: seq<Entry<V>>, b: seq<Entry<V>>)
    ensures ToMap(a + b) == ToMap(a) + ToMap(b)
    decreases |b|
  {
    if b == [] {
      assert a + b == a;
    } else {
      var n := |b| - 1;
      assert (a + b)[..|a + b| - 1] == a + b[..n];
      ToMapAppend(a, b[..n]);
    }
  }

  /** One entry between two runs, the right run not mentioning its key. */
  lemma ToMapSplice<V>(a: seq<Entry<V>>, e: Entry<V>, b: seq<Entry<V>>)
    requires e.key !in KeyList(b)
    ensures ToMap(a + [e] + b) == (ToMap(a) + ToMap(b))[e.key := e.value]
  {
    ToMapAppend(a + [e], b);
    assert (a + [e])[..|a|] == a;
    ToMapKeys(b);
  }

  /** In a valid dictionary every key has one entry, and it carries the key's value. */
  lemma EntryValue<V>(es: seq<Entry<V>>, i: nat)
    requires StrictlyIncreasing(KeyList(es)) && i < |es|
    ensures es[i].key in ToMap(es) && ToMap(es)[es[i].key] == es[i].value
  {
    ToMapLast(es, i);
  }

  /** A valid dictionary has one entry per key. */
  lemma SizeIsCardinality<V>(d: Dictionary<V>)
    requires Valid(d)
    ensures Size(d) == |Map(d).Keys|
    ensures IsEmpty(d) <==> Map(d) == map[]
  {
    ToMapKeys(d.entries);
    DistinctLength(KeyList(d.entries));
    assert forall k :: k in Map(d).Keys <==> k in Members(KeyList(d.entries));
    assert Map(d).Keys == Members(KeyList(d.entries));
  }

  /** The constructor: a non-positive capacity is rejected. */
  function New<V>(initialCapacity: int): (r: Result<Dictionary<V>>)
    ensures r.Err? <==> initialCapacity <= 0
    ensures r.Err? ==> r.error == IllegalArgumentException
    ensures r.Ok? ==> Valid(r.value) && Map(r.value) == map[] && r.value.capacity == initialCapacity
  {
    if initialCapacity <= 0 then Err(IllegalArgumentException)
    else Ok(Dictionary([], initialCapacity))
  }

  function Empty<V>(): (d: Dictionary<V>)
    ensures Valid(d) && Map(d) == map[] && d.capacity == DefaultInitialCapacity
  {
    New(DefaultInitialCapacity).value
  }

  /** Doubles the array when the live prefix fills it. */
  function EnsureCapacity<V>(d: Dictionary<V>): (r: Dictionary<V>)
    requires Valid(d)
    ensures Valid(r) && r.entries == d.entries && |r.entries| < r.capacity
    ensures r.capacity == d.capacity || r.capacity == 2 * d.capacity
  {
    if |d.entries| == d.capacity then d.(capacity := d.capacity * 2) else d
  }

  /** The Finder's verdict, read off the insertion point of the key. */
  predicate Found<V>(d: Dictionary<V>, k: int) {
    var p := Position(KeyList(d.entries), k);
    p < |d.entries| && d.entries[p].key == k
  }

  lemma FoundIsKey<V>(d: Dictionary<V>, k: int)
    requires Valid(d)
    ensures Found(d, k) <==> k in Map(d)
  {
    MemberAtPosition(KeyList(d.entries), k);
    ToMapKeys(d.entries);
  }

  /**
   * `Finder`: `Arrays.binarySearch` over the live keys; a negative answer
   * `-(p) - 1` is turned back into the insertion point `p`.
   */
  method Finder<V>(d: Dictionary<V>, k: int) returns (found: bool, index: nat)
    requires Valid(d)
    ensures found <==> k in Map(d)
    ensures index == Position(KeyList(d.entries), k)
    ensures found ==> index < |d.entries| && d.entries[index] == Entry(k, Map(d)[k])
  {
    var r := ArraysBinarySearch(KeyList(d.entries), k);
    found := r >= 0;
    index := if found then r else -(r + 1);
    FoundIsKey(d, k);
    if found {
      EntryValue(d.entries, index);
    }
  }

  /** `valueOf`: the mapped value, or `null` (here `None`) for an absent key. */
  function ValueOf<V>(d: Dictionary<V>, k: int): (r: Option<V>)
    requires Valid(d)
    ensures r == if k in Map(d) then Some(Map(d)[k]) else None
  {
    FoundIsKey(d, k);
    if Found(d, k) then
      EntryValue(d.entries, Position(KeyList(d.entries), k));
      Some(d.entries[Position(KeyList(d.entries), k)].value)
    else
      None
  }

  function IsDefinedAt<V>(d: Dictionary<V>, k: int): (b: bool)
    requires Valid(d)
    ensures b <==> k in Map(d)
  {
    FoundIsKey(d, k);
    Found(d, k)
  }

  /** The keys after position `p` all exceed its key, and the keys before it are below. */
  lemma KeyNotAround<V>(es: seq<Entry<V>>, p: nat)
    requires StrictlyIncreasing(KeyList(es)) && p < |es|
    ensures es[p].key !in KeyList(es[..p]) && es[p].key !in KeyList(es[p + 1..])
  {
  }

  /** Writing an entry over the one with the same key. */
  lemma ReplaceEntry<V>(es: seq<Entry<V>>, p: nat, e: Entry<V>)
    requires StrictlyIncreasing(KeyList(es)) && p < |es| && es[p].key == e.key
    ensures KeyList(es[p := e]) == KeyList(es)
    ensures ToMap(es[p := e]) == ToMap(es)[e.key := e.value]
  {
    assert KeyList(es[p := e]) == KeyList(es);
    assert ToMap(es) == (ToMap(es[..p]) + ToMap(es[p + 1..]))[e.key := es[p].value] by {
      KeyNotAround(es, p);
      Splice(es, p, es[p]);
      assert es[p := es[p]] == es;
      ToMapSplice(es[..p], es[p], es[p + 1..]);
    }
    assert ToMap(es[p := e]) == (ToMap(es[..p]) + ToMap(es[p + 1..]))[e.key := e.value] by {
      KeyNotAround(es, p);
      Splice(es, p, e);
      ToMapSplice(es[..p], e, es[p + 1..]);
    }
  }

  /** Writing position `p` of a sequence splices the new item between the untouched ends. */
  lemma Splice<T>(s: seq<T>, p: nat, v: T)
    requires p < |s|
    ensures s[p := v] == s[..p] + [v] + s[p + 1..]
  {
  }

  /** The keys after splicing an entry in at position `p`. */
  lemma KeyListInsert<V>(es: seq<Entry<V>>, p: nat, e: Entry<V>)
    requires p <= |es|
    ensures KeyList(es[..p] + [e] + es[p..]) == InsertAt(KeyList(es), p, e.key)
  {
    KeyListAppend(es[..p] + [e], es[p..]);
    KeyListAppend(es[..p], [e]);
    assert KeyList(es[..p]) == KeyList(es)[..p];
    assert KeyList(es[p..]) == KeyList(es)[p..];
  }

  /** The keys after cutting out the entry at position `p`. */
  lemma KeyListRemove<V>(es: seq<Entry<V>>, p: nat)
    requires p < |es|
    ensures KeyList(es[..p] + es[p + 1..]) == RemoveAt(KeyList(es), p)
  {
    KeyListAppend(es[..p], es[p + 1..]);
    assert KeyList(es[..p]) == KeyList(es)[..p];
    assert KeyList(es[p + 1..]) == KeyList(es)[p + 1..];
  }

  /** Splicing in an entry for a key that had none adds exactly that binding. */
  lemma InsertEntryMap<V>(es: seq<Entry<V>>, p: nat, e: Entry<V>)
    requires p <= |es| && e.key !in KeyList(es)
    ensures ToMap(es[..p] + [e] + es[p..]) == ToMap(es)[e.key := e.value]
  {
    assert KeyList(es[p..]) == KeyList(es)[p..];
    assert es == es[..p] + es[p..];
    ToMapAppend(es[..p], es[p..]);
    ToMapSplice(es[..p], e, es[p..]);
  }

  /** A sequence around one of its positions. */
  lemma Around<T>(s: seq<T>, p: nat)
    requires p < |s|
    ensures s == s[..p] + [s[p]] + s[p + 1..]
  {
  }

  /** Cutting out the only entry for a key drops exactly that binding. */
  lemma RemoveEntryMap<V>(a: seq<Entry<V>>, e: Entry<V>, b: seq<Entry<V>>)
    requires e.key !in KeyList(a) && e.key !in KeyList(b)
    ensures ToMap(a + b) == ToMap(a + [e] + b) - {e.key}
  {
    ToMapSplice(a, e, b);
    ToMapAppend(a, b);
    ToMapKeys(a);
    ToMapKeys(b);
  }

  /**
   * `insert`: an entry with the same key is overwritten in place; otherwise
   * the array grows if full and the tail shifts right to open the insertion
   * point.
   */
  function Insert<V>(d: Dictionary<V>, e: Entry<V>): (r: Dictionary<V>)
    requires Valid(d)
    ensures Valid(r)
    ensures Map(r) == Map(d)[e.key := e.value]
    ensures Size(r) == if e.key in Map(d) then Size(d) else Size(d) + 1
  {
    var p := Position(KeyList(d.entries), e.key);
    FoundIsKey(d, e.key);
    ToMapKeys(d.entries);
    if Found(d, e.key) then
      ReplaceEntry(d.entries, p, e);
      d.(entries := d.entries[p := e])
    else
      MemberAtPosition(KeyList(d.entries), e.key);
      KeyListInsert(d.entries, p, e);
      InsertEntryMap(d.entries, p, e);
      InsertAtPosition(KeyList(d.entries), e.key);
      var g := EnsureCapacity(d);
      g.(entries := d.entries[..p] + [e] + d.entries[p..])
  }

  /** The intended `delete`: the tail shifts left over the found entry; capacity is kept. */
  function Delete<V>(d: Dictionary<V>, k: int): (r: Dictionary<V>)
    requires Valid(d)
    ensures Valid(r) && r.capacity == d.capacity
    ensures Map(r) == Map(d) - {k}
    ensures Size(r) == if k in Map(d) then Size(d) - 1 else Size(d)
  {
    var p := Position(KeyList(d.entries), k);
    FoundIsKey(d, k);
    if Found(d, k) then
      KeyNotAround(d.entries, p);
      KeyListRemove(d.entries, p);
      Around(d.entries, p);
      RemoveEntryMap(d.entries[..p], d.entries[p], d.entries[p + 1..]);
      RemoveAtKeepsOrder(KeyList(d.entries), p);
      d.(entries := d.entries[..p] + d.entries[p + 1..])
    else
      assert Map(d) - {k} == Map(d);
      d
  }

  /**
   * `delete` as written: the shift loop runs `i` up to `size - 1` and reads
   * `elements[i + 1]`, which is outside the array when it is full.
   */
  function DeleteAsWritten<V>(d: Dictionary<V>, k: int): (r: Result<Dictionary<V>>)
    requires Valid(d)
    ensures r.Err? <==> k in Map(d) && Size(d) == d.capacity
    ensures r.Err? ==> r.error == ArrayIndexOutOfBoundsException
    ensures r.Ok? ==> r.value == Delete(d, k)
  {
    FoundIsKey(d, k);
    if Found(d, k) && Size(d) == d.capacity then Err(ArrayIndexOutOfBoundsException)
    else Ok(Delete(d, k))
  }

  /** A full dictionary loses its delete: one entry in a one-slot array. */
  lemma DeleteAsWrittenFailsWhenFull()
    ensures var d := Dictionary([Entry(1, true)], 1);
      Valid(d) && 1 in Map(d) && DeleteAsWritten(d, 1).Err?
  {
    var d := Dictionary([Entry(1, true)], 1);
    assert KeyList(d.entries) == [1];
  }

  /**
   * `clear` as written: the loop assigns `null` to its own loop variable,
   * not to the array, and `size` is never reset.
   */
  function ClearAsWritten<V>(d: Dictionary<V>): (r: Dictionary<V>)
    requires Valid(d)
    ensures Valid(r) && Map(r) == Map(d) && Size(r) == Size(d)
  {
    d
  }

  /** A non-empty dictionary stays non-empty after `clear` as written. */
  lemma ClearAsWrittenKeepsEntries()
    ensures var d := Dictionary([Entry(1, true)], DefaultInitialCapacity);
      Valid(d) && !IsEmpty(ClearAsWritten(d)) && 1 in Map(ClearAsWritten(d))
  {
    var d := Dictionary([Entry(1, true)], DefaultInitialCapacity);
    assert KeyList(d.entries) == [1];
  }

  /** The intended `clear`: no entries, the array kept. */
  function Clear<V>(d: Dictionary<V>): (r: Dictionary<V>)
    requires Valid(d)
    ensures Valid(r) && Map(r) == map[] && IsEmpty(r) && r.capacity == d.capacity
  {
    d.(entries := [])
  }

  /** The entry of the smallest key; `NoSuchElementException` when empty. */
  function Minimum<V>(d: Dictionary<V>): (r: Result<Entry<V>>)
    requires Valid(d)
    ensures r.Err? <==> Map(d) == map[]
    ensures r.Err? ==> r.error == NoSuchElementException
    ensures r.Ok? ==> r.value.key in Map(d) && Map(d)[r.value.key] == r.value.value
                      && forall k | k in Map(d) :: r.value.key <= k
  {
    ToMapKeys(d.entries);
    if IsEmpty(d) then
      Err(NoSuchElementException)
    else
      EntryValue(d.entries, 0);
      Ok(d.entries[0])
  }

  /** The entry of the largest key; `NoSuchElementException` when empty. */
  function Maximum<V>(d: Dictionary<V>): (r: Result<Entry<V>>)
    requires Valid(d)
    ensures r.Err? <==> Map(d) == map[]
    ensures r.Err? ==> r.error == NoSuchElementException
    ensures r.Ok? ==> r.value.key in Map(d) && Map(d)[r.value.key] == r.value.value
                      && forall k | k in Map(d) :: k <= r.value.key
  {
    ToMapKeys(d.entries);
    if IsEmpty(d) then
      Err(NoSuchElementException)
    else
      EntryValue(d.entries, Size(d) - 1);
      Ok(d.entries[Size(d) - 1])
  }

  /**
   * `copyOf`: a fresh dictionary of default capacity receives the entries in
   * iteration order, growing the array whenever it is full.
   */
  method CopyOf<V>(d: Dictionary<V>) returns (r: Dictionary<V>)
    requires Valid(d)
    ensures Valid(r) && r.entries == d.entries && Map(r) == Map(d)
    ensures DefaultInitialCapacity <= r.capacity
  {
    r := Empty();
    if IsEmpty(d) {
      return;
    }
    var i := 0;
    while i < Size(d)
      invariant 0 <= i <= Size(d)
      invariant r.entries == d.entries[..i]
      invariant 0 < r.capacity && |r.entries| <= r.capacity
      invariant DefaultInitialCapacity <= r.capacity
    {
      if |r.entries| == r.capacity {
        r := r.(capacity := r.capacity * 2);
      }
      r := r.(entries := r.entries + [d.entries[i]]);
      i := i + 1;
    }
    assert d.entries[..i] == d.entries;
  }

  /** Sorted by key, equal keys allowed. */
  ghost predicate SortedByKey<V>(es: seq<Entry<V>>) {
    forall i, j | 0 <= i < j < |es| :: es[i].key <= es[j].key
  }

  /** Places `e` after every entry whose key does not exceed its own. */
  function InsertSorted<V>(s: seq<Entry<V>>, e: Entry<V>): (r: seq<Entry<V>>)
    ensures |r| == |s| + 1
  {
    if s == [] || e.key < s[0].key then [e] + s else [s[0]] + InsertSorted(s[1..], e)
  }

  /**
   * `Arrays.sort` on the entries by key. For object arrays that sort is
   * stable, so it is modelled by a stable insertion sort: equal keys keep
   * their input order.
   */
  function Sort<V>(es: seq<Entry<V>>): (r: seq<Entry<V>>)
    ensures |r| == |es|
    decreases |es|
  {
    if es == [] then [] else InsertSorted(Sort(es[..|es| - 1]), es[|es| - 1])
  }

  lemma {:induction false} InsertSortedSorted<V>(s: seq<Entry<V>>, e: Entry<V>)
    requires SortedByKey(s)
    ensures SortedByKey(InsertSorted(s, e))
    ensures forall i | 0 <= i < |s| :: s[i] in InsertSorted(s, e)
    ensures e in InsertSorted(s, e)
    decreases |s|
  {
    if s != [] && e.key >= s[0].key {
      InsertSortedSorted(s[1..], e);
      var r := InsertSorted(s, e);
      assert r == [s[0]] + InsertSorted(s[1..], e);
      forall i | 0 <= i < |s|
        ensures s[i] in r
      {
        if i > 0 {
          assert s[i] == s[1..][i - 1];
        }
      }
      forall i, j | 0 <= i < j < |r|
        ensures r[i].key <= r[j].key
      {
        if i == 0 {
          var x := r[j];
          assert x in InsertSorted(s[1..], e);
          assert x == e || x in s[1..] by {
            InsertSortedMembers(s[1..], e, x);
          }
        }
      }
    }
  }

  /** Every entry of `InsertSorted(s, e)` is `e` or an entry of `s`. */
  lemma {:induction false} InsertSortedMembers<V>(s: seq<Entry<V>>, e: Entry<V>, x: Entry<V>)
    requires x in InsertSorted(s, e)
    ensures x == e || x in s
    decreases |s|
  {
    if s != [] && e.key >= s[0].key {
      if x != s[0] {
        InsertSortedMembers(s[1..], e, x);
      }
    }
  }

  /** An entry in front of a run that does not mention its key. */
  lemma FrontMap<V>(e: Entry<V>, s: seq<Entry<V>>)
    requires e.key !in KeyList(s)
    ensures ToMap([e] + s) == ToMap(s)[e.key := e.value]
  {
    ToMapAppend([e], s);
    ToMapKeys(s);
    assert ToMap([e]) == map[e.key := e.value] by {
      assert [e][..0] == [];
    }
  }

  /** A rebinding in the tail is a rebinding of the whole. */
  lemma ConsUpdate<V>(x: Entry<V>, t: seq<Entry<V>>, t2: seq<Entry<V>>, e: Entry<V>)
    requires ToMap(t2) == ToMap(t)[e.key := e.value]
    ensures ToMap([x] + t2) == ToMap([x] + t)[e.key := e.value]
  {
    ToMapAppend([x], t);
    ToMapAppend([x], t2);
  }

  /** A stable insertion lets `e` override every earlier entry for its key. */
  lemma {:induction false} InsertSortedMap<V>(s: seq<Entry<V>>, e: Entry<V>)
    requires SortedByKey(s)
    ensures ToMap(InsertSorted(s, e)) == ToMap(s)[e.key := e.value]
    decreases |s|
  {
    if s == [] || e.key < s[0].key {
      assert e.key !in KeyList(s);
      FrontMap(e, s);
    } else {
      InsertSortedMap(s[1..], e);
      ConsUpdate(s[0], s[1..], InsertSorted(s[1..], e), e);
      assert [s[0]] + s[1..] == s;
    }
  }

  /** Sorting keeps the denoted map: the last entry for each key still wins. */
  lemma {:induction false} SortKeepsMap<V>(es: seq<Entry<V>>)
    ensures SortedByKey(Sort(es))
    ensures ToMap(Sort(es)) == ToMap(es)
    decreases |es|
  {
    if es != [] {
      var n := |es| - 1;
      SortKeepsMap(es[..n]);
      InsertSortedSorted(Sort(es[..n]), es[n]);
      InsertSortedMap(Sort(es[..n]), es[n]);
    }
  }

  /** A map grows by the binding of an entry added at the end. */
  lemma ToMapSnoc<V>(s: seq<Entry<V>>, e: Entry<V>)
    ensures ToMap(s + [e]) == ToMap(s)[e.key := e.value]
  {
    assert (s + [e])[..|s|] == s;
  }

  /** Overwriting the last entry with one of the same key keeps the keys. */
  lemma ReplaceLastKeys<V>(out: seq<Entry<V>>, e: Entry<V>)
    requires out != [] && out[|out| - 1].key == e.key
    ensures KeyList(out[..|out| - 1] + [e]) == KeyList(out)
  {
    KeyListAppend(out[..|out| - 1], [e]);
    assert KeyList(out[..|out| - 1]) == KeyList(out)[..|out| - 1];
  }

  /** Overwriting the last entry with one of the same key rebinds that key. */
  lemma ReplaceLastMap<V>(front: seq<Entry<V>>, last: Entry<V>, e: Entry<V>)
    requires last.key == e.key
    ensures ToMap(front + [e]) == ToMap(front + [last])[e.key := e.value]
  {
    ToMapSnoc(front, e);
    ToMapSnoc(front, last);
  }

  /**
   * One step of the `of` loop: a new key is appended, an equal key
   * overwrites the last entry.
   */
  function KeepLast<V>(out: seq<Entry<V>>, e: Entry<V>): (r: seq<Entry<V>>)
    requires out != [] && StrictlyIncreasing(KeyList(out)) && out[|out| - 1].key <= e.key
    ensures r != [] && StrictlyIncreasing(KeyList(r)) && r[|r| - 1] == e && |r| <= |out| + 1
    ensures ToMap(r) == ToMap(out)[e.key := e.value]
  {
    var n := |out| - 1;
    if e.key != out[n].key then
      KeyListAppend(out, [e]);
      AppendAbove(KeyList(out), e.key);
      ToMapSnoc(out, e);
      out + [e]
    else
      ReplaceLastKeys(out, e);
      ReplaceLastMap(out[..n], out[n], e);
      assert out[..n] + [out[n]] == out;
      out[..n] + [e]
  }

  /**
   * What the `of` loop keeps after copying the first `i` sorted entries:
   * one entry per key, ending with the last copied entry, and the same map.
   */
  ghost predicate Deduped<V>(out: seq<Entry<V>>, sorted: seq<Entry<V>>, i: int) {
    1 <= i <= |sorted| && 1 <= |out| <= i
    && StrictlyIncreasing(KeyList(out))
    && out[|out| - 1] == sorted[i - 1]
    && ToMap(out) == ToMap(sorted[..i])
  }

  /** One iteration of the `of` loop. */
  method KeepNext<V>(out: seq<Entry<V>>, sorted: seq<Entry<V>>, i: int) returns (out': seq<Entry<V>>)
    requires SortedByKey(sorted) && i < |sorted| && Deduped(out, sorted, i)
    ensures Deduped(out', sorted, i + 1)
  {
    assert sorted[i - 1].key <= sorted[i].key;
    out' := KeepLast(out, sorted[i]);
    assert sorted[..i + 1] == sorted[..i] + [sorted[i]];
    ToMapSnoc(sorted[..i], sorted[i]);
  }

  /**
   * `of`: sorts the entries by key, then copies them keeping one entry per
   * key, the last of each run of equal keys. The array is sized to the
   * number of given entries, or the default when there are none.
   */
  method Of<V>(entries: seq<Entry<V>>) returns (d: Dictionary<V>)
    ensures Valid(d) && Map(d) == ToMap(entries)
    ensures d.capacity == if |entries| > 0 then |entries| else DefaultInitialCapacity
  {
    var sorted := Sort(entries);
    SortKeepsMap(entries);
    if |sorted| == 0 {
      return Dictionary([], DefaultInitialCapacity);
    }
    var out := [sorted[0]];
    assert sorted[..1] == out;
    var i := 1;
    while i < |sorted|
      invariant Deduped(out, sorted, i)
    {
      out := KeepNext(out, sorted, i);
      i := i + 1;
    }
    assert sorted[..i] == sorted;
    d := Dictionary(out, |entries|);
  }
}
