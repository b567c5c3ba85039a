/** The container methods that reorder: `reverse` (`array_reverse`), `sort`
    (`sort` then `array_values`) and `sortBy` (the callback's results become
    keys through `map` and `combine`, then `ksort` and `array_values`). */
module Ordering {
  import opened PhpValues
  import opened Seqs
  import opened PhpArrays
  import opened Sorting
  import opened ListOps
  import opened Merging

  // ---------------------------------------------------------------------
  // reverse: array_reverse($a)
  // ---------------------------------------------------------------------

  function Rev<T>(xs: seq<T>): (r: seq<T>)
    ensures |r| == |xs|
  {
    if xs == [] then [] else Rev(xs[1..]) + [xs[0]]
  }

  lemma {:induction false} RevIndex<T>(xs: seq<T>, i: nat)
    requires i < |xs|
    ensures Rev(xs)[i] == xs[|xs| - 1 - i]
  {
    if i < |xs| - 1 {
      RevIndex(xs[1..], i);
    }
  }

  lemma RevRev<T>(xs: seq<T>)
    ensures Rev(Rev(xs)) == xs
  {
    forall i | 0 <= i < |xs| ensures Rev(Rev(xs))[i] == xs[i] {
      RevIndex(Rev(xs), i);
      RevIndex(xs, |xs| - 1 - i);
    }
  }

  /** `reverse()`: the entries in reverse order, integer keys renumbered,
      string keys kept. */
  function Reverse(s: Entries): Entries
  {
    Renumber(Rev(s))
  }

  lemma RevVals(s: Entries)
    ensures Vals(Rev(s)) == Rev(Vals(s))
  {
    forall i | 0 <= i < |s| ensures Vals(Rev(s))[i] == Rev(Vals(s))[i] {
      RevIndex(s, i);
      RevIndex(Vals(s), i);
    }
  }

  /** The values come out in reverse order and keys stay distinct; a list
      reverses into the list of its reversed values. */
  lemma ReverseSpec(s: Entries)
    ensures Vals(Reverse(s)) == Rev(Vals(s))
    ensures DistinctKeys(s) ==> DistinctKeys(Reverse(s))
    ensures Dense(s) ==> Reverse(s) == Indexed(Rev(Vals(s)))
  {
    RevVals(s);
    RenumberSpec(Rev(s), 0);
    if DistinctKeys(s) {
      forall i, j | 0 <= i < j < |s| ensures Rev(s)[i].0 != Rev(s)[j].0 {
        RevIndex(s, i);
        RevIndex(s, j);
      }
    }
    if Dense(s) {
      forall i | 0 <= i < |s| ensures Rev(s)[i].0.IntKey? {
        RevIndex(s, i);
      }
      RenumberOfIntKeyed(Rev(s));
    }
  }

  /** Two arrays of the same shape: same values, string keys in the same
      places, integer keys (whatever their numbers) in the same places. */
  predicate SameShape(s: Entries, t: Entries)
  {
    |s| == |t| &&
    forall i :: 0 <= i < |s| ==>
      s[i].1 == t[i].1 && s[i].0.IntKey? == t[i].0.IntKey? &&
      (s[i].0.StrKey? ==> s[i].0 == t[i].0)
  }

  /** Renumbering ignores what the integer keys were. */
  lemma {:induction false} RenumberShape(s: Entries, t: Entries, n: int)
    requires SameShape(s, t)
    ensures RenumberFrom(s, n) == RenumberFrom(t, n)
  {
    if s != [] {
      RenumberShape(s[1..], t[1..], if s[0].0.IntKey? then n + 1 else n);
    }
  }

  /** Reversing twice renumbers; for a list it gives the list back. */
  lemma ReverseTwice(s: Entries)
    ensures Reverse(Reverse(s)) == Renumber(s)
    ensures Dense(s) ==> Reverse(Reverse(s)) == s
  {
    var r := Renumber(Rev(s));
    RenumberSpec(Rev(s), 0);
    forall i | 0 <= i < |s|
      ensures Rev(r)[i].1 == s[i].1 && Rev(r)[i].0.IntKey? == s[i].0.IntKey? &&
        (Rev(r)[i].0.StrKey? ==> Rev(r)[i].0 == s[i].0)
    {
      var j := |s| - 1 - i;
      RevIndex(r, i);
      RenumberAt(Rev(s), 0, j);
      RevIndex(s, j);
    }
    RenumberShape(Rev(r), s, 0);
    if Dense(s) {
      RenumberOfIntKeyed(s);
      DenseIsIndexed(s);
    }
  }

  // ---------------------------------------------------------------------
  // sort: sort($result); array_values($result)
  // ---------------------------------------------------------------------

  function Id(v: Value): Value
  {
    v
  }

  /** `sort()`: the values in ascending order, as a list. */
  function Sort(s: Entries): Entries
  {
    Indexed(InsertionSort(Vals(s), Id))
  }

  /** `sort` gives the sorted permutation of the values; it is the only one,
      so sorting again changes nothing. */
  lemma SortSpec(s: Entries)
    ensures Dense(Sort(s))
    ensures SortedBy(Vals(Sort(s)), Id)
    ensures multiset(Vals(Sort(s))) == multiset(Vals(s))
    ensures Sort(Sort(s)) == Sort(s)
  {
    InsertionSortSpec(Vals(s), Id);
    IndexedIsList(InsertionSort(Vals(s), Id));
    SortSorted(InsertionSort(Vals(s), Id), Id);
  }

  /** Any ascending arrangement of the values is the result of `sort`. */
  lemma SortUnique(s: Entries, vs: seq<Value>)
    requires SortedBy(vs, Id) && multiset(vs) == multiset(Vals(s))
    ensures Sort(s) == Indexed(vs)
  {
    InsertionSortSpec(Vals(s), Id);
    SortedUnique(vs, InsertionSort(Vals(s), Id), Id);
  }

  // ---------------------------------------------------------------------
  // sortBy: ksort(create($a)->map($cb)->combine($a)); array_values(...)
  // ---------------------------------------------------------------------

  /** The key `combine` makes of each element's callback result. */
  function SortKeys(s: Entries, cb: Value -> Value): (r: seq<Key>)
    ensures |r| == |s|
    ensures forall i :: 0 <= i < |s| ==> r[i] == CombineKey(cb(s[i].1))
  {
    seq(|s|, i requires 0 <= i < |s| => CombineKey(cb(s[i].1)))
  }

  /** Each element paired with its computed key. */
  function Keyed(s: Entries, cb: Value -> Value): (r: Entries)
    ensures |r| == |s|
    ensures forall i :: 0 <= i < |s| ==> r[i] == (CombineKey(cb(s[i].1)), s[i].1)
  {
    seq(|s|, i requires 0 <= i < |s| => (CombineKey(cb(s[i].1)), s[i].1))
  }

  function EntryKey(e: Entry): Value
  {
    KeyValue(e.0)
  }

  /** `ksort`: the entries in ascending key order. */
  function KSort(s: Entries): Entries
  {
    InsertionSort(s, EntryKey)
  }

  /** No callback result is falsy, so `map` drops nothing and `combine` gets
      two arrays of the same count. */
  predicate AllTruthy(s: Entries, cb: Value -> Value)
  {
    forall i :: 0 <= i < |s| ==> Truthy(cb(s[i].1))
  }

  lemma MapCombine(s: Entries, cb: Value -> Value)
    requires AllTruthy(s, cb)
    ensures |Map(s, cb)| == |s|
    ensures CombinePairs(Map(s, cb), s) == Keyed(s, cb)
  {
    MapSpec(s, cb);
    var m := Map(s, cb);
    forall i | 0 <= i < |s| ensures CombinePairs(m, s)[i] == Keyed(s, cb)[i] {
      assert m[i].1 == Vals(m)[i] == Apply(Vals(s), cb)[i] == cb(s[i].1);
    }
  }

  /** The array `ksort` is given: computed key => element, a later element
      overwriting an earlier one with the same key. */
  function Combined(s: Entries, cb: Value -> Value): Entries
    requires AllTruthy(s, cb)
  {
    MapCombine(s, cb);
    Combine(Map(s, cb), s)
  }

  /** `sortBy($callback)`. */
  function SortBy(s: Entries, cb: Value -> Value): Entries
    requires AllTruthy(s, cb)
  {
    Indexed(Vals(KSort(Combined(s, cb))))
  }

  /** Taking out the entry at j takes out one key and one value. */
  lemma RemoveAt(ys: Entries, j: nat)
    requires j < |ys|
    ensures var rest := ys[..j] + ys[j + 1..];
      multiset(ys) == multiset(rest) + multiset{ys[j]} &&
      multiset(Keys(ys)) == multiset(Keys(rest)) + multiset{ys[j].0} &&
      multiset(Vals(ys)) == multiset(Vals(rest)) + multiset{ys[j].1}
  {
    var rest := ys[..j] + ys[j + 1..];
    assert ys == ys[..j] + [ys[j]] + ys[j + 1..];
    assert Keys(ys) == Keys(ys[..j]) + [ys[j].0] + Keys(ys[j + 1..]);
    assert Keys(rest) == Keys(ys[..j]) + Keys(ys[j + 1..]);
    assert Vals(ys) == Vals(ys[..j]) + [ys[j].1] + Vals(ys[j + 1..]);
    assert Vals(rest) == Vals(ys[..j]) + Vals(ys[j + 1..]);
  }

  /** Rearranging entries rearranges their keys and their values. */
  lemma {:induction false} MultisetEntries(xs: Entries, ys: Entries)
    requires multiset(xs) == multiset(ys)
    ensures multiset(Keys(xs)) == multiset(Keys(ys))
    ensures multiset(Vals(xs)) == multiset(Vals(ys))
    decreases |xs|
  {
    assert |xs| == |multiset(xs)| == |ys|;
    if xs != [] {
      assert xs[0] in multiset(ys);
      var j :| 0 <= j < |ys| && ys[j] == xs[0];
      var rest := ys[..j] + ys[j + 1..];
      RemoveAt(ys, j);
      RemoveAt(xs, 0);
      assert xs[..0] + xs[1..] == xs[1..];
      MultisetCancel(multiset(xs[1..]), multiset(rest), xs[0]);
      MultisetEntries(xs[1..], rest);
    }
  }

  lemma {:induction false} NoDuplicatesCount<T>(xs: seq<T>, x: T)
    requires NoDuplicates(xs)
    ensures multiset(xs)[x] <= 1
  {
    if xs != [] {
      assert NoDuplicates(xs[1..]) by {
        forall i, j | 0 <= i < j < |xs[1..]| ensures xs[1..][i] != xs[1..][j] {
          assert xs[1..][i] == xs[i + 1] && xs[1..][j] == xs[j + 1];
        }
      }
      NoDuplicatesCount(xs[1..], x);
      assert xs == [xs[0]] + xs[1..];
      if x == xs[0] {
        assert x !in xs[1..];
      }
    }
  }

  /** A rearrangement of a list without repetitions has none either. */
  lemma NoDuplicatesPermutation<T>(xs: seq<T>, ys: seq<T>)
    requires NoDuplicates(xs) && multiset(xs) == multiset(ys)
    ensures NoDuplicates(ys)
  {
    forall i, j | 0 <= i < j < |ys| ensures ys[i] != ys[j] {
      NoDuplicatesCount(xs, ys[i]);
      assert ys == ys[..j] + ys[j..];
      assert ys[i] in multiset(ys[..j]);
      assert ys[j] in multiset(ys[j..]);
    }
  }

  lemma DistinctKeysIff(s: Entries)
    ensures DistinctKeys(s) <==> NoDuplicates(Keys(s))
  {
    assert forall i :: 0 <= i < |s| ==> Keys(s)[i] == s[i].0;
  }

  /** `ksort` of an array with distinct keys: the same entries in strictly
      ascending key order. */
  lemma KSortSpec(s: Entries)
    requires DistinctKeys(s)
    ensures multiset(KSort(s)) == multiset(s)
    ensures DistinctKeys(KSort(s))
    ensures forall i, j :: 0 <= i < j < |KSort(s)| ==> KeyCmp(KSort(s)[i].0, KSort(s)[j].0) < 0
    ensures multiset(Vals(KSort(s))) == multiset(Vals(s))
    ensures multiset(Keys(KSort(s))) == multiset(Keys(s))
  {
    var k := KSort(s);
    InsertionSortSpec(s, EntryKey);
    MultisetEntries(s, k);
    DistinctKeysIff(s);
    DistinctKeysIff(k);
    NoDuplicatesPermutation(Keys(s), Keys(k));
    forall i, j | 0 <= i < j < |k| ensures KeyCmp(k[i].0, k[j].0) < 0 {
      assert Leq(EntryKey(k[i]), EntryKey(k[j]));
      KeyCmpZero(k[i].0, k[j].0);
    }
  }

  /** The last element whose computed key is k, if any. */
  function LastOf(s: Entries, cb: Value -> Value, k: Key): Option<Value>
  {
    var p := LastPosition(Keyed(s, cb), k);
    if p >= 0 then Some(s[p].1) else None
  }

  /** What `ksort` is given: one entry per distinct computed key, in order of
      first occurrence, holding the last element that computed it. */
  lemma CombinedSpec(s: Entries, cb: Value -> Value)
    requires AllTruthy(s, cb)
    ensures DistinctKeys(Combined(s, cb))
    ensures Keys(Combined(s, cb)) == Dedup(SortKeys(s, cb))
    ensures forall k :: Get(Combined(s, cb), k) == LastOf(s, cb, k)
    ensures NoDuplicates(SortKeys(s, cb)) ==> Combined(s, cb) == Keyed(s, cb)
  {
    var ps := Keyed(s, cb);
    MapCombine(s, cb);
    assert Keys(ps) == SortKeys(s, cb);
    DistinctKeysIff(ps);
    CombineSpec(Map(s, cb), s, IntKey(0));
    forall k ensures Get(Combined(s, cb), k) == LastOf(s, cb, k) {
      CombineSpec(Map(s, cb), s, k);
    }
  }

  /** `ksort` keeps the same keys. */
  lemma KSortKeys(c: Entries)
    requires DistinctKeys(c)
    ensures forall x :: x in Keys(KSort(c)) <==> x in Keys(c)
  {
    KSortSpec(c);
    var ks := Keys(KSort(c));
    forall x ensures x in ks <==> x in Keys(c) {
      assert x in ks <==> x in multiset(ks);
      assert x in Keys(c) <==> x in multiset(Keys(c));
    }
  }

  /** `ksort` keeps each key with its own value. */
  lemma KSortGet(c: Entries, i: nat)
    requires DistinctKeys(c) && i < |KSort(c)|
    ensures Get(c, KSort(c)[i].0) == Some(KSort(c)[i].1)
  {
    var k := KSort(c);
    InsertionSortSpec(c, EntryKey);
    assert k[i] in multiset(c);
    var j :| 0 <= j < |c| && c[j] == k[i];
    assert Position(c, k[i].0) == j;
  }

  /** The keys `sortBy` orders by: each distinct computed key once, strictly
      ascending. */
  lemma SortByKeys(s: Entries, cb: Value -> Value)
    requires AllTruthy(s, cb)
    ensures |Keys(KSort(Combined(s, cb)))| == |SortBy(s, cb)| == |Dedup(SortKeys(s, cb))|
    ensures forall i, j :: 0 <= i < j < |KSort(Combined(s, cb))| ==>
      KeyCmp(Keys(KSort(Combined(s, cb)))[i], Keys(KSort(Combined(s, cb)))[j]) < 0
    ensures forall k :: k in Keys(KSort(Combined(s, cb))) <==> k in SortKeys(s, cb)
  {
    var c := Combined(s, cb);
    var k := KSort(c);
    CombinedSpec(s, cb);
    DedupSpec(SortKeys(s, cb));
    KSortSpec(c);
    KSortKeys(c);
    InsertionSortSpec(c, EntryKey);
    assert |k| == |c| == |Keys(c)|;
    IndexedIsList(Vals(k));
    assert |SortBy(s, cb)| == |Vals(k)| == |k|;
  }

  /** `sortBy` yields a list whose i-th value is the last element whose
      computed key is the i-th smallest. */
  lemma SortByValues(s: Entries, cb: Value -> Value)
    requires AllTruthy(s, cb)
    ensures Dense(SortBy(s, cb))
    ensures |KSort(Combined(s, cb))| == |SortBy(s, cb)|
    ensures forall i :: 0 <= i < |SortBy(s, cb)| ==>
      Some(SortBy(s, cb)[i].1) == LastOf(s, cb, KSort(Combined(s, cb))[i].0)
  {
    var c := Combined(s, cb);
    var k := KSort(c);
    CombinedSpec(s, cb);
    IndexedIsList(Vals(k));
    forall i | 0 <= i < |k| ensures Some(k[i].1) == LastOf(s, cb, k[i].0) {
      KSortGet(c, i);
    }
  }

  /** With pairwise distinct computed keys, nothing collapses: `sortBy` is a
      permutation of the values. */
  lemma SortByPermutation(s: Entries, cb: Value -> Value)
    requires AllTruthy(s, cb)
    requires NoDuplicates(SortKeys(s, cb))
    ensures multiset(Vals(SortBy(s, cb))) == multiset(Vals(s))
  {
    var ps := Keyed(s, cb);
    CombinedSpec(s, cb);
    DistinctKeysIff(ps);
    assert Keys(ps) == SortKeys(s, cb);
    KSortSpec(ps);
    IndexedIsList(Vals(KSort(ps)));
    assert Vals(ps) == Vals(s);
  }
}
