/** Sorting by PHP's comparison of values, shared by `sort` (values compared
    directly) and the `ksort` step of `sortBy` (entries compared by key).
    The engine's sort algorithm is not modelled; what is modelled is its
    result, which for a total order without ties is unique: the sorted
    permutation of the input. */
module Sorting {
  import opened PhpValues
  import opened Seqs

  predicate SortedBy<T>(xs: seq<T>, key: T -> Value)
  {
    forall i, j :: 0 <= i < j < |xs| ==> Leq(key(xs[i]), key(xs[j]))
  }

  /** No two different elements of `xs` have the same sort key. */
  ghost predicate KeyInjective<T>(xs: seq<T>, key: T -> Value)
  {
    forall i, j :: 0 <= i < |xs| && 0 <= j < |xs| && key(xs[i]) == key(xs[j]) ==> xs[i] == xs[j]
  }

  function Insert<T>(x: T, xs: seq<T>, key: T -> Value): seq<T>
  {
    if xs == [] then [x]
    else if Leq(key(x), key(xs[0])) then [x] + xs
    else [xs[0]] + Insert(x, xs[1..], key)
  }

  function InsertionSort<T>(xs: seq<T>, key: T -> Value): seq<T>
  {
    if xs == [] then [] else Insert(xs[0], InsertionSort(xs[1..], key), key)
  }

  lemma {:induction false} InsertBound<T>(a: Value, x: T, xs: seq<T>, key: T -> Value)
    requires forall j :: 0 <= j < |xs| ==> Leq(a, key(xs[j]))
    requires Leq(a, key(x))
    ensures forall j :: 0 <= j < |Insert(x, xs, key)| ==> Leq(a, key(Insert(x, xs, key)[j]))
  {
    if xs != [] && !Leq(key(x), key(xs[0])) {
      InsertBound(a, x, xs[1..], key);
    }
  }

  lemma {:induction false} InsertSorted<T>(x: T, xs: seq<T>, key: T -> Value)
    requires SortedBy(xs, key)
    ensures SortedBy(Insert(x, xs, key), key)
  {
    if xs != [] {
      if Leq(key(x), key(xs[0])) {
        forall j | 0 <= j < |xs| ensures Leq(key(x), key(xs[j])) {
          if j > 0 { CmpTrans(key(x), key(xs[0]), key(xs[j])); }
        }
      } else {
        InsertSorted(x, xs[1..], key);
        CmpFlip(key(x), key(xs[0]));
        InsertBound(key(xs[0]), x, xs[1..], key);
      }
    }
  }

  lemma {:induction false} InsertMultiset<T>(x: T, xs: seq<T>, key: T -> Value)
    ensures multiset(Insert(x, xs, key)) == multiset(xs) + multiset{x}
  {
    if xs != [] && !Leq(key(x), key(xs[0])) {
      InsertMultiset(x, xs[1..], key);
      assert xs == [xs[0]] + xs[1..];
    }
  }

  lemma {:induction false} InsertionSortSorted<T>(xs: seq<T>, key: T -> Value)
    ensures SortedBy(InsertionSort(xs, key), key)
  {
    if xs != [] {
      InsertionSortSorted(xs[1..], key);
      InsertSorted(xs[0], InsertionSort(xs[1..], key), key);
    }
  }

  lemma {:induction false} InsertionSortMultiset<T>(xs: seq<T>, key: T -> Value)
    ensures multiset(InsertionSort(xs, key)) == multiset(xs)
  {
    if xs != [] {
      InsertionSortMultiset(xs[1..], key);
      InsertMultiset(xs[0], InsertionSort(xs[1..], key), key);
      assert xs == [xs[0]] + xs[1..];
    }
  }

  /** The sort yields a sorted permutation of its input. */
  lemma InsertionSortSpec<T>(xs: seq<T>, key: T -> Value)
    ensures SortedBy(InsertionSort(xs, key), key)
    ensures multiset(InsertionSort(xs, key)) == multiset(xs)
    ensures |InsertionSort(xs, key)| == |xs|
  {
    InsertionSortSorted(xs, key);
    InsertionSortMultiset(xs, key);
    assert |InsertionSort(xs, key)| == |multiset(InsertionSort(xs, key))|;
  }

  /** Two sorted arrangements of the same elements without ties start with
      the same element. */
  lemma SortedHeads<T>(xs: seq<T>, ys: seq<T>, key: T -> Value)
    requires xs != [] && ys != []
    requires SortedBy(xs, key) && SortedBy(ys, key)
    requires multiset(xs) == multiset(ys)
    requires KeyInjective(xs, key)
    ensures xs[0] == ys[0]
  {
    assert xs[0] in multiset(ys) && ys[0] in multiset(xs);
    var i :| 0 <= i < |ys| && ys[i] == xs[0];
    var j :| 0 <= j < |xs| && xs[j] == ys[0];
    CmpFlip(key(xs[0]), key(xs[0]));
    CmpFlip(key(ys[0]), key(ys[0]));
    assert Leq(key(xs[0]), key(xs[j]));
    assert Leq(key(ys[0]), key(ys[i]));
    CmpFlip(key(xs[0]), key(ys[0]));
    CmpZero(key(xs[0]), key(ys[0]));
  }

  /** A sorted list without ties is the only sorted arrangement of its
      elements. */
  lemma {:induction false} SortedUnique<T>(xs: seq<T>, ys: seq<T>, key: T -> Value)
    requires SortedBy(xs, key) && SortedBy(ys, key)
    requires multiset(xs) == multiset(ys)
    requires KeyInjective(xs, key)
    ensures xs == ys
  {
    assert |xs| == |multiset(xs)| == |ys|;
    if xs != [] {
      SortedHeads(xs, ys, key);
      MultisetTail(xs, ys);
      assert SortedBy(xs[1..], key) && SortedBy(ys[1..], key);
      assert KeyInjective(xs[1..], key);
      SortedUnique(xs[1..], ys[1..], key);
      assert xs == [xs[0]] + xs[1..] && ys == [ys[0]] + ys[1..];
    }
  }

  /** Sorting what is already sorted changes nothing. */
  lemma {:induction false} SortSorted<T>(xs: seq<T>, key: T -> Value)
    requires SortedBy(xs, key)
    ensures InsertionSort(xs, key) == xs
  {
    if xs != [] {
      SortSorted(xs[1..], key);
      if |xs| > 1 {
        assert Leq(key(xs[0]), key(xs[1]));
      }
    }
  }
}
