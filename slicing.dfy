/** `first`, `skip`, `slice` and `last`: the container methods built on
    `array_slice`. `first` and `skip` keep `array_slice`'s own result (integer
    keys renumbered, string keys kept); `slice` and `last` pass it through
    `array_values`. */
module Slicing {
  import opened PhpValues
  import opened PhpArrays

  /** `first($n)`: `array_slice($a, 0, $n)`. */
  function First(s: Entries, n: int): Entries
  {
    Renumber(s[..SliceEnd(|s|, 0, Some(n))])
  }

  /** `skip($n)`: `array_slice($a, $n)`. */
  function Skip(s: Entries, n: int): Entries
  {
    Renumber(s[SliceStart(|s|, n)..])
  }

  /** `slice($offset, $length)`: `array_values(array_slice($a, $offset, $length))`;
      a null length (None) runs to the end. */
  function Slice(s: Entries, offset: int, length: Option<int>): Entries
  {
    var start := SliceStart(|s|, offset);
    Indexed(Vals(s[start..SliceEnd(|s|, start, length)]))
  }

  /** `last($n)` as written: `array_values(array_slice($a, count($a) - $n))`. */
  function Last(s: Entries, n: int): Entries
  {
    Indexed(Vals(s[SliceStart(|s|, |s| - n)..]))
  }

  function Min(a: int, b: int): int
  {
    if a < b then a else b
  }

  /** For n >= 0, `first(n)` holds the first min(n, count) values, `skip(n)`
      the rest, and together they hold every value once, in order. */
  lemma FirstSkip(s: Entries, n: int)
    requires n >= 0
    ensures |First(s, n)| == Min(n, |s|)
    ensures Vals(First(s, n)) == Vals(s)[..Min(n, |s|)]
    ensures Vals(First(s, n)) + Vals(Skip(s, n)) == Vals(s)
    ensures DistinctKeys(s) ==> DistinctKeys(First(s, n)) && DistinctKeys(Skip(s, n))
  {
    var m := Min(n, |s|);
    assert SliceEnd(|s|, 0, Some(n)) == m && SliceStart(|s|, n) == m;
    RenumberSpec(s[..m], 0);
    RenumberSpec(s[m..], 0);
    ValsSplit(s, m);
    if DistinctKeys(s) {
      DistinctKeysSplit(s, m);
    }
  }

  /** A negative n drops that many values from the end (`first`) or keeps
      that many from the end (`skip`). */
  lemma FirstSkipNegative(s: Entries, n: int)
    requires n < 0
    ensures var m := if |s| + n > 0 then |s| + n else 0;
      Vals(First(s, n)) == Vals(s)[..m] && Vals(Skip(s, n)) == Vals(s)[m..]
  {
    var m := if |s| + n > 0 then |s| + n else 0;
    assert SliceEnd(|s|, 0, Some(n)) == m && SliceStart(|s|, n) == m;
    RenumberSpec(s[..m], 0);
    RenumberSpec(s[m..], 0);
    ValsSlice(s, 0, m);
    ValsSlice(s, m, |s|);
  }

  /** Taking the first n of a list gives a list. */
  lemma FirstOfList(s: Entries, n: int)
    requires Dense(s) && n >= 0
    ensures First(s, n) == Indexed(Vals(s)[..Min(n, |s|)])
  {
    var m := Min(n, |s|);
    assert SliceEnd(|s|, 0, Some(n)) == m;
    assert forall i :: 0 <= i < m ==> s[..m][i].0.IntKey?;
    RenumberOfIntKeyed(s[..m]);
    ValsSlice(s, 0, m);
  }

  /** In range, `slice(offset, length)` is exactly that window of values. */
  lemma SliceWindow(s: Entries, offset: int, length: int)
    requires 0 <= offset && 0 <= length && offset + length <= |s|
    ensures Slice(s, offset, Some(length)) == Indexed(Vals(s)[offset..offset + length])
    ensures Dense(Slice(s, offset, Some(length)))
  {
    assert SliceStart(|s|, offset) == offset;
    assert SliceEnd(|s|, offset, Some(length)) == offset + length;
    ValsSlice(s, offset, offset + length);
    IndexedIsList(Vals(s)[offset..offset + length]);
  }

  /** A negative offset counts from the end: `slice(-k, null)` is the last k
      values. */
  lemma SliceFromEnd(s: Entries, k: int)
    requires 0 < k <= |s|
    ensures Slice(s, -k, None) == Indexed(Vals(s)[|s| - k..])
  {
    ValsSlice(s, |s| - k, |s|);
  }

  /** For 0 <= n <= count, `last(n)` is the list of the last n values. */
  lemma LastInRange(s: Entries, n: int)
    requires 0 <= n <= |s|
    ensures Last(s, n) == Indexed(Vals(s)[|s| - n..])
    ensures |Last(s, n)| == n
  {
    ValsSlice(s, |s| - n, |s|);
  }

  /** A non-positive n yields the empty list. */
  lemma LastNonPositive(s: Entries, n: int)
    requires n <= 0
    ensures Last(s, n) == []
  {
  }

  /** As written, `last(n)` with count < n < 2 * count yields only the last
      n - count values: the negative offset count - n counts back from the
      end instead of meaning "everything". */
  lemma LastBeyondCount(s: Entries, n: int)
    requires |s| < n < 2 * |s|
    ensures |Last(s, n)| == n - |s| < |s|
    ensures Vals(Last(s, n)) == Vals(s)[2 * |s| - n..]
  {
    assert SliceStart(|s|, |s| - n) == 2 * |s| - n;
    ValsSlice(s, 2 * |s| - n, |s|);
  }

  /** `[1, 2, 3, 4]->last(6)` is `[3, 4]`, not `[1, 2, 3, 4]`. */
  lemma LastBeyondCountExample()
    ensures Last(Indexed([Int(1), Int(2), Int(3), Int(4)]), 6) == Indexed([Int(3), Int(4)])
  {
    var s := Indexed([Int(1), Int(2), Int(3), Int(4)]);
    LastBeyondCount(s, 6);
    assert Vals(s)[2..] == [Int(3), Int(4)];
  }

  /** `last(n)` as evidently intended: the last min(n, count) values. */
  function LastIntended(s: Entries, n: int): Entries
  {
    var k := if n < 0 then 0 else Min(n, |s|);
    Indexed(Vals(s[|s| - k..]))
  }

  lemma LastIntendedSpec(s: Entries, n: int)
    ensures |LastIntended(s, n)| == if n < 0 then 0 else Min(n, |s|)
    ensures Vals(LastIntended(s, n)) == Vals(s)[|s| - |LastIntended(s, n)|..]
    ensures 0 <= n <= |s| ==> LastIntended(s, n) == Last(s, n)
    ensures n >= |s| ==> Vals(LastIntended(s, n)) == Vals(s)
  {
    var k := if n < 0 then 0 else Min(n, |s|);
    ValsSlice(s, |s| - k, |s|);
    if 0 <= n <= |s| {
      LastInRange(s, n);
    }
  }
}
