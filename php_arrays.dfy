/** An ordered PHP array, the thing a `_` container wraps: a sequence of
    (key, value) entries in insertion order with pairwise distinct keys, and
    the engine primitives the container builds on — key lookup, `$a[$k] = $v`,
    `$a[] = $v`, `array_values`, the integer-key renumbering done by
    `array_slice`/`array_shift`/`array_unshift`/`array_splice`, and the offset
    arithmetic of `array_slice` and `array_splice`. */
module PhpArrays {
  import opened PhpValues
  import opened Seqs

  type Entry = (Key, Value)
  type Entries = seq<Entry>

  function Keys(s: Entries): seq<Key>
  {
    seq(|s|, i requires 0 <= i < |s| => s[i].0)
  }

  /** `array_values` without the re-keying: the values in order. */
  function Vals(s: Entries): seq<Value>
  {
    seq(|s|, i requires 0 <= i < |s| => s[i].1)
  }

  /** The invariant of every PHP array: no key occurs twice. */
  predicate DistinctKeys(s: Entries)
  {
    forall i, j :: 0 <= i < j < |s| ==> s[i].0 != s[j].0
  }

  /** The string form of every value, in order (what `implode` and
      `array_diff` look at). */
  function StrForms(s: Entries): seq<string>
  {
    seq(|s|, i requires 0 <= i < |s| => StrOf(s[i].1))
  }

  /** A list: keys are exactly 0, 1, ..., n-1 in order. */
  predicate Dense(s: Entries)
  {
    forall i :: 0 <= i < |s| ==> s[i].0 == IntKey(i)
  }

  /** The list holding `vs` (what `array_values` returns). */
  function Indexed(vs: seq<Value>): Entries
  {
    seq(|vs|, i requires 0 <= i < |vs| => (IntKey(i), vs[i]))
  }

  lemma IndexedIsList(vs: seq<Value>)
    ensures Dense(Indexed(vs)) && DistinctKeys(Indexed(vs)) && Vals(Indexed(vs)) == vs
  {
  }

  lemma DenseIsIndexed(s: Entries)
    requires Dense(s)
    ensures s == Indexed(Vals(s))
  {
  }

  lemma ValsAppend(a: Entries, b: Entries)
    ensures Vals(a + b) == Vals(a) + Vals(b)
  {
  }

  lemma ValsSlice(s: Entries, i: nat, j: nat)
    requires i <= j <= |s|
    ensures Vals(s[i..j]) == Vals(s)[i..j]
  {
  }

  // ---------------------------------------------------------------------
  // Key lookup and assignment.
  // ---------------------------------------------------------------------

  /** Index of the entry with key `k`, or |s| when there is none. */
  function Position(s: Entries, k: Key): (r: nat)
    ensures r <= |s|
    ensures r < |s| ==> s[r].0 == k
    ensures forall i :: 0 <= i < r ==> s[i].0 != k
  {
    if s == [] then 0 else if s[0].0 == k then 0 else 1 + Position(s[1..], k)
  }

  predicate HasKey(s: Entries, k: Key)
  {
    Position(s, k) < |s|
  }

  lemma HasKeyIff(s: Entries, k: Key)
    ensures HasKey(s, k) <==> k in Keys(s)
  {
    if HasKey(s, k) {
      assert Keys(s)[Position(s, k)] == k;
    }
    if k in Keys(s) {
      var i :| 0 <= i < |s| && Keys(s)[i] == k;
      assert s[i].0 == k;
    }
  }

  /** `$a[$k]`: the value at key `k`, or None when the key is undefined. */
  function Get(s: Entries, k: Key): Option<Value>
  {
    var p := Position(s, k);
    if p < |s| then Some(s[p].1) else None
  }

  /** `$a[$k] = $v`: overwrite in place when the key exists, append otherwise. */
  function Put(s: Entries, k: Key, v: Value): Entries
  {
    var p := Position(s, k);
    if p < |s| then s[p := (k, v)] else s + [(k, v)]
  }

  /** Assignment stores the value under the key and touches no other key. */
  lemma PutGet(s: Entries, k: Key, v: Value, k': Key)
    ensures Get(Put(s, k, v), k) == Some(v)
    ensures k' != k ==> Get(Put(s, k, v), k') == Get(s, k')
  {
    var p := Position(s, k);
    var t := Put(s, k, v);
    if p < |s| {
      PositionSameKeys(s, t, k);
      PositionSameKeys(s, t, k');
    } else {
      PositionExtend(s, (k, v), k);
      PositionExtend(s, (k, v), k');
    }
  }

  lemma {:induction false} PositionSameKeys(s: Entries, t: Entries, k: Key)
    requires |s| == |t| && forall i :: 0 <= i < |s| ==> t[i].0 == s[i].0
    ensures Position(t, k) == Position(s, k)
  {
    if s != [] {
      PositionSameKeys(s[1..], t[1..], k);
    }
  }

  lemma {:induction false} PositionExtend(s: Entries, e: Entry, k: Key)
    ensures Position(s + [e], k) == if HasKey(s, k) then Position(s, k) else if e.0 == k then |s| else |s| + 1
  {
    if s != [] {
      assert (s + [e])[1..] == s[1..] + [e];
      PositionExtend(s[1..], e, k);
    }
  }

  lemma PutKeys(s: Entries, k: Key, v: Value)
    ensures Keys(Put(s, k, v)) == if HasKey(s, k) then Keys(s) else Keys(s) + [k]
  {
  }

  lemma PutDistinct(s: Entries, k: Key, v: Value)
    requires DistinctKeys(s)
    ensures DistinctKeys(Put(s, k, v))
  {
  }

  /** Repeated assignment, in order: `foreach ($ps as [$k, $v]) $a[$k] = $v;`. */
  function PutAll(s: Entries, ps: Entries): Entries
  {
    if ps == [] then s
    else
      var last := ps[|ps| - 1];
      Put(PutAll(s, ps[..|ps| - 1]), last.0, last.1)
  }

  /** Index of the last entry of `ps` with key `k`, or -1. */
  function LastPosition(ps: Entries, k: Key): (r: int)
    ensures -1 <= r < |ps|
    ensures r >= 0 ==> ps[r].0 == k
    ensures forall i :: r < i < |ps| ==> ps[i].0 != k
  {
    if ps == [] then -1
    else if ps[|ps| - 1].0 == k then |ps| - 1
    else LastPosition(ps[..|ps| - 1], k)
  }

  /** After a run of assignments the last one to each key wins. */
  lemma {:induction false} PutAllGet(s: Entries, ps: Entries, k: Key)
    ensures Get(PutAll(s, ps), k) ==
      if LastPosition(ps, k) >= 0 then Some(ps[LastPosition(ps, k)].1) else Get(s, k)
  {
    if ps != [] {
      var init, last := ps[..|ps| - 1], ps[|ps| - 1];
      PutAllGet(s, init, k);
      PutGet(PutAll(s, init), last.0, last.1, k);
    }
  }

  /** A run of assignments into an empty array creates the keys in order of
      their first assignment. */
  lemma {:induction false} PutAllKeys(ps: Entries)
    ensures Keys(PutAll([], ps)) == Dedup(Keys(ps))
    ensures DistinctKeys(PutAll([], ps))
  {
    if ps != [] {
      var init, last := ps[..|ps| - 1], ps[|ps| - 1];
      PutAllKeys(init);
      var a := PutAll([], init);
      PutKeys(a, last.0, last.1);
      PutDistinct(a, last.0, last.1);
      HasKeyIff(a, last.0);
      DedupSpec(Keys(init));
      assert Keys(ps)[..|ps| - 1] == Keys(init);
    }
  }

  // ---------------------------------------------------------------------
  // `$a[] = $v`: the next free integer key.
  // ---------------------------------------------------------------------

  /** One more than the largest non-negative integer key, 0 if there is none. */
  function NextFree(s: Entries): (r: nat)
    ensures forall i :: 0 <= i < |s| && s[i].0.IntKey? ==> s[i].0.i < r
  {
    if s == [] then 0
    else
      var r := NextFree(s[..|s| - 1]);
      match s[|s| - 1].0
      case IntKey(i) => if i >= r then i + 1 else r
      case StrKey(_) => r
  }

  function Append(s: Entries, v: Value): Entries
  {
    s + [(IntKey(NextFree(s)), v)]
  }

  lemma {:induction false} NextFreeOfIndexed(vs: seq<Value>)
    ensures NextFree(Indexed(vs)) == |vs|
  {
    if vs != [] {
      NextFreeOfIndexed(vs[..|vs| - 1]);
      assert Indexed(vs)[..|vs| - 1] == Indexed(vs[..|vs| - 1]);
    }
  }

  /** Appending to a list extends the list. */
  lemma AppendIndexed(vs: seq<Value>, v: Value)
    ensures Append(Indexed(vs), v) == Indexed(vs + [v])
  {
    NextFreeOfIndexed(vs);
  }

  lemma AppendDistinct(s: Entries, v: Value)
    requires DistinctKeys(s)
    ensures DistinctKeys(Append(s, v))
  {
  }

  // ---------------------------------------------------------------------
  // Renumbering: integer keys become 0, 1, 2, ... in order, string keys stay.
  // ---------------------------------------------------------------------

  function RenumberFrom(s: Entries, n: int): Entries
  {
    if s == [] then []
    else if s[0].0.IntKey? then [(IntKey(n), s[0].1)] + RenumberFrom(s[1..], n + 1)
    else [s[0]] + RenumberFrom(s[1..], n)
  }

  function Renumber(s: Entries): Entries
  {
    RenumberFrom(s, 0)
  }

  /** Number of integer keys among the entries. */
  function IntCount(s: Entries): nat
  {
    if s == [] then 0 else (if s[0].0.IntKey? then 1 else 0) + IntCount(s[1..])
  }

  lemma {:induction false} IntCountPrefix(s: Entries, i: nat, j: nat)
    requires i <= j <= |s|
    ensures IntCount(s[..i]) <= IntCount(s[..j])
    ensures i < j && s[i].0.IntKey? ==> IntCount(s[..i]) < IntCount(s[..j])
  {
    if i > 0 {
      IntCountPrefix(s[1..], i - 1, j - 1);
      assert s[..i][1..] == s[1..][..i - 1];
      assert s[..j][1..] == s[1..][..j - 1];
    } else if j > 0 {
      IntCountPrefix(s[1..], 0, j - 1);
      assert s[..j][1..] == s[1..][..j - 1];
    }
  }

  /** What renumbering does to each entry. */
  lemma {:induction false} RenumberAt(s: Entries, n: int, i: nat)
    requires i < |s|
    ensures |RenumberFrom(s, n)| == |s|
    ensures RenumberFrom(s, n)[i] ==
      if s[i].0.IntKey? then (IntKey(n + IntCount(s[..i])), s[i].1) else s[i]
  {
    if i == 0 {
      RenumberLength(s, n);
    } else {
      RenumberAt(s[1..], if s[0].0.IntKey? then n + 1 else n, i - 1);
      assert s[..i][1..] == s[1..][..i - 1];
    }
  }

  lemma {:induction false} RenumberLength(s: Entries, n: int)
    ensures |RenumberFrom(s, n)| == |s|
  {
    if s != [] {
      RenumberLength(s[1..], if s[0].0.IntKey? then n + 1 else n);
    }
  }

  /** Renumbering keeps every value in place and keeps keys distinct. */
  lemma RenumberSpec(s: Entries, n: int)
    ensures |RenumberFrom(s, n)| == |s|
    ensures Vals(RenumberFrom(s, n)) == Vals(s)
    ensures DistinctKeys(s) ==> DistinctKeys(RenumberFrom(s, n))
  {
    RenumberLength(s, n);
    var r := RenumberFrom(s, n);
    forall i | 0 <= i < |s| ensures r[i].1 == s[i].1 {
      RenumberAt(s, n, i);
    }
    if DistinctKeys(s) {
      forall i, j | 0 <= i < j < |s| ensures r[i].0 != r[j].0 {
        RenumberAt(s, n, i);
        RenumberAt(s, n, j);
        IntCountPrefix(s, i, j);
      }
    }
  }

  /** Renumbering a renumbered array changes only the starting number. */
  lemma {:induction false} RenumberTwice(s: Entries, m: int, n: int)
    ensures RenumberFrom(RenumberFrom(s, m), n) == RenumberFrom(s, n)
  {
    if s != [] {
      if s[0].0.IntKey? {
        RenumberTwice(s[1..], m + 1, n + 1);
        assert RenumberFrom(s, m)[1..] == RenumberFrom(s[1..], m + 1);
      } else {
        RenumberTwice(s[1..], m, n);
        assert RenumberFrom(s, m)[1..] == RenumberFrom(s[1..], m);
      }
    }
  }

  /** A list is already renumbered; an array with integer keys only becomes
      the list of its values. */
  lemma {:induction false} RenumberIntKeyed(s: Entries, n: int)
    requires forall i :: 0 <= i < |s| ==> s[i].0.IntKey?
    ensures |RenumberFrom(s, n)| == |s|
    ensures forall i :: 0 <= i < |s| ==> RenumberFrom(s, n)[i] == (IntKey(n + i), s[i].1)
  {
    if s != [] {
      RenumberIntKeyed(s[1..], n + 1);
      var r := RenumberFrom(s, n);
      forall i | 1 <= i < |s| ensures r[i] == (IntKey(n + i), s[i].1) {
        assert r[i] == RenumberFrom(s[1..], n + 1)[i - 1];
      }
    }
  }

  lemma RenumberOfIntKeyed(s: Entries)
    requires forall i :: 0 <= i < |s| ==> s[i].0.IntKey?
    ensures Renumber(s) == Indexed(Vals(s))
  {
    RenumberIntKeyed(s, 0);
  }

  // ---------------------------------------------------------------------
  // Offsets of array_slice($a, $offset, $length) and array_splice($a, $offset).
  // ---------------------------------------------------------------------

  /** First index taken: a negative offset counts from the end, clamped at 0;
      an offset past the end takes nothing. */
  function SliceStart(n: nat, offset: int): (r: nat)
    ensures r <= n
  {
    if offset > n then n
    else if offset >= 0 then offset
    else if n + offset >= 0 then n + offset
    else 0
  }

  /** One past the last index taken: no length means to the end, a negative
      length stops that many before the end. */
  function SliceEnd(n: nat, start: nat, length: Option<int>): (r: nat)
    requires start <= n
    ensures start <= r <= n
  {
    match length
    case None => n
    case Some(l) =>
      if l < 0 then (if n + l > start then n + l else start)
      else if start + l < n then start + l
      else n
  }

  /** Cutting at m splits the values at m. */
  lemma ValsSplit(s: Entries, m: nat)
    requires m <= |s|
    ensures Vals(s[..m]) == Vals(s)[..m] && Vals(s[m..]) == Vals(s)[m..]
    ensures Vals(s[..m]) + Vals(s[m..]) == Vals(s)
  {
    ValsSlice(s, 0, m);
    ValsSlice(s, m, |s|);
    assert s[0..m] == s[..m] && s[m..|s|] == s[m..];
    assert Vals(s) == Vals(s)[..m] + Vals(s)[m..];
  }

  /** Both parts of an array with distinct keys have distinct keys. */
  lemma DistinctKeysSplit(s: Entries, m: nat)
    requires m <= |s| && DistinctKeys(s)
    ensures DistinctKeys(s[..m]) && DistinctKeys(s[m..])
  {
    assert forall i :: 0 <= i < |s[m..]| ==> s[m..][i] == s[m + i];
  }
}
