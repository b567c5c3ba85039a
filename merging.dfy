/** The container methods that assemble a new array from key/value material:
    `concat` (`array_merge`), `flatMap` (a fold of `concat`), `combine`
    (`array_combine`) and `dict` (an `inject` that assigns `$m[$v[0]] = $v[1]`). */
module Merging {
  import opened PhpValues
  import opened Seqs
  import opened PhpArrays

  // ---------------------------------------------------------------------
  // concat: array_merge($a, $b)
  // ---------------------------------------------------------------------

  /** One entry of `array_merge`: an integer key is dropped and the value
      appended under the next index, a string key is assigned (a later
      string key overwrites an earlier one in place). */
  function MergeStep(acc: Entries, e: Entry): Entries
  {
    if e.0.IntKey? then Append(acc, e.1) else Put(acc, e.0, e.1)
  }

  function MergeInto(acc: Entries, ps: Entries): Entries
    decreases |ps|
  {
    if ps == [] then acc else MergeInto(MergeStep(acc, ps[0]), ps[1..])
  }

  /** `concat($array)`: `array_merge($container, $array)`. */
  function Concat(s: Entries, t: Entries): Entries
  {
    MergeInto([], s + t)
  }

  /** No string key occurs twice. */
  predicate StrKeysDistinct(ps: Entries)
  {
    forall i, j :: 0 <= i < j < |ps| && ps[i].0.StrKey? ==> ps[i].0 != ps[j].0
  }

  /** No string key of ps is already a key of acc. */
  predicate StrKeysFresh(acc: Entries, ps: Entries)
  {
    forall i :: 0 <= i < |ps| && ps[i].0.StrKey? ==> ps[i].0 !in Keys(acc)
  }

  lemma {:induction false} MergeAppend(acc: Entries, a: Entries, b: Entries)
    ensures MergeInto(acc, a + b) == MergeInto(MergeInto(acc, a), b)
    decreases |a|
  {
    if a != [] {
      assert (a + b)[1..] == a[1..] + b;
      MergeAppend(MergeStep(acc, a[0]), a[1..], b);
    } else {
      assert a + b == b;
    }
  }

  lemma {:induction false} MergeDistinct(acc: Entries, ps: Entries)
    requires DistinctKeys(acc)
    ensures DistinctKeys(MergeInto(acc, ps))
    decreases |ps|
  {
    if ps != [] {
      if ps[0].0.IntKey? {
        AppendDistinct(acc, ps[0].1);
      } else {
        PutDistinct(acc, ps[0].0, ps[0].1);
      }
      MergeDistinct(MergeStep(acc, ps[0]), ps[1..]);
    }
  }

  /** One merge step onto an accumulator whose next index is n, when a
      string key is new: the entry is appended, renumbered if it has an
      integer key. */
  lemma MergeStepFresh(acc: Entries, e: Entry, n: nat)
    requires NextFree(acc) == n
    requires e.0.StrKey? ==> e.0 !in Keys(acc)
    ensures MergeStep(acc, e) == acc + [if e.0.IntKey? then (IntKey(n), e.1) else e]
    ensures NextFree(MergeStep(acc, e)) == if e.0.IntKey? then n + 1 else n
  {
    var acc' := MergeStep(acc, e);
    if e.0.StrKey? {
      HasKeyIff(acc, e.0);
    }
    assert acc'[..|acc'| - 1] == acc;
  }

  lemma StrKeysDistinctTail(ps: Entries)
    requires ps != [] && StrKeysDistinct(ps)
    ensures StrKeysDistinct(ps[1..])
  {
    var rest := ps[1..];
    forall i, j | 0 <= i < j < |rest| && rest[i].0.StrKey? ensures rest[i].0 != rest[j].0 {
      assert rest[i] == ps[i + 1] && rest[j] == ps[j + 1];
    }
  }

  /** After one merge step, the string keys still to come are not in the
      accumulator. */
  lemma FreshAfterStep(acc: Entries, ps: Entries, n: nat)
    requires ps != [] && NextFree(acc) == n
    requires StrKeysDistinct(ps)
    requires StrKeysFresh(acc, ps)
    ensures StrKeysFresh(MergeStep(acc, ps[0]), ps[1..])
  {
    var e := ps[0];
    MergeStepFresh(acc, e, n);
    var x := if e.0.IntKey? then (IntKey(n), e.1) else e;
    assert Keys(MergeStep(acc, e)) == Keys(acc) + [x.0];
    var rest := ps[1..];
    forall i | 0 <= i < |rest| && rest[i].0.StrKey? ensures rest[i].0 !in Keys(MergeStep(acc, e)) {
      assert rest[i] == ps[i + 1];
      assert rest[i].0 != (if e.0.IntKey? then IntKey(n) else e.0);
    }
  }

  /** Without clashing string keys, merging onto an accumulator whose next
      index is n appends the entries with their integer keys renumbered from n. */
  lemma {:induction false} MergeRenumbers(acc: Entries, ps: Entries, n: nat)
    requires NextFree(acc) == n
    requires StrKeysDistinct(ps) && StrKeysFresh(acc, ps)
    ensures MergeInto(acc, ps) == acc + RenumberFrom(ps, n)
    decreases |ps|
  {
    if ps != [] {
      var e := ps[0];
      FreshAfterStep(acc, ps, n);
      StrKeysDistinctTail(ps);
      MergeStepFresh(acc, e, n);
      var n' := if e.0.IntKey? then n + 1 else n;
      MergeRenumbers(MergeStep(acc, e), ps[1..], n');
      var x := if e.0.IntKey? then (IntKey(n), e.1) else e;
      assert RenumberFrom(ps, n) == [x] + RenumberFrom(ps[1..], n');
      AppendAssoc(acc, [x], RenumberFrom(ps[1..], n'));
    }
  }

  /** Without a string key in common, `concat` is the renumbered
      concatenation: values in order, integer keys 0, 1, 2, ..., string keys
      kept. */
  lemma ConcatRenumbers(s: Entries, t: Entries)
    requires StrKeysDistinct(s + t)
    ensures Concat(s, t) == Renumber(s + t)
  {
    MergeRenumbers([], s + t, 0);
  }

  /** Concatenating two lists gives the list of both lists' values. */
  lemma ConcatLists(s: Entries, t: Entries)
    requires Dense(s) && Dense(t)
    ensures Concat(s, t) == Indexed(Vals(s) + Vals(t))
  {
    ConcatRenumbers(s, t);
    RenumberOfIntKeyed(s + t);
    ValsAppend(s, t);
  }

  lemma ConcatDistinct(s: Entries, t: Entries)
    ensures DistinctKeys(Concat(s, t))
  {
    MergeDistinct([], s + t);
  }

  lemma {:induction false} LastPositionCons(e: Entry, ps: Entries, k: Key)
    ensures LastPosition([e] + ps, k) ==
      if LastPosition(ps, k) >= 0 then LastPosition(ps, k) + 1
      else if e.0 == k then 0 else -1
    decreases |ps|
  {
    if ps != [] {
      var qs := [e] + ps;
      assert qs[..|qs| - 1] == [e] + ps[..|ps| - 1];
      LastPositionCons(e, ps[..|ps| - 1], k);
    }
  }

  /** Appending under an integer key leaves every string key's value alone. */
  lemma AppendGetStr(acc: Entries, v: Value, k: string)
    ensures Get(Append(acc, v), StrKey(k)) == Get(acc, StrKey(k))
  {
    PositionExtend(acc, (IntKey(NextFree(acc)), v), StrKey(k));
  }

  /** Under a string key, the last entry of the merged material wins. */
  lemma {:induction false} MergeGetStr(acc: Entries, ps: Entries, k: string)
    ensures Get(MergeInto(acc, ps), StrKey(k)) ==
      if LastPosition(ps, StrKey(k)) >= 0 then Some(ps[LastPosition(ps, StrKey(k))].1)
      else Get(acc, StrKey(k))
    decreases |ps|
  {
    if ps != [] {
      var e := ps[0];
      var acc' := MergeStep(acc, e);
      MergeGetStr(acc', ps[1..], k);
      LastPositionCons(e, ps[1..], StrKey(k));
      assert [e] + ps[1..] == ps;
      if e.0.IntKey? {
        AppendGetStr(acc, e.1, k);
      } else {
        PutGet(acc, e.0, e.1, StrKey(k));
      }
    }
  }

  /** `concat`: a string key of the second array overwrites the same key of
      the first; otherwise the first array's value stays. */
  lemma ConcatGetStr(s: Entries, t: Entries, k: string)
    ensures Get(Concat(s, t), StrKey(k)) ==
      if LastPosition(t, StrKey(k)) >= 0 then Some(t[LastPosition(t, StrKey(k))].1)
      else if LastPosition(s, StrKey(k)) >= 0 then Some(s[LastPosition(s, StrKey(k))].1)
      else None
  {
    MergeAppend([], s, t);
    MergeGetStr(MergeInto([], s), t, k);
    MergeGetStr([], s, k);
  }

  // ---------------------------------------------------------------------
  // flatMap: array_reduce($a, fn($r, $n) => $r->concat($callback($n)), create())
  // ---------------------------------------------------------------------

  function FlatMapFrom(acc: Entries, vs: seq<Value>, cb: Value -> Entries): Entries
    decreases |vs|
  {
    if vs == [] then acc else FlatMapFrom(Concat(acc, cb(vs[0])), vs[1..], cb)
  }

  /** `flatMap($callback)`: the callback returns an array for each value and
      the arrays are concatenated in turn, starting from an empty container. */
  function FlatMap(s: Entries, cb: Value -> Entries): Entries
  {
    FlatMapFrom([], Vals(s), cb)
  }

  /** The callback results' values, one after another. */
  function Results(vs: seq<Value>, cb: Value -> Entries): seq<seq<Value>>
  {
    seq(|vs|, i requires 0 <= i < |vs| => Vals(cb(vs[i])))
  }

  lemma {:induction false} FlatMapFromLists(xs: seq<Value>, vs: seq<Value>, cb: Value -> Entries)
    requires forall i :: 0 <= i < |vs| ==> Dense(cb(vs[i]))
    ensures FlatMapFrom(Indexed(xs), vs, cb) == Indexed(xs + Flat(Results(vs, cb)))
    decreases |vs|
  {
    if vs != [] {
      IndexedIsList(xs);
      ConcatLists(Indexed(xs), cb(vs[0]));
      FlatMapFromLists(xs + Vals(cb(vs[0])), vs[1..], cb);
      assert Results(vs, cb) == [Vals(cb(vs[0]))] + Results(vs[1..], cb);
      assert xs + Vals(cb(vs[0])) + Flat(Results(vs[1..], cb)) == xs + Flat(Results(vs, cb));
    } else {
      assert xs + [] == xs;
    }
  }

  /** When the callback returns lists, `flatMap` is the list of all their
      values, in order. */
  lemma FlatMapLists(s: Entries, cb: Value -> Entries)
    requires forall i :: 0 <= i < |s| ==> Dense(cb(s[i].1))
    ensures FlatMap(s, cb) == Indexed(Flat(Results(Vals(s), cb)))
  {
    assert Indexed([]) == [];
    FlatMapFromLists([], Vals(s), cb);
  }

  lemma {:induction false} FlatMapFromDistinct(acc: Entries, vs: seq<Value>, cb: Value -> Entries)
    requires DistinctKeys(acc)
    ensures DistinctKeys(FlatMapFrom(acc, vs, cb))
    decreases |vs|
  {
    if vs != [] {
      ConcatDistinct(acc, cb(vs[0]));
      FlatMapFromDistinct(Concat(acc, cb(vs[0])), vs[1..], cb);
    }
  }

  // ---------------------------------------------------------------------
  // combine: array_combine($container, $array)
  // ---------------------------------------------------------------------

  /** The (key, value) pairs `array_combine` assigns in turn. */
  function CombinePairs(s: Entries, t: Entries): (r: Entries)
    requires |s| == |t|
    ensures |r| == |s|
    ensures forall i :: 0 <= i < |s| ==> r[i] == (CombineKey(s[i].1), t[i].1)
  {
    seq(|s|, i requires 0 <= i < |s| => (CombineKey(s[i].1), t[i].1))
  }

  /** `combine($array)`: the container's values become keys of the argument's
      values, position by position; the two must have the same count. */
  function Combine(s: Entries, t: Entries): Entries
    requires |s| == |t|
  {
    PutAll([], CombinePairs(s, t))
  }

  /** Assigning pairs with distinct keys into an empty array gives the pairs. */
  lemma {:induction false} PutAllFresh(ps: Entries)
    requires DistinctKeys(ps)
    ensures PutAll([], ps) == ps
  {
    if ps != [] {
      var n := |ps| - 1;
      assert DistinctKeys(ps[..n]);
      PutAllFresh(ps[..n]);
      assert Position(ps[..n], ps[n].0) == n;
      assert ps == ps[..n] + [ps[n]];
    }
  }

  /** Each key maps to the value paired with its last occurrence; keys
      appear in order of first occurrence; with no repeated key nothing is
      lost. */
  lemma CombineSpec(s: Entries, t: Entries, k: Key)
    requires |s| == |t|
    ensures DistinctKeys(Combine(s, t))
    ensures Keys(Combine(s, t)) == Dedup(Keys(CombinePairs(s, t)))
    ensures Get(Combine(s, t), k) ==
      var p := LastPosition(CombinePairs(s, t), k);
      if p >= 0 then Some(t[p].1) else None
    ensures DistinctKeys(CombinePairs(s, t)) ==> Combine(s, t) == CombinePairs(s, t)
  {
    var ps := CombinePairs(s, t);
    PutAllKeys(ps);
    PutAllGet([], ps, k);
    if DistinctKeys(ps) {
      PutAllFresh(ps);
    }
  }

  // ---------------------------------------------------------------------
  // dict: inject([], fn($m, $v) => { $m[$v[0]] = $v[1]; return $m; })
  // ---------------------------------------------------------------------

  /** A value `dict` can use: an array of at least two values whose first
      value is a legal array key. */
  predicate Pair(v: Value)
  {
    v.Arr? && |v.items| >= 2 && OffsetKey(v.items[0]).Some?
  }

  function DictPairs(vs: seq<Value>): (r: Entries)
    requires forall i :: 0 <= i < |vs| ==> Pair(vs[i])
    ensures |r| == |vs|
  {
    seq(|vs|, i requires 0 <= i < |vs| && Pair(vs[i]) => (OffsetKey(vs[i].items[0]).value, vs[i].items[1]))
  }

  /** `dict()`: every pair `[k, v]` assigns `$m[k] = v`, in order. */
  function Dict(s: Entries): Entries
    requires forall i :: 0 <= i < |s| ==> Pair(s[i].1)
  {
    PutAll([], DictPairs(Vals(s)))
  }

  /** A later pair overwrites an earlier one with the same key; keys appear
      in order of first occurrence. */
  lemma DictSpec(s: Entries, k: Key)
    requires forall i :: 0 <= i < |s| ==> Pair(s[i].1)
    ensures DistinctKeys(Dict(s))
    ensures Keys(Dict(s)) == Dedup(Keys(DictPairs(Vals(s))))
    ensures Get(Dict(s), k) ==
      var p := LastPosition(DictPairs(Vals(s)), k);
      if p >= 0 then Some(s[p].1.items[1]) else None
  {
    var ps := DictPairs(Vals(s));
    PutAllKeys(ps);
    PutAllGet([], ps, k);
  }
}
