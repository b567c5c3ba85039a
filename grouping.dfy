/** What `groupBy` and `partition` compute: each value is appended,
    `$result[$key][] = $element`, to the group of its key, and a group is
    created the first time its key is seen. The loops themselves are methods
    of the container class; this module is their specification. */
module Grouping {
  import opened PhpValues
  import opened Seqs
  import opened PhpArrays

  /** The values of a group, or none when the key has no group yet. */
  function Members(g: Option<Value>): seq<Value>
  {
    match g
    case Some(Arr(xs)) => xs
    case _ => []
  }

  /** `$result[$k][] = $v` on a result whose groups are lists. */
  function AddTo(acc: Entries, k: Key, v: Value): Entries
  {
    Put(acc, k, Arr(Members(Get(acc, k)) + [v]))
  }

  /** The groups after the values `vs` have been filed under the keys `ks`,
      position by position. */
  function Bucket(vs: seq<Value>, ks: seq<Key>): Entries
    requires |vs| == |ks|
  {
    if vs == [] then []
    else
      var n := |vs| - 1;
      AddTo(Bucket(vs[..n], ks[..n]), ks[n], vs[n])
  }

  /** The values filed under key k, in order. */
  function Group(vs: seq<Value>, ks: seq<Key>, k: Key): seq<Value>
    requires |vs| == |ks|
  {
    if vs == [] then []
    else
      var n := |vs| - 1;
      Group(vs[..n], ks[..n], k) + (if ks[n] == k then [vs[n]] else [])
  }

  lemma {:induction false} GroupAbsent(vs: seq<Value>, ks: seq<Key>, k: Key)
    requires |vs| == |ks| && k !in ks
    ensures Group(vs, ks, k) == []
  {
    if vs != [] {
      var n := |vs| - 1;
      assert k !in ks[..n];
      GroupAbsent(vs[..n], ks[..n], k);
    }
  }

  /** Every key seen has a group holding exactly the values filed under it,
      in order; no other group exists. */
  lemma {:induction false} BucketGet(vs: seq<Value>, ks: seq<Key>, k: Key)
    requires |vs| == |ks|
    ensures Get(Bucket(vs, ks), k) == if k in ks then Some(Arr(Group(vs, ks, k))) else None
  {
    if vs != [] {
      var n := |vs| - 1;
      var acc := Bucket(vs[..n], ks[..n]);
      var g := Arr(Members(Get(acc, ks[n])) + [vs[n]]);
      assert ks == ks[..n] + [ks[n]];
      assert k in ks <==> k in ks[..n] || k == ks[n];
      BucketGet(vs[..n], ks[..n], k);
      PutGet(acc, ks[n], g, k);
      if k == ks[n] {
        if k !in ks[..n] {
          GroupAbsent(vs[..n], ks[..n], k);
        }
        assert Group(vs, ks, k) == Group(vs[..n], ks[..n], k) + [vs[n]];
      } else {
        assert Group(vs, ks, k) == Group(vs[..n], ks[..n], k);
      }
    }
  }

  /** Groups appear in order of first key, each once. */
  lemma {:induction false} BucketKeys(vs: seq<Value>, ks: seq<Key>)
    requires |vs| == |ks|
    ensures Keys(Bucket(vs, ks)) == Dedup(ks)
    ensures DistinctKeys(Bucket(vs, ks))
  {
    if vs != [] {
      var n := |vs| - 1;
      var acc := Bucket(vs[..n], ks[..n]);
      BucketKeys(vs[..n], ks[..n]);
      var g := Arr(Members(Get(acc, ks[n])) + [vs[n]]);
      PutKeys(acc, ks[n], g);
      PutDistinct(acc, ks[n], g);
      HasKeyIff(acc, ks[n]);
      DedupSpec(ks[..n]);
      assert ks[..|ks| - 1] == ks[..n];
    }
  }

  lemma {:induction false} GroupIn(vs: seq<Value>, ks: seq<Key>, k: Key, x: Value)
    requires |vs| == |ks|
    ensures x in Group(vs, ks, k) <==> exists i :: 0 <= i < |vs| && vs[i] == x && ks[i] == k
  {
    if vs != [] {
      var n := |vs| - 1;
      GroupIn(vs[..n], ks[..n], k, x);
      if exists i :: 0 <= i < |vs| && vs[i] == x && ks[i] == k {
        var i :| 0 <= i < |vs| && vs[i] == x && ks[i] == k;
        if i < n {
          assert vs[..n][i] == x && ks[..n][i] == k;
        }
      }
    }
  }

  /** When every value is filed under one of two keys, the two groups
      together hold every value exactly once. */
  lemma {:induction false} GroupSplit(vs: seq<Value>, ks: seq<Key>, k1: Key, k2: Key)
    requires |vs| == |ks| && k1 != k2
    requires forall i :: 0 <= i < |ks| ==> ks[i] == k1 || ks[i] == k2
    ensures multiset(Group(vs, ks, k1)) + multiset(Group(vs, ks, k2)) == multiset(vs)
  {
    if vs != [] {
      var n := |vs| - 1;
      GroupSplit(vs[..n], ks[..n], k1, k2);
      assert vs == vs[..n] + [vs[n]];
      MultisetSplitSnoc(Group(vs[..n], ks[..n], k1), Group(vs[..n], ks[..n], k2), vs[..n], vs[n]);
    }
  }

  // ---------------------------------------------------------------------
  // groupBy($callback): the key is the callback's result
  // ---------------------------------------------------------------------

  /** The callback's results can all be used as array keys. */
  predicate Groupable(vs: seq<Value>, cb: Value -> Value)
  {
    forall i :: 0 <= i < |vs| ==> OffsetKey(cb(vs[i])).Some?
  }

  function GroupKeys(vs: seq<Value>, cb: Value -> Value): (r: seq<Key>)
    requires Groupable(vs, cb)
    ensures |r| == |vs|
    ensures forall i :: 0 <= i < |vs| ==> Some(r[i]) == OffsetKey(cb(vs[i]))
  {
    seq(|vs|, i requires 0 <= i < |vs| && OffsetKey(cb(vs[i])).Some? => OffsetKey(cb(vs[i])).value)
  }

  /** `groupBy($callback)`. */
  function GroupBy(vs: seq<Value>, cb: Value -> Value): Entries
    requires Groupable(vs, cb)
  {
    Bucket(vs, GroupKeys(vs, cb))
  }

  /** A value is in the group of key k exactly when its callback result is
      that key; groups are created in order of first key. */
  lemma GroupBySpec(vs: seq<Value>, cb: Value -> Value, k: Key, x: Value)
    requires Groupable(vs, cb)
    ensures DistinctKeys(GroupBy(vs, cb))
    ensures Keys(GroupBy(vs, cb)) == Dedup(GroupKeys(vs, cb))
    ensures HasKey(GroupBy(vs, cb), k) <==> exists i :: 0 <= i < |vs| && OffsetKey(cb(vs[i])) == Some(k)
    ensures HasKey(GroupBy(vs, cb), k) ==>
      Get(GroupBy(vs, cb), k).value.Arr? &&
      (x in Get(GroupBy(vs, cb), k).value.items <==> x in vs && OffsetKey(cb(x)) == Some(k))
  {
    var ks := GroupKeys(vs, cb);
    BucketGet(vs, ks, k);
    BucketKeys(vs, ks);
    GroupIn(vs, ks, k, x);
    HasKeyIff(GroupBy(vs, cb), k);
    DedupSpec(ks);
    if exists i :: 0 <= i < |vs| && OffsetKey(cb(vs[i])) == Some(k) {
      var i :| 0 <= i < |vs| && OffsetKey(cb(vs[i])) == Some(k);
      assert ks[i] == k;
    }
    if k in ks {
      var i :| 0 <= i < |ks| && ks[i] == k;
      assert OffsetKey(cb(vs[i])) == Some(k);
    }
  }

  // ---------------------------------------------------------------------
  // partition($callback): the key is !((bool) $callback($element)), so a
  // truthy result files under 0 and a falsy one under 1
  // ---------------------------------------------------------------------

  function PartitionKeys(vs: seq<Value>, cb: Value -> Value): (r: seq<Key>)
    ensures |r| == |vs|
    ensures forall i :: 0 <= i < |vs| ==> r[i] == IntKey(if Truthy(cb(vs[i])) then 0 else 1)
  {
    seq(|vs|, i requires 0 <= i < |vs| => IntKey(if Truthy(cb(vs[i])) then 0 else 1))
  }

  /** `partition($callback)`. */
  function Partition(vs: seq<Value>, cb: Value -> Value): Entries
  {
    Bucket(vs, PartitionKeys(vs, cb))
  }

  /** Group 0 holds the values with a truthy result and group 1 the others,
      each in order; together they hold every value once. */
  lemma PartitionGroups(vs: seq<Value>, cb: Value -> Value, x: Value)
    ensures x in Group(vs, PartitionKeys(vs, cb), IntKey(0)) <==> x in vs && Truthy(cb(x))
    ensures x in Group(vs, PartitionKeys(vs, cb), IntKey(1)) <==> x in vs && !Truthy(cb(x))
    ensures multiset(Group(vs, PartitionKeys(vs, cb), IntKey(0))) +
      multiset(Group(vs, PartitionKeys(vs, cb), IntKey(1))) == multiset(vs)
  {
    var ks := PartitionKeys(vs, cb);
    GroupIn(vs, ks, IntKey(0), x);
    GroupIn(vs, ks, IntKey(1), x);
    GroupSplit(vs, ks, IntKey(0), IntKey(1));
  }

  /** The result has at most the two groups 0 and 1, each one exactly when
      it is non-empty, and each holding its group's values. */
  lemma PartitionSpec(vs: seq<Value>, cb: Value -> Value, k: Key)
    ensures DistinctKeys(Partition(vs, cb))
    ensures HasKey(Partition(vs, cb), k) ==> k == IntKey(0) || k == IntKey(1)
    ensures HasKey(Partition(vs, cb), IntKey(0)) <==> exists i :: 0 <= i < |vs| && Truthy(cb(vs[i]))
    ensures HasKey(Partition(vs, cb), IntKey(1)) <==> exists i :: 0 <= i < |vs| && !Truthy(cb(vs[i]))
    ensures HasKey(Partition(vs, cb), k) ==>
      Get(Partition(vs, cb), k) == Some(Arr(Group(vs, PartitionKeys(vs, cb), k)))
  {
    var ks := PartitionKeys(vs, cb);
    var p := Partition(vs, cb);
    BucketGet(vs, ks, k);
    BucketKeys(vs, ks);
    HasKeyIff(p, k);
    HasKeyIff(p, IntKey(0));
    HasKeyIff(p, IntKey(1));
    DedupSpec(ks);
    if k in ks {
      var i :| 0 <= i < |ks| && ks[i] == k;
    }
    if IntKey(0) in ks {
      var i :| 0 <= i < |ks| && ks[i] == IntKey(0);
    }
    if IntKey(1) in ks {
      var i :| 0 <= i < |ks| && ks[i] == IntKey(1);
    }
    if exists i :: 0 <= i < |vs| && Truthy(cb(vs[i])) {
      var i :| 0 <= i < |vs| && Truthy(cb(vs[i]));
      assert ks[i] == IntKey(0);
    }
    if exists i :: 0 <= i < |vs| && !Truthy(cb(vs[i])) {
      var i :| 0 <= i < |vs| && !Truthy(cb(vs[i]));
      assert ks[i] == IntKey(1);
    }
  }
}
