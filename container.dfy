/** The `_` class: a wrapper around one PHP array, `$container`. The methods
    that change `$container` in place (the stack operations, `ArrayAccess`,
    `snip` and `rotate`) and the methods written as loops (`all`, `any`,
    `find`, `max`, `min`, `groupBy`, `partition`) are members of the class;
    the methods that only compute a new array from `$container` are the
    functions of the other modules, applied to `entries`. */
module Underscore {
  import opened PhpValues
  import opened Seqs
  import opened PhpArrays
  import opened ListOps
  import opened Slicing
  import opened Merging
  import Grouping

  /** What `new _($container)` is given. */
  datatype Source = FromArray(items: Entries) | FromInstance(other: Container) | FromOther

  datatype Created = Made(c: Container) | InvalidArgument(message: string)

  const InvalidMessage: string := "Expected an array or _ instance"

  // ---------------------------------------------------------------------
  // Specifications of the loops in max and min
  // ---------------------------------------------------------------------

  /** The position `max` settles on: the first value with the largest
      callback result (a later value replaces it only when strictly larger). */
  function ArgMax(vs: seq<Value>, cb: Value -> int): (k: nat)
    requires |vs| > 0
    ensures k < |vs|
    ensures forall j :: 0 <= j < |vs| ==> cb(vs[j]) <= cb(vs[k])
    ensures forall j :: 0 <= j < k ==> cb(vs[j]) < cb(vs[k])
  {
    if |vs| == 1 then 0
    else
      var n := |vs| - 1;
      var k := ArgMax(vs[..n], cb);
      assert forall j :: 0 <= j < n ==> vs[..n][j] == vs[j];
      if cb(vs[n]) > cb(vs[k]) then n else k
  }

  /** The position `min` settles on: the first value with the smallest
      callback result. */
  function ArgMin(vs: seq<Value>, cb: Value -> int): (k: nat)
    requires |vs| > 0
    ensures k < |vs|
    ensures forall j :: 0 <= j < |vs| ==> cb(vs[k]) <= cb(vs[j])
    ensures forall j :: 0 <= j < k ==> cb(vs[k]) < cb(vs[j])
  {
    if |vs| == 1 then 0
    else
      var n := |vs| - 1;
      var k := ArgMin(vs[..n], cb);
      assert forall j :: 0 <= j < n ==> vs[..n][j] == vs[j];
      if cb(vs[n]) < cb(vs[k]) then n else k
  }

  /** Extending the values by one moves the position of the largest result
      only to a strictly larger one. */
  lemma ArgMaxStep(vs: seq<Value>, cb: Value -> int, i: nat)
    requires 1 <= i < |vs|
    ensures ArgMax(vs[..i + 1], cb) ==
      if cb(vs[i]) > cb(vs[ArgMax(vs[..i], cb)]) then i else ArgMax(vs[..i], cb)
  {
    assert vs[..i + 1][..i] == vs[..i] && vs[..i + 1][i] == vs[i];
  }

  lemma ArgMinStep(vs: seq<Value>, cb: Value -> int, i: nat)
    requires 1 <= i < |vs|
    ensures ArgMin(vs[..i + 1], cb) ==
      if cb(vs[i]) < cb(vs[ArgMin(vs[..i], cb)]) then i else ArgMin(vs[..i], cb)
  {
    assert vs[..i + 1][..i] == vs[..i] && vs[..i + 1][i] == vs[i];
  }

  /** The first position of a largest result is the only one there is. */
  lemma ArgMaxUnique(vs: seq<Value>, cb: Value -> int, k: nat)
    requires k < |vs|
    requires forall j :: 0 <= j < |vs| ==> cb(vs[j]) <= cb(vs[k])
    requires forall j :: 0 <= j < k ==> cb(vs[j]) < cb(vs[k])
    ensures ArgMax(vs, cb) == k
  {
    var a := ArgMax(vs, cb);
    assert cb(vs[a]) <= cb(vs[k]) && cb(vs[k]) <= cb(vs[a]);
  }

  /** `min` with a callback is `max` with the callback's results negated. */
  lemma MinIsMaxNegated(vs: seq<Value>, cb: Value -> int)
    requires |vs| > 0
    ensures ArgMin(vs, cb) == ArgMax(vs, x => -cb(x))
  {
    var k := ArgMin(vs, cb);
    ArgMaxUnique(vs, x => -cb(x), k);
  }

  // ---------------------------------------------------------------------
  // isset, unset and the snip/rotate arithmetic on plain arrays
  // ---------------------------------------------------------------------

  /** `isset($a[$k])`: the key is present and its value is not null. */
  predicate Isset(s: Entries, k: Key)
  {
    Get(s, k).Some? && Get(s, k).value != Null
  }

  lemma IssetIff(s: Entries, k: Key)
    requires DistinctKeys(s)
    ensures Isset(s, k) <==> exists i :: 0 <= i < |s| && s[i].0 == k && s[i].1 != Null
  {
    if exists i :: 0 <= i < |s| && s[i].0 == k && s[i].1 != Null {
      var i :| 0 <= i < |s| && s[i].0 == k && s[i].1 != Null;
      assert Position(s, k) == i;
    }
  }

  /** `unset($a[$k])`. */
  function Remove(s: Entries, k: Key): Entries
  {
    var p := Position(s, k);
    if p < |s| then s[..p] + s[p + 1..] else s
  }

  lemma PositionIs(s: Entries, k: Key, q: nat)
    requires q <= |s| && (q < |s| ==> s[q].0 == k)
    requires forall i :: 0 <= i < q ==> s[i].0 != k
    ensures Position(s, k) == q
  {
  }

  /** The entries left by dropping position p. */
  lemma DropShape(s: Entries, p: nat, r: Entries)
    requires p < |s| && r == s[..p] + s[p + 1..]
    ensures |r| == |s| - 1
    ensures forall i :: 0 <= i < p ==> r[i] == s[i]
    ensures forall i :: p <= i < |r| ==> r[i] == s[i + 1]
  {
  }

  /** Dropping position p, whose key is not k', leaves k' where it was. */
  lemma GetAfterDrop(s: Entries, r: Entries, p: nat, k': Key)
    requires p < |s| && |r| == |s| - 1 && s[p].0 != k'
    requires forall i :: 0 <= i < p ==> r[i] == s[i]
    requires forall i :: p <= i < |r| ==> r[i] == s[i + 1]
    ensures Get(r, k') == Get(s, k')
  {
    var q := Position(s, k');
    if q < |s| {
      var q' := if q < p then q else q - 1;
      assert r[q'] == s[q];
      forall i | 0 <= i < q' ensures r[i].0 != k' {
        if p <= i {
          assert r[i] == s[i + 1];
        }
      }
      PositionIs(r, k', q');
    } else {
      forall i | 0 <= i < |r| ensures r[i].0 != k' {
        if p <= i {
          assert r[i] == s[i + 1];
        }
      }
      PositionIs(r, k', |r|);
    }
  }

  /** Unsetting drops that key and leaves every other key's value alone. */
  lemma RemoveSpec(s: Entries, k: Key, k': Key)
    requires DistinctKeys(s)
    ensures DistinctKeys(Remove(s, k))
    ensures Get(Remove(s, k), k) == None
    ensures k' != k ==> Get(Remove(s, k), k') == Get(s, k')
    ensures |Remove(s, k)| == if HasKey(s, k) then |s| - 1 else |s|
  {
    if HasKey(s, k) {
      var p := Position(s, k);
      var r := s[..p] + s[p + 1..];
      assert Remove(s, k) == r;
      DropShape(s, p, r);
      assert forall i :: 0 <= i < |r| ==> r[i].0 != k;
      PositionIs(r, k, |r|);
      if k' != k {
        GetAfterDrop(s, r, Position(s, k), k');
      }
    }
  }

  /** Unsetting position i of a list, then `array_values`, closes the gap. */
  lemma UnsetList(s: Entries, i: int)
    requires Dense(s) && 0 <= i < |s|
    ensures Indexed(Vals(Remove(s, IntKey(i)))) == Indexed(Vals(s)[..i] + Vals(s)[i + 1..])
  {
    assert Position(s, IntKey(i)) == i;
    ValsAppend(s[..i], s[i + 1..]);
    ValsSlice(s, 0, i);
    ValsSlice(s, i + 1, |s|);
  }

  /** `$this->container` after `array_splice($this->container, $n)`: the
      entries before offset n, integer keys renumbered. */
  function SnipKept(s: Entries, n: int): Entries
  {
    Renumber(s[..SliceStart(|s|, n)])
  }

  /** `snip($n)` as written: the kept part `without` the removed values, so
      a kept value equal to a removed one is dropped as well. */
  function SnipResult(s: Entries, n: int): Entries
  {
    Without(SnipKept(s, n), s[SliceStart(|s|, n)..])
  }

  /** `snip($n)` as evidently intended: the list of the values before
      offset n. */
  function SnipIntended(s: Entries, n: int): Entries
  {
    Indexed(Vals(s[..SliceStart(|s|, n)]))
  }

  /** No value before offset m has the string form of a value from m on. */
  predicate FormsApart(s: Entries, m: nat)
    requires m <= |s|
  {
    forall i, j :: 0 <= i < m <= j < |s| ==> StrOf(s[i].1) != StrOf(s[j].1)
  }

  /** What `snip` leaves in the container: the values before the offset,
      keys kept distinct. */
  lemma SnipKeptSpec(s: Entries, n: int)
    ensures Vals(SnipKept(s, n)) == Vals(s)[..SliceStart(|s|, n)]
    ensures DistinctKeys(s) ==> DistinctKeys(SnipKept(s, n))
  {
    var m := SliceStart(|s|, n);
    RenumberSpec(s[..m], 0);
    ValsSplit(s, m);
    if DistinctKeys(s) {
      DistinctKeysSplit(s, m);
    }
  }

  /** The intended `snip` returns the list of the values before the offset:
      together with the removed values they are all the values, in order. */
  lemma SnipIntendedSpec(s: Entries, n: int)
    ensures Dense(SnipIntended(s, n))
    ensures Vals(SnipIntended(s, n)) == Vals(s)[..SliceStart(|s|, n)]
    ensures Vals(SnipIntended(s, n)) + Vals(s)[SliceStart(|s|, n)..] == Vals(s)
  {
    var m := SliceStart(|s|, n);
    ValsSplit(s, m);
    IndexedIsList(Vals(s[..m]));
  }

  lemma SnipApart(s: Entries, n: int)
    requires FormsApart(s, SliceStart(|s|, n))
    ensures SnipResult(s, n) == SnipIntended(s, n)
  {
    var m := SliceStart(|s|, n);
    var kept := SnipKept(s, n);
    var removed := s[m..];
    SnipKeptSpec(s, n);
    SnipIntendedSpec(s, n);
    forall i | 0 <= i < |kept| ensures StrOf(kept[i].1) !in StrForms(removed) {
      assert kept[i].1 == Vals(kept)[i] == s[i].1;
      forall j | 0 <= j < |removed| ensures StrForms(removed)[j] != StrOf(kept[i].1) {
        assert removed[j] == s[m + j];
      }
    }
    WithoutSpec(kept, removed);
  }

  /** What `snip` returns: the values before the offset minus (as written)
      those matching a removed value; with no such match, exactly the kept
      values. */
  lemma SnipSpec(s: Entries, n: int)
    ensures forall x :: x in Vals(SnipResult(s, n)) <==>
      x in Vals(s)[..SliceStart(|s|, n)] && StrOf(x) !in StrForms(s[SliceStart(|s|, n)..])
    ensures FormsApart(s, SliceStart(|s|, n)) ==> SnipResult(s, n) == SnipIntended(s, n)
  {
    var m := SliceStart(|s|, n);
    SnipKeptSpec(s, n);
    WithoutSpec(SnipKept(s, n), s[m..]);
    if FormsApart(s, m) {
      SnipApart(s, n);
    }
  }

  /** `["a", "b", "a"]->snip(2)` returns `["b"]`, not `["a", "b"]`. */
  lemma SnipDropsRepeated(a: string, b: string)
    requires a != b
    ensures SnipResult(Indexed([Str(a), Str(b), Str(a)]), 2) == Indexed([Str(b)])
    ensures SnipIntended(Indexed([Str(a), Str(b), Str(a)]), 2) == Indexed([Str(a), Str(b)])
  {
    var s := Indexed([Str(a), Str(b), Str(a)]);
    RenumberOfIntKeyed(s[..2]);
    assert Vals(s[..2]) == [Str(a), Str(b)];
    IndexedIsList([Str(a), Str(b)]);
    assert SnipKept(s, 2) == Indexed([Str(a), Str(b)]);
    assert StrForms(s[2..]) == [a];
    assert Keep([Str(a), Str(b)], [a]) == [Str(b)] by {
      assert Keep([Str(b)], [a]) == [Str(b)] by {
        assert [Str(b)][1..] == [];
      }
      assert [Str(a), Str(b)][1..] == [Str(b)];
    }
  }

  /** `rotate`'s pivot: a negative one counts from the end. */
  function Pivot(n: nat, p: int): int
  {
    if p < 0 then n + p else p
  }

  /** `rotate($pivot)` as written: `skip` of the pivot, merged with what
      `snip` of the pivot returns. */
  function RotateResult(s: Entries, p: int): Entries
  {
    var q := Pivot(|s|, p);
    Concat(Skip(s, q), SnipResult(s, q))
  }

  /** `rotate($pivot)` as evidently intended: the values from the pivot on,
      then the values before it. */
  function RotateIntended(s: Entries, p: int): Entries
  {
    var q := Pivot(|s|, p);
    Concat(Skip(s, q), SnipIntended(s, q))
  }

  lemma SkipThenList(s: Entries, q: int)
    requires DistinctKeys(s)
    ensures StrKeysDistinct(Skip(s, q) + SnipIntended(s, q))
  {
    var m := SliceStart(|s|, q);
    var a := Skip(s, q);
    var b := SnipIntended(s, q);
    assert DistinctKeys(s[m..]);
    RenumberSpec(s[m..], 0);
    IndexedIsList(Vals(s[..m]));
    var ab: Entries := a + b;
    forall i, j | 0 <= i < j < |ab| && ab[i].0.StrKey?
      ensures ab[i].0 != ab[j].0
    {
      if i < |a| && j >= |a| {
        assert ab[j] == b[j - |a|];
      }
    }
  }

  /** The intended rotation: the values from the pivot on, then the ones
      before it; the same values, rearranged. */
  lemma SkipVals(s: Entries, q: int)
    ensures Vals(Skip(s, q)) == Vals(s)[SliceStart(|s|, q)..]
    ensures Vals(SnipIntended(s, q)) == Vals(s)[..SliceStart(|s|, q)]
  {
    var m := SliceStart(|s|, q);
    RenumberSpec(s[m..], 0);
    ValsSlice(s, m, |s|);
    ValsSlice(s, 0, m);
    IndexedIsList(Vals(s[..m]));
  }

  lemma ConcatVals(a: Entries, b: Entries)
    requires StrKeysDistinct(a + b)
    ensures Vals(Concat(a, b)) == Vals(a) + Vals(b)
    ensures DistinctKeys(Concat(a, b))
  {
    ConcatRenumbers(a, b);
    ConcatDistinct(a, b);
    RenumberSpec(a + b, 0);
    ValsAppend(a, b);
  }

  lemma RotateIntendedSpec(s: Entries, p: int)
    requires DistinctKeys(s)
    ensures var m := SliceStart(|s|, Pivot(|s|, p));
      Vals(RotateIntended(s, p)) == Vals(s)[m..] + Vals(s)[..m]
    ensures multiset(Vals(RotateIntended(s, p))) == multiset(Vals(s))
    ensures DistinctKeys(RotateIntended(s, p))
  {
    var q := Pivot(|s|, p);
    var m := SliceStart(|s|, q);
    SkipThenList(s, q);
    ConcatVals(Skip(s, q), SnipIntended(s, q));
    SkipVals(s, q);
    var vs := Vals(s);
    assert vs == vs[..m] + vs[m..];
    assert multiset(vs[m..] + vs[..m]) == multiset(vs[m..]) + multiset(vs[..m]);
  }

  /** On a list of n values and a pivot 0 <= p <= n (or -n <= p < 0, counted
      from the end), the intended rotation is the list rotated by p. */
  lemma RotateIntendedList(s: Entries, p: int)
    requires Dense(s) && -|s| <= p <= |s|
    ensures var m := Pivot(|s|, p);
      RotateIntended(s, p) == Indexed(Vals(s)[m..] + Vals(s)[..m])
  {
    var q := Pivot(|s|, p);
    var m := SliceStart(|s|, q);
    assert m == q;
    DenseIsIndexed(s);
    IndexedIsList(Vals(s));
    RotateIntendedSpec(s, p);
    ConcatDistinct(Skip(s, q), SnipIntended(s, q));
    var r := RotateIntended(s, p);
    SkipThenList(s, q);
    ConcatRenumbers(Skip(s, q), SnipIntended(s, q));
    assert forall i :: 0 <= i < |Skip(s, q) + SnipIntended(s, q)| ==>
      (Skip(s, q) + SnipIntended(s, q))[i].0.IntKey? by {
      RenumberSpec(s[m..], 0);
      forall i | 0 <= i < |Skip(s, q)| ensures Skip(s, q)[i].0.IntKey? {
        RenumberAt(s[m..], 0, i);
      }
    }
    RenumberOfIntKeyed(Skip(s, q) + SnipIntended(s, q));
  }

  /** As written, `rotate` agrees with the intended rotation exactly when
      `snip` drops nothing, e.g. when the values' string forms are distinct. */
  lemma RotateAsWritten(s: Entries, p: int)
    requires FormsApart(s, SliceStart(|s|, Pivot(|s|, p)))
    ensures RotateResult(s, p) == RotateIntended(s, p)
  {
    SnipSpec(s, Pivot(|s|, p));
  }

  /** `["a", "b", "a"]->rotate(1)` yields two values, not three: the second
      "a" is lost because `snip` dropped the first one. */
  lemma RotateLosesRepeated(a: string, b: string)
    requires a != b
    ensures Vals(RotateResult(Indexed([Str(a), Str(b), Str(a)]), 1)) == [Str(b), Str(a)]
    ensures Vals(RotateIntended(Indexed([Str(a), Str(b), Str(a)]), 1)) == [Str(b), Str(a), Str(a)]
  {
    var s := Indexed([Str(a), Str(b), Str(a)]);
    var skipped := Skip(s, 1);
    RenumberOfIntKeyed(s[1..]);
    assert Vals(s[1..]) == [Str(b), Str(a)];
    RenumberOfIntKeyed(s[..1]);
    assert Vals(s[..1]) == [Str(a)];
    assert StrForms(s[1..]) == [b, a];
    IndexedIsList([Str(a)]);
    assert SnipKept(s, 1) == Indexed([Str(a)]);
    assert Keep([Str(a)], [b, a]) == [];
    assert SnipResult(s, 1) == [];
    ConcatLists(skipped, []);
    assert skipped + [] == skipped;
    RotateIntendedSpec(s, 1);
    assert Vals(s)[1..] + Vals(s)[..1] == [Str(b), Str(a), Str(a)];
  }

  // ---------------------------------------------------------------------
  // The class
  // ---------------------------------------------------------------------

  class Container {
    /** `$container`. */
    var entries: Entries

    /** A PHP array never holds one key twice. */
    ghost predicate Valid()
      reads this
    {
      DistinctKeys(entries)
    }

    /** `new _($array)`. */
    constructor (s: Entries)
      requires DistinctKeys(s)
      ensures entries == s && Valid()
    {
      entries := s;
    }

    /** `_::create($container)` / `new _($container)`: an array is wrapped, an
        instance's array is copied, anything else is refused. */
    static method Create(src: Source) returns (r: Created)
      requires src.FromArray? ==> DistinctKeys(src.items)
      requires src.FromInstance? ==> src.other.Valid()
      ensures src.FromOther? <==> r.InvalidArgument?
      ensures r.InvalidArgument? ==> r.message == InvalidMessage
      ensures r.Made? ==>
        fresh(r.c) && r.c.Valid() &&
        r.c.entries == if src.FromArray? then src.items else src.other.entries
    {
      match src
      case FromArray(items) =>
        var c := new Container(items);
        r := Made(c);
      case FromInstance(other) =>
        var c := new Container(other.entries);
        r := Made(c);
      case FromOther =>
        r := InvalidArgument(InvalidMessage);
    }

    // -------------------------------------------------------------------
    // Loops that only read the container
    // -------------------------------------------------------------------

    /** `all($callback)`: true unless some callback result is identical to
        false. */
    method All(cb: (Value, Key) -> Value) returns (r: bool)
      ensures r <==> forall i :: 0 <= i < |entries| ==> cb(entries[i].1, entries[i].0) != Bool(false)
    {
      var i := 0;
      while i < |entries|
        invariant 0 <= i <= |entries|
        invariant forall j :: 0 <= j < i ==> cb(entries[j].1, entries[j].0) != Bool(false)
      {
        if cb(entries[i].1, entries[i].0) == Bool(false) {
          return false;
        }
        i := i + 1;
      }
      return true;
    }

    /** `any($callback)`: true when some callback result is identical to
        true. */
    method Any(cb: (Value, Key) -> Value) returns (r: bool)
      ensures r <==> exists i :: 0 <= i < |entries| && cb(entries[i].1, entries[i].0) == Bool(true)
    {
      var i := 0;
      while i < |entries|
        invariant 0 <= i <= |entries|
        invariant forall j :: 0 <= j < i ==> cb(entries[j].1, entries[j].0) != Bool(true)
      {
        if cb(entries[i].1, entries[i].0) == Bool(true) {
          return true;
        }
        i := i + 1;
      }
      return false;
    }

    /** `none($callback)`: no callback result is identical to true. */
    method None(cb: (Value, Key) -> Value) returns (r: bool)
      ensures r <==> forall i :: 0 <= i < |entries| ==> cb(entries[i].1, entries[i].0) != Bool(true)
    {
      var any := Any(cb);
      r := !any;
    }

    /** `find($callback)`: the first value whose callback result is not
        identical to false, or null when there is none. */
    method Find(cb: (Value, Key) -> Value) returns (r: Value)
      ensures (forall i :: 0 <= i < |entries| ==> cb(entries[i].1, entries[i].0) == Bool(false)) ==> r == Null
      ensures (exists i :: 0 <= i < |entries| && cb(entries[i].1, entries[i].0) != Bool(false)) ==>
        exists i :: 0 <= i < |entries| && r == entries[i].1 &&
          cb(entries[i].1, entries[i].0) != Bool(false) &&
          forall j :: 0 <= j < i ==> cb(entries[j].1, entries[j].0) == Bool(false)
    {
      var i := 0;
      while i < |entries|
        invariant 0 <= i <= |entries|
        invariant forall j :: 0 <= j < i ==> cb(entries[j].1, entries[j].0) == Bool(false)
      {
        if cb(entries[i].1, entries[i].0) != Bool(false) {
          return entries[i].1;
        }
        i := i + 1;
      }
      return Null;
    }

    /** `max($callback)`: the first value with the largest callback result;
        on an empty container `$data[0]` reads as null. */
    method Max(cb: Value -> int) returns (r: Value)
      ensures |entries| == 0 ==> r == Null
      ensures |entries| > 0 ==> r == Vals(entries)[ArgMax(Vals(entries), cb)]
    {
      var data := Vals(entries);
      if |data| == 0 {
        return Null;
      }
      var best := cb(data[0]);
      r := data[0];
      ghost var k := 0;
      var i := 1;
      while i < |data|
        invariant 1 <= i <= |data|
        invariant k == ArgMax(data[..i], cb) && r == data[k] && best == cb(data[k])
      {
        var x := cb(data[i]);
        ArgMaxStep(data, cb, i);
        if x > best {
          best := x;
          r := data[i];
          k := i;
        }
        i := i + 1;
      }
      assert data[..i] == data;
    }

    /** `min($callback)`: the first value with the smallest callback result;
        on an empty container `$data[0]` reads as null. */
    method Min(cb: Value -> int) returns (r: Value)
      ensures |entries| == 0 ==> r == Null
      ensures |entries| > 0 ==> r == Vals(entries)[ArgMin(Vals(entries), cb)]
    {
      var data := Vals(entries);
      if |data| == 0 {
        return Null;
      }
      var best := cb(data[0]);
      r := data[0];
      ghost var k := 0;
      var i := 1;
      while i < |data|
        invariant 1 <= i <= |data|
        invariant k == ArgMin(data[..i], cb) && r == data[k] && best == cb(data[k])
      {
        var x := cb(data[i]);
        ArgMinStep(data, cb, i);
        if x < best {
          best := x;
          r := data[i];
          k := i;
        }
        i := i + 1;
      }
      assert data[..i] == data;
    }

    /** `groupBy($callback)`: the array of the new container, built by
        `$result[$callback($element)][] = $element` for each value. */
    method GroupBy(cb: Value -> Value) returns (r: Entries)
      requires Grouping.Groupable(Vals(entries), cb)
      ensures r == Grouping.GroupBy(Vals(entries), cb)
    {
      var vs := Vals(entries);
      ghost var ks := Grouping.GroupKeys(vs, cb);
      r := [];
      var i := 0;
      while i < |vs|
        invariant 0 <= i <= |vs|
        invariant r == Grouping.Bucket(vs[..i], ks[..i])
      {
        assert vs[..i + 1][..i] == vs[..i] && ks[..i + 1][..i] == ks[..i];
        var k := OffsetKey(cb(vs[i])).value;
        r := Grouping.AddTo(r, k, vs[i]);
        i := i + 1;
      }
      assert vs[..i] == vs && ks[..i] == ks;
    }

    /** `partition($callback)`: the array of the new container, built by
        `$result[!((bool) $callback($element))][] = $element`. */
    method Partition(cb: Value -> Value) returns (r: Entries)
      ensures r == Grouping.Partition(Vals(entries), cb)
    {
      var vs := Vals(entries);
      ghost var ks := Grouping.PartitionKeys(vs, cb);
      r := [];
      var i := 0;
      while i < |vs|
        invariant 0 <= i <= |vs|
        invariant r == Grouping.Bucket(vs[..i], ks[..i])
      {
        assert vs[..i + 1][..i] == vs[..i] && ks[..i + 1][..i] == ks[..i];
        var k := IntKey(if Truthy(cb(vs[i])) then 0 else 1);
        r := Grouping.AddTo(r, k, vs[i]);
        i := i + 1;
      }
      assert vs[..i] == vs && ks[..i] == ks;
    }

    // -------------------------------------------------------------------
    // ArrayAccess
    // -------------------------------------------------------------------

    /** `offsetExists($offset)`: `isset`, so a null value counts as absent. */
    function OffsetExists(offset: Value): (r: bool)
      reads this
      requires Valid() && OffsetKey(offset).Some?
      ensures r <==>
        exists i :: 0 <= i < |entries| && entries[i].0 == OffsetKey(offset).value && entries[i].1 != Null
    {
      IssetIff(entries, OffsetKey(offset).value);
      Isset(entries, OffsetKey(offset).value)
    }

    /** `offsetGet($offset)`: the value under the key, null (with a notice)
        when the key is absent. */
    function OffsetGet(offset: Value): (r: Value)
      reads this
      requires Valid() && OffsetKey(offset).Some?
      ensures (exists i :: 0 <= i < |entries| && entries[i].0 == OffsetKey(offset).value && r == entries[i].1) ||
        (r == Null && forall i :: 0 <= i < |entries| ==> entries[i].0 != OffsetKey(offset).value)
    {
      var g := Get(entries, OffsetKey(offset).value);
      if g.Some? then g.value else Null
    }

    /** `offsetSet($offset, $value)` as written: `$this->container[$offset] =
        $value`, so `$c[] = $v` (a null offset) stores under the key "". */
    method OffsetSet(offset: Value, v: Value)
      requires Valid() && OffsetKey(offset).Some?
      modifies this
      ensures Valid()
      ensures entries == Put(old(entries), OffsetKey(offset).value, v)
    {
      PutDistinct(entries, OffsetKey(offset).value, v);
      entries := Put(entries, OffsetKey(offset).value, v);
    }

    /** `offsetSet` as evidently intended: a null offset appends, like
        `push`. */
    method OffsetSetIntended(offset: Value, v: Value)
      requires Valid() && OffsetKey(offset).Some?
      modifies this
      ensures Valid()
      ensures offset == Null ==> entries == Append(old(entries), v)
      ensures offset != Null ==> entries == Put(old(entries), OffsetKey(offset).value, v)
    {
      if offset == Null {
        AppendDistinct(entries, v);
        entries := Append(entries, v);
      } else {
        PutDistinct(entries, OffsetKey(offset).value, v);
        entries := Put(entries, OffsetKey(offset).value, v);
      }
    }

    /** `offsetUnset($offset)`: unset only when `isset`, then `array_values`
        in every case. */
    method OffsetUnset(offset: Value)
      requires Valid() && OffsetKey(offset).Some?
      modifies this
      ensures Valid() && Dense(entries)
      ensures Isset(old(entries), OffsetKey(offset).value) ==>
        entries == Indexed(Vals(Remove(old(entries), OffsetKey(offset).value)))
      ensures !Isset(old(entries), OffsetKey(offset).value) ==> entries == Indexed(Vals(old(entries)))
    {
      var k := OffsetKey(offset).value;
      if Isset(entries, k) {
        entries := Remove(entries, k);
      }
      IndexedIsList(Vals(entries));
      entries := Indexed(Vals(entries));
    }

    // -------------------------------------------------------------------
    // Stack operations
    // -------------------------------------------------------------------

    /** `push($element)`: `$this->container[] = $element`; returns `$this`. */
    method Push(x: Value) returns (r: Container)
      requires Valid()
      modifies this
      ensures r == this && Valid()
      ensures entries == Append(old(entries), x)
    {
      AppendDistinct(entries, x);
      entries := entries + [(IntKey(NextFree(entries)), x)];
      r := this;
    }

    /** `pop()`: removes and returns the last value; null when empty. */
    method Pop() returns (r: Value)
      requires Valid()
      modifies this
      ensures Valid()
      ensures old(entries) == [] ==> r == Null && entries == []
      ensures old(entries) != [] ==>
        r == old(entries)[|old(entries)| - 1].1 && entries == old(entries)[..|old(entries)| - 1]
    {
      if entries == [] {
        return Null;
      }
      r := entries[|entries| - 1].1;
      entries := entries[..|entries| - 1];
    }

    /** `shift()`: removes and returns the first value (null when empty);
        integer keys are renumbered from 0. */
    method Shift() returns (r: Value)
      requires Valid()
      modifies this
      ensures Valid()
      ensures old(entries) == [] ==> r == Null && entries == []
      ensures old(entries) != [] ==> r == old(entries)[0].1 && entries == Renumber(old(entries)[1..])
    {
      if entries == [] {
        return Null;
      }
      r := entries[0].1;
      RenumberSpec(entries[1..], 0);
      entries := Renumber(entries[1..]);
    }

    /** `unshift($element)`: inserts at the front, renumbering integer keys;
        returns `$this`. */
    method Unshift(x: Value) returns (r: Container)
      requires Valid()
      modifies this
      ensures r == this && Valid()
      ensures entries == Renumber([(IntKey(0), x)] + old(entries))
    {
      UnshiftKeys(entries, x);
      entries := Renumber([(IntKey(0), x)] + entries);
      r := this;
    }

    // -------------------------------------------------------------------
    // snip and rotate
    // -------------------------------------------------------------------

    /** `snip($n)`: `array_splice` cuts the container at offset n; the
        return value is the kept part `without` the removed values. */
    method Snip(n: int) returns (r: Entries)
      requires Valid()
      modifies this
      ensures Valid()
      ensures entries == SnipKept(old(entries), n)
      ensures r == SnipResult(old(entries), n)
    {
      var m := SliceStart(|entries|, n);
      var removed := entries[m..];
      SnipKeptSpec(entries, n);
      entries := Renumber(entries[..m]);
      r := Without(entries, removed);
    }

    /** `rotate($pivot)`: `skip` of the pivot merged with `snip` of the
        pivot, which also cuts this container down to the values before the
        pivot. */
    method Rotate(p: int) returns (r: Entries)
      requires Valid()
      modifies this
      ensures Valid()
      ensures entries == SnipKept(old(entries), Pivot(|old(entries)|, p))
      ensures r == RotateResult(old(entries), p)
    {
      var q := if p < 0 then |entries| + p else p;
      var skipped := Skip(entries, q);
      var snipped := Snip(q);
      r := Concat(skipped, snipped);
    }
  }

  // ---------------------------------------------------------------------
  // The stack operations, related
  // ---------------------------------------------------------------------

  lemma UnshiftKeys(s: Entries, x: Value)
    requires DistinctKeys(s)
    ensures DistinctKeys(Renumber([(IntKey(0), x)] + s))
    ensures Renumber([(IntKey(0), x)] + s) == [(IntKey(0), x)] + RenumberFrom(s, 1)
  {
    assert ([(IntKey(0), x)] + s)[1..] == s;
    var t := RenumberFrom(s, 1);
    RenumberSpec(s, 1);
    forall i | 0 <= i < |t| ensures t[i].0 != IntKey(0) {
      RenumberAt(s, 1, i);
    }
  }

  /** `pop` after `push($x)` yields x and restores the array, whatever its
      keys. */
  lemma PushPop(s: Entries, x: Value)
    ensures |Append(s, x)| == |s| + 1
    ensures Append(s, x)[|Append(s, x)| - 1].1 == x
    ensures Append(s, x)[..|Append(s, x)| - 1] == s
  {
  }

  /** `push` onto a list appends the value at the next index. */
  lemma PushList(s: Entries, x: Value)
    requires Dense(s)
    ensures Append(s, x) == Indexed(Vals(s) + [x])
  {
    DenseIsIndexed(s);
    AppendIndexed(Vals(s), x);
  }

  /** `shift` after `unshift($x)` yields x and leaves the array renumbered,
      as a `shift`/`unshift` pair always does; a list comes back unchanged. */
  lemma UnshiftShift(s: Entries, x: Value)
    ensures var t := Renumber([(IntKey(0), x)] + s);
      |t| > 0 && t[0].1 == x && Renumber(t[1..]) == Renumber(s)
    ensures Dense(s) ==> Renumber(Renumber([(IntKey(0), x)] + s)[1..]) == s
  {
    if Dense(s) {
      RenumberOfIntKeyed(s);
      DenseIsIndexed(s);
    }
    var t := Renumber([(IntKey(0), x)] + s);
    assert ([(IntKey(0), x)] + s)[1..] == s;
    assert t == [(IntKey(0), x)] + RenumberFrom(s, 1);
    assert t[1..] == RenumberFrom(s, 1);
    RenumberTwice(s, 1, 0);
  }

  /** On a list, `shift` removes the first value and `unshift` of that value
      puts the list back. */
  lemma ShiftUnshiftList(s: Entries)
    requires Dense(s) && |s| > 0
    ensures Renumber(s[1..]) == Indexed(Vals(s)[1..])
    ensures Renumber([(IntKey(0), s[0].1)] + Renumber(s[1..])) == s
  {
    assert forall i :: 0 <= i < |s[1..]| ==> s[1..][i].0.IntKey?;
    RenumberOfIntKeyed(s[1..]);
    ValsSlice(s, 1, |s|);
    var t := [(IntKey(0), s[0].1)] + Renumber(s[1..]);
    IndexedIsList(Vals(s)[1..]);
    assert forall i :: 0 <= i < |t| ==> t[i].0.IntKey?;
    RenumberOfIntKeyed(t);
    assert Vals(t) == Vals(s);
    DenseIsIndexed(s);
  }

  /** `$c[] = $v` as written stores under "" instead of appending: on an
      array without that key the results differ. */
  lemma OffsetSetNullKey(s: Entries, v: Value)
    requires !HasKey(s, StrKey(""))
    ensures HasKey(Put(s, OffsetKey(Null).value, v), StrKey(""))
    ensures !HasKey(Append(s, v), StrKey(""))
    ensures Put(s, OffsetKey(Null).value, v) != Append(s, v)
  {
    PutGet(s, StrKey(""), v, StrKey(""));
    HasKeyIff(s, StrKey(""));
    HasKeyIff(Append(s, v), StrKey(""));
    ValsAppend(s, [(IntKey(NextFree(s)), v)]);
    assert Keys(Append(s, v)) == Keys(s) + [IntKey(NextFree(s))];
  }

  /** With the intended `offsetSet`, `$c[] = $v` on a list is `push`: the
      list grows by v at the next index. */
  lemma OffsetSetIntendedList(s: Entries, v: Value)
    requires Dense(s)
    ensures Append(s, v) == Indexed(Vals(s) + [v]) && Dense(Append(s, v))
  {
    PushList(s, v);
    IndexedIsList(Vals(s) + [v]);
  }
}
