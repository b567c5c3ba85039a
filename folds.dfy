/** The container methods that fold or search the values: `inject` and
    `reduce` (both `array_reduce`), `has` (`in_array`) and `indexOf`
    (`array_search(...) ?: null`). */
module Folds {
  import opened PhpValues
  import opened PhpArrays

  // ---------------------------------------------------------------------
  // inject / reduce: array_reduce, first value first
  // ---------------------------------------------------------------------

  /** `array_reduce($vs, $cb, $memo)`: the callback applied to the running
      result and each value in turn. */
  function Fold(vs: seq<Value>, memo: Value, cb: (Value, Value) -> Value): Value
  {
    if vs == [] then memo else Fold(vs[1..], cb(memo, vs[0]), cb)
  }

  /** `inject($memo, $callback)`. */
  function Inject(s: Entries, memo: Value, cb: (Value, Value) -> Value): Value
  {
    Fold(Vals(s), memo, cb)
  }

  /** `reduce($callback, $initial)`; an omitted initial value is Null. */
  function Reduce(s: Entries, cb: (Value, Value) -> Value, initial: Value): Value
  {
    Fold(Vals(s), initial, cb)
  }

  /** Folding a concatenation folds the second part from the result of the
      first. */
  lemma {:induction false} FoldAppend(a: seq<Value>, b: seq<Value>, memo: Value, cb: (Value, Value) -> Value)
    ensures Fold(a + b, memo, cb) == Fold(b, Fold(a, memo, cb), cb)
  {
    if a != [] {
      assert (a + b)[1..] == a[1..] + b;
      FoldAppend(a[1..], b, cb(memo, a[0]), cb);
    } else {
      assert a + b == b;
    }
  }

  /** The same fold, seen from the last value: the callback's last call
      gets the fold of everything before it. */
  function FoldFromEnd(vs: seq<Value>, memo: Value, cb: (Value, Value) -> Value): Value
  {
    if vs == [] then memo else cb(FoldFromEnd(vs[..|vs| - 1], memo, cb), vs[|vs| - 1])
  }

  lemma {:induction false} FoldIsFoldFromEnd(vs: seq<Value>, memo: Value, cb: (Value, Value) -> Value)
    ensures Fold(vs, memo, cb) == FoldFromEnd(vs, memo, cb)
  {
    if vs != [] {
      var n := |vs| - 1;
      assert vs == vs[..n] + [vs[n]];
      FoldAppend(vs[..n], [vs[n]], memo, cb);
      FoldIsFoldFromEnd(vs[..n], memo, cb);
    }
  }

  /** `inject` over two arrays one after the other. */
  lemma InjectAppend(s: Entries, t: Entries, memo: Value, cb: (Value, Value) -> Value)
    ensures Inject(s + t, memo, cb) == Inject(t, Inject(s, memo, cb), cb)
    ensures Reduce(s + t, cb, memo) == Reduce(t, cb, Reduce(s, cb, memo))
  {
    ValsAppend(s, t);
    FoldAppend(Vals(s), Vals(t), memo, cb);
  }

  function Items(m: Value): seq<Value>
  {
    if m.Arr? then m.items else []
  }

  /** The callback `function ($m, $e) { $m[] = $e; return $m; }` on lists. */
  function Collect(m: Value, e: Value): Value
  {
    Arr(Items(m) + [e])
  }

  lemma {:induction false} FoldCollect(vs: seq<Value>, prefix: seq<Value>)
    ensures Fold(vs, Arr(prefix), Collect) == Arr(prefix + vs)
  {
    if vs != [] {
      assert prefix + vs == (prefix + [vs[0]]) + vs[1..];
      FoldCollect(vs[1..], prefix + [vs[0]]);
    }
  }

  /** Injecting into an empty list with a collecting callback rebuilds the
      values in order. */
  lemma InjectCollect(s: Entries)
    ensures Inject(s, Arr([]), Collect) == Arr(Vals(s))
  {
    FoldCollect(Vals(s), []);
  }

  // ---------------------------------------------------------------------
  // has / indexOf
  // ---------------------------------------------------------------------

  /** `has($element)`. */
  predicate Has(s: Entries, x: Value)
  {
    x in Vals(s)
  }

  /** `array_search`: the position of the first entry holding x, or -1. */
  function Search(s: Entries, x: Value): (r: int)
    ensures -1 <= r < |s|
    ensures r >= 0 ==> s[r].1 == x && forall j :: 0 <= j < r ==> s[j].1 != x
    ensures r < 0 ==> forall j :: 0 <= j < |s| ==> s[j].1 != x
  {
    if s == [] then -1
    else if s[0].1 == x then 0
    else
      var r := Search(s[1..], x);
      if r < 0 then -1 else r + 1
  }

  /** `indexOf($element)` as written: the key of the first entry holding the
      element, except that `?:` also turns a falsy key (0, "" or "0") into
      null. */
  function IndexOf(s: Entries, x: Value): Value
  {
    var p := Search(s, x);
    if p < 0 then Null
    else
      var k := KeyValue(s[p].0);
      if Truthy(k) then k else Null
  }

  /** `indexOf($element)` as evidently intended: null only when the element
      is absent. */
  function IndexOfIntended(s: Entries, x: Value): Value
  {
    var p := Search(s, x);
    if p < 0 then Null else KeyValue(s[p].0)
  }

  /** The intended `indexOf` finds the element exactly when `has` does, and
      then yields the key of its first occurrence; the written one agrees
      with it except on falsy keys. */
  lemma IndexOfSpec(s: Entries, x: Value)
    ensures IndexOfIntended(s, x) != Null <==> Has(s, x)
    ensures Has(s, x) ==>
      exists i :: (0 <= i < |s| && s[i].1 == x && IndexOfIntended(s, x) == KeyValue(s[i].0) &&
        forall j :: 0 <= j < i ==> s[j].1 != x)
    ensures IndexOf(s, x) == if Truthy(IndexOfIntended(s, x)) then IndexOfIntended(s, x) else Null
  {
    var p := Search(s, x);
    if Has(s, x) {
      var i :| 0 <= i < |s| && Vals(s)[i] == x;
      assert p >= 0;
    }
    if p >= 0 {
      assert Vals(s)[p] == x;
    }
  }

  /** As written, an element at the head of a list is reported missing: its
      key is 0, which `?:` treats as false. */
  lemma IndexOfFirstOfList(s: Entries)
    requires Dense(s) && |s| > 0
    ensures Has(s, s[0].1)
    ensures IndexOf(s, s[0].1) == Null
    ensures IndexOfIntended(s, s[0].1) == Int(0)
  {
    assert Vals(s)[0] == s[0].1;
  }
}
