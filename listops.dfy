/** The container methods that build a fresh list out of the container's
    values: `map`, `select`, `reject`, `without`, `uniq`/`distinct`, `chunk`,
    `flatten` and `transpose`. Each takes the container's entries and returns
    the entries of the new container. */
module ListOps {
  import opened PhpValues
  import opened Seqs
  import opened PhpArrays

  // ---------------------------------------------------------------------
  // map: array_values(array_filter(array_map($callback, $a)))
  // ---------------------------------------------------------------------

  /** `array_map($f, $vs)` on the values. */
  function Apply(vs: seq<Value>, f: Value -> Value): (r: seq<Value>)
    ensures |r| == |vs| && forall i :: 0 <= i < |vs| ==> r[i] == f(vs[i])
  {
    seq(|vs|, i requires 0 <= i < |vs| => f(vs[i]))
  }

  /** `map($callback)`: the callback's results with every falsy result
      (null, false, 0, "", "0", empty array) dropped, re-indexed from 0. */
  function Map(s: Entries, cb: Value -> Value): Entries
  {
    Indexed(Filter(Apply(Vals(s), cb), Truthy))
  }

  /** `map` yields a list of truthy callback results, keeps every result
      exactly when none is falsy, and then keeps them all in order. */
  lemma MapSpec(s: Entries, cb: Value -> Value)
    ensures Dense(Map(s, cb))
    ensures forall v :: v in Vals(Map(s, cb)) <==>
      Truthy(v) && exists i :: 0 <= i < |s| && cb(s[i].1) == v
    ensures |Map(s, cb)| <= |s|
    ensures |Map(s, cb)| == |s| <==> forall i :: 0 <= i < |s| ==> Truthy(cb(s[i].1))
    ensures (forall i :: 0 <= i < |s| ==> Truthy(cb(s[i].1))) ==>
      Vals(Map(s, cb)) == Apply(Vals(s), cb)
  {
    var rs := Apply(Vals(s), cb);
    assert forall i :: 0 <= i < |s| ==> rs[i] == cb(s[i].1);
    IndexedIsList(Filter(rs, Truthy));
    FilterLength(rs, Truthy);
    forall v ensures v in Filter(rs, Truthy) <==> Truthy(v) && exists i :: 0 <= i < |s| && cb(s[i].1) == v {
      FilterIn(rs, Truthy, v);
      if v in rs {
        var i :| 0 <= i < |rs| && rs[i] == v;
        assert cb(s[i].1) == v;
      }
      if exists i :: 0 <= i < |s| && cb(s[i].1) == v {
        var i :| 0 <= i < |s| && cb(s[i].1) == v;
        assert rs[i] == v;
      }
    }
    if forall i :: 0 <= i < |s| ==> Truthy(cb(s[i].1)) {
      FilterAll(rs, Truthy);
    }
  }

  /** `map` works element by element: mapping a concatenation concatenates
      the mapped parts. */
  lemma MapAppend(s: Entries, t: Entries, cb: Value -> Value)
    ensures Vals(Map(s + t, cb)) == Vals(Map(s, cb)) + Vals(Map(t, cb))
  {
    assert Apply(Vals(s + t), cb) == Apply(Vals(s), cb) + Apply(Vals(t), cb);
    FilterAppend(Apply(Vals(s), cb), Apply(Vals(t), cb), Truthy);
  }

  // ---------------------------------------------------------------------
  // select / reject: array_values(array_filter($a, fn => $callback($e) === true/false))
  // ---------------------------------------------------------------------

  /** The values whose callback result has the given verdict, in order. */
  function Pick(vs: seq<Value>, cb: Value -> Value, want: Verdict): seq<Value>
  {
    if vs == [] then []
    else (if Classify(cb(vs[0])) == want then [vs[0]] else []) + Pick(vs[1..], cb, want)
  }

  /** `select($callback)`: the values for which the callback returns exactly
      `true`, re-indexed. */
  function Select(s: Entries, cb: Value -> Value): Entries
  {
    Indexed(Pick(Vals(s), cb, MatchTrue))
  }

  /** `reject($callback)`: the values for which the callback returns exactly
      `false`, re-indexed. */
  function Reject(s: Entries, cb: Value -> Value): Entries
  {
    Indexed(Pick(Vals(s), cb, MatchFalse))
  }

  lemma {:induction false} PickIn(vs: seq<Value>, cb: Value -> Value, want: Verdict, x: Value)
    ensures x in Pick(vs, cb, want) <==> x in vs && Classify(cb(x)) == want
  {
    if vs != [] {
      PickIn(vs[1..], cb, want, x);
      assert x in vs <==> x == vs[0] || x in vs[1..];
    }
  }

  lemma {:induction false} PickAppend(a: seq<Value>, b: seq<Value>, cb: Value -> Value, want: Verdict)
    ensures Pick(a + b, cb, want) == Pick(a, cb, want) + Pick(b, cb, want)
  {
    if a != [] {
      var h := if Classify(cb(a[0])) == want then [a[0]] else [];
      assert (a + b)[0] == a[0] && (a + b)[1..] == a[1..] + b;
      assert Pick(a + b, cb, want) == h + Pick(a[1..] + b, cb, want);
      PickAppend(a[1..], b, cb, want);
      assert Pick(a, cb, want) == h + Pick(a[1..], cb, want);
      AppendAssoc(h, Pick(a[1..], cb, want), Pick(b, cb, want));
    } else {
      assert a + b == b;
    }
  }

  /** The `true` picks and the `false` picks never overlap: together they
      are at most the whole input, and exactly the whole input when every
      callback result is a boolean. */
  lemma {:induction false} PickCount(vs: seq<Value>, cb: Value -> Value)
    ensures |Pick(vs, cb, MatchTrue)| + |Pick(vs, cb, MatchFalse)| <= |vs|
    ensures |Pick(vs, cb, MatchTrue)| + |Pick(vs, cb, MatchFalse)| == |vs| <==>
      forall i :: 0 <= i < |vs| ==> Classify(cb(vs[i])) != Other
  {
    if vs != [] {
      PickCount(vs[1..], cb);
      if |Pick(vs, cb, MatchTrue)| + |Pick(vs, cb, MatchFalse)| == |vs| {
        forall i | 0 <= i < |vs| ensures Classify(cb(vs[i])) != Other {
          if i > 0 { assert vs[i] == vs[1..][i - 1]; }
        }
      }
    }
  }

  lemma {:induction false} PickMultiset(vs: seq<Value>, cb: Value -> Value)
    ensures multiset(Pick(vs, cb, MatchTrue)) + multiset(Pick(vs, cb, MatchFalse)) <= multiset(vs)
  {
    if vs != [] {
      PickMultiset(vs[1..], cb);
      assert vs == [vs[0]] + vs[1..];
      assert multiset(vs) == multiset{vs[0]} + multiset(vs[1..]);
    }
  }

  /** `select` keeps exactly the values whose callback result is `true`,
      `reject` exactly those whose result is `false`; no value is in both,
      and an element with a non-boolean result is in neither. */
  lemma SelectReject(s: Entries, cb: Value -> Value)
    ensures Dense(Select(s, cb)) && Dense(Reject(s, cb))
    ensures forall x :: x in Vals(Select(s, cb)) <==> x in Vals(s) && cb(x) == Bool(true)
    ensures forall x :: x in Vals(Reject(s, cb)) <==> x in Vals(s) && cb(x) == Bool(false)
    ensures |Select(s, cb)| + |Reject(s, cb)| <= |s|
    ensures |Select(s, cb)| + |Reject(s, cb)| == |s| <==>
      forall i :: 0 <= i < |s| ==> cb(s[i].1).Bool?
  {
    var vs := Vals(s);
    IndexedIsList(Pick(vs, cb, MatchTrue));
    IndexedIsList(Pick(vs, cb, MatchFalse));
    forall x ensures x in Pick(vs, cb, MatchTrue) <==> x in vs && cb(x) == Bool(true) {
      PickIn(vs, cb, MatchTrue, x);
    }
    forall x ensures x in Pick(vs, cb, MatchFalse) <==> x in vs && cb(x) == Bool(false) {
      PickIn(vs, cb, MatchFalse, x);
    }
    PickCount(vs, cb);
    assert forall i :: 0 <= i < |s| ==> (Classify(cb(vs[i])) != Other <==> cb(s[i].1).Bool?);
  }

  /** Both keep the relative order: they distribute over concatenation. */
  lemma SelectAppend(s: Entries, t: Entries, cb: Value -> Value)
    ensures Vals(Select(s + t, cb)) == Vals(Select(s, cb)) + Vals(Select(t, cb))
    ensures Vals(Reject(s + t, cb)) == Vals(Reject(s, cb)) + Vals(Reject(t, cb))
  {
    ValsAppend(s, t);
    PickAppend(Vals(s), Vals(t), cb, MatchTrue);
    PickAppend(Vals(s), Vals(t), cb, MatchFalse);
  }

  // ---------------------------------------------------------------------
  // without: array_values(array_diff($a, $filter))
  // ---------------------------------------------------------------------

  /** The values whose string form is not among `forms`, in order. */
  function Keep(vs: seq<Value>, forms: seq<string>): seq<Value>
  {
    if vs == [] then []
    else (if StrOf(vs[0]) in forms then [] else [vs[0]]) + Keep(vs[1..], forms)
  }

  /** `without($filter)`: the values whose string form matches no value of
      the filter (`array_diff` compares `(string)` forms), re-indexed. */
  function Without(s: Entries, filter: Entries): Entries
  {
    Indexed(Keep(Vals(s), StrForms(filter)))
  }

  lemma {:induction false} KeepMembers(vs: seq<Value>, forms: seq<string>, x: Value)
    ensures x in Keep(vs, forms) <==> x in vs && StrOf(x) !in forms
  {
    if vs != [] {
      KeepMembers(vs[1..], forms, x);
      assert x in vs <==> x == vs[0] || x in vs[1..];
    }
  }

  lemma {:induction false} KeepLength(vs: seq<Value>, forms: seq<string>)
    ensures |Keep(vs, forms)| <= |vs|
  {
    if vs != [] {
      KeepLength(vs[1..], forms);
    }
  }

  lemma {:induction false} KeepNothing(vs: seq<Value>, forms: seq<string>)
    requires forall i :: 0 <= i < |vs| ==> StrOf(vs[i]) !in forms
    ensures Keep(vs, forms) == vs
  {
    if vs != [] {
      assert forall i :: 0 <= i < |vs[1..]| ==> vs[1..][i] == vs[i + 1];
      KeepNothing(vs[1..], forms);
      assert vs == [vs[0]] + vs[1..];
    }
  }

  lemma KeepSpec(vs: seq<Value>, forms: seq<string>)
    ensures forall x :: x in Keep(vs, forms) <==> x in vs && StrOf(x) !in forms
    ensures |Keep(vs, forms)| <= |vs|
    ensures (forall i :: 0 <= i < |vs| ==> StrOf(vs[i]) !in forms) ==> Keep(vs, forms) == vs
  {
    forall x {
      KeepMembers(vs, forms, x);
    }
    KeepLength(vs, forms);
    if forall i :: 0 <= i < |vs| ==> StrOf(vs[i]) !in forms {
      KeepNothing(vs, forms);
    }
  }

  lemma {:induction false} KeepAppend(a: seq<Value>, b: seq<Value>, forms: seq<string>)
    ensures Keep(a + b, forms) == Keep(a, forms) + Keep(b, forms)
  {
    if a != [] {
      assert (a + b)[1..] == a[1..] + b;
      KeepAppend(a[1..], b, forms);
      AppendAssoc(if StrOf(a[0]) in forms then [] else [a[0]], Keep(a[1..], forms), Keep(b, forms));
    } else {
      assert a + b == b;
    }
  }

  /** `without` keeps exactly the values that match nothing in the filter,
      in their order; with nothing to remove it is `array_values`. */
  lemma WithoutSpec(s: Entries, filter: Entries)
    ensures Dense(Without(s, filter))
    ensures forall x :: x in Vals(Without(s, filter)) <==>
      x in Vals(s) && StrOf(x) !in StrForms(filter)
    ensures |Without(s, filter)| <= |s|
    ensures (forall i :: 0 <= i < |s| ==> StrOf(s[i].1) !in StrForms(filter)) ==>
      Without(s, filter) == Indexed(Vals(s))
  {
    KeepSpec(Vals(s), StrForms(filter));
    IndexedIsList(Keep(Vals(s), StrForms(filter)));
  }

  lemma WithoutAppend(s: Entries, t: Entries, filter: Entries)
    ensures Vals(Without(s + t, filter)) == Vals(Without(s, filter)) + Vals(Without(t, filter))
  {
    ValsAppend(s, t);
    KeepAppend(Vals(s), Vals(t), StrForms(filter));
  }

  // ---------------------------------------------------------------------
  // uniq / distinct: array_unique($a, SORT_REGULAR)
  // ---------------------------------------------------------------------

  /** `uniq()` and its alias `distinct()`: the entries whose value has not
      occurred before, with their original keys (no re-indexing). */
  function Uniq(s: Entries): Entries
  {
    if s == [] then []
    else
      var init := s[..|s| - 1];
      if s[|s| - 1].1 in Vals(init) then Uniq(init) else Uniq(init) + [s[|s| - 1]]
  }

  lemma {:induction false} UniqSubset(s: Entries)
    ensures forall e :: e in Uniq(s) ==> e in s
  {
    if s != [] {
      var n := |s| - 1;
      UniqSubset(s[..n]);
      assert s == s[..n] + [s[n]];
    }
  }

  lemma {:induction false} UniqVals(s: Entries)
    ensures Vals(Uniq(s)) == Dedup(Vals(s))
  {
    if s != [] {
      var n := |s| - 1;
      UniqVals(s[..n]);
      assert Vals(s)[..n] == Vals(s[..n]);
      ValsAppend(Uniq(s[..n]), [s[n]]);
    }
  }

  lemma {:induction false} UniqDistinct(s: Entries)
    requires DistinctKeys(s)
    ensures DistinctKeys(Uniq(s))
  {
    if s != [] {
      var n := |s| - 1;
      var init := s[..n];
      UniqDistinct(init);
      if s[n].1 !in Vals(init) {
        UniqSubset(init);
        var u := Uniq(init);
        forall i | 0 <= i < |u| ensures u[i].0 != s[n].0 {
          assert u[i] in init;
          var k :| 0 <= k < n && init[k] == u[i];
        }
      }
    }
  }

  lemma {:induction false} UniqKeeps(s: Entries)
    requires DistinctKeys(s)
    ensures forall i :: 0 <= i < |s| ==> (s[i] in Uniq(s) <==> s[i].1 !in Vals(s[..i]))
  {
    if s != [] {
      var n := |s| - 1;
      var init, e := s[..n], s[n];
      UniqKeeps(init);
      UniqSubset(init);
      assert forall i :: 0 <= i < n ==> init[..i] == s[..i];
      forall i | 0 <= i < n ensures s[i] != e {
        assert s[i].0 != e.0;
      }
      assert e !in init;
    }
  }

  /** `uniq` keeps an entry exactly when its value does not occur earlier,
      so its values are the first occurrences, in order. */
  lemma UniqSpec(s: Entries)
    requires DistinctKeys(s)
    ensures forall i :: 0 <= i < |s| ==> (s[i] in Uniq(s) <==> s[i].1 !in Vals(s[..i]))
    ensures forall e :: e in Uniq(s) ==> e in s
    ensures Vals(Uniq(s)) == Dedup(Vals(s))
    ensures DistinctKeys(Uniq(s))
  {
    UniqKeeps(s);
    UniqSubset(s);
    UniqVals(s);
    UniqDistinct(s);
  }

  /** With no repeated value, `uniq` changes nothing; in particular it is
      idempotent. */
  lemma {:induction false} UniqOfDistinct(s: Entries)
    requires NoDuplicates(Vals(s))
    ensures Uniq(s) == s
  {
    if s != [] {
      var n := |s| - 1;
      assert NoDuplicates(Vals(s[..n])) by {
        assert Vals(s[..n]) == Vals(s)[..n];
      }
      UniqOfDistinct(s[..n]);
      forall i | 0 <= i < n ensures Vals(s[..n])[i] != s[n].1 {
        assert Vals(s)[i] != Vals(s)[n];
      }
      assert s == s[..n] + [s[n]];
    }
  }

  lemma UniqIdempotent(s: Entries)
    requires DistinctKeys(s)
    ensures Uniq(Uniq(s)) == Uniq(s)
  {
    UniqSpec(s);
    DedupSpec(Vals(s));
    UniqOfDistinct(Uniq(s));
  }

  // ---------------------------------------------------------------------
  // chunk: array_chunk($a, $n)
  // ---------------------------------------------------------------------

  /** The values cut into consecutive pieces of n, the last one shorter. */
  function Chunks(vs: seq<Value>, n: nat): seq<seq<Value>>
    requires n >= 1
  {
    if vs == [] then []
    else if |vs| <= n then [vs]
    else [vs[..n]] + Chunks(vs[n..], n)
  }

  function Arrs(xss: seq<seq<Value>>): seq<Value>
  {
    seq(|xss|, i requires 0 <= i < |xss| => Arr(xss[i]))
  }

  /** `chunk($n)`: the list of the n-sized pieces, each piece a list. */
  function Chunk(s: Entries, n: nat): Entries
    requires n >= 1
  {
    Indexed(Arrs(Chunks(Vals(s), n)))
  }

  /** The pieces put back together give the values; every piece but the
      last holds exactly n values and the last holds 1 to n. */
  lemma {:induction false} ChunksSpec(vs: seq<Value>, n: nat)
    requires n >= 1
    ensures Flat(Chunks(vs, n)) == vs
    ensures forall i :: 0 <= i < |Chunks(vs, n)| - 1 ==> |Chunks(vs, n)[i]| == n
    ensures Chunks(vs, n) != [] ==> 1 <= |Chunks(vs, n)[|Chunks(vs, n)| - 1]| <= n
    decreases |vs|
  {
    if |vs| > n {
      ChunksSpec(vs[n..], n);
      var cs := Chunks(vs, n);
      assert cs[1..] == Chunks(vs[n..], n);
      assert vs == vs[..n] + vs[n..];
      forall i | 0 <= i < |cs| - 1 ensures |cs[i]| == n {
        if i > 0 { assert cs[i] == cs[1..][i - 1]; }
      }
    }
  }

  /** There are ceil(count / n) pieces: n times one piece fewer is less than
      the count, n times the pieces is at least the count. */
  lemma {:induction false} ChunksCount(vs: seq<Value>, n: nat)
    requires n >= 1
    ensures n * (|Chunks(vs, n)| - 1) < |vs| <= n * |Chunks(vs, n)|
    decreases |vs|
  {
    if |vs| > n {
      var c := |Chunks(vs[n..], n)|;
      ChunksCount(vs[n..], n);
      assert n * (c + 1) == n * c + n;
      assert n * c == n * (c - 1) + n;
    }
  }

  lemma ChunkSpec(s: Entries, n: nat)
    requires n >= 1
    ensures Dense(Chunk(s, n))
    ensures n * (|Chunk(s, n)| - 1) < |s| <= n * |Chunk(s, n)|
    ensures forall i :: 0 <= i < |Chunk(s, n)| ==> Chunk(s, n)[i].1.Arr?
    ensures Flat(seq(|Chunk(s, n)|, i requires 0 <= i < |Chunk(s, n)| => Chunk(s, n)[i].1.items)) == Vals(s)
  {
    var cs := Chunks(Vals(s), n);
    ChunksSpec(Vals(s), n);
    ChunksCount(Vals(s), n);
    assert seq(|Chunk(s, n)|, i requires 0 <= i < |Chunk(s, n)| => Chunk(s, n)[i].1.items) == cs;
  }

  // ---------------------------------------------------------------------
  // flatten: array_walk_recursive collecting every non-array leaf
  // ---------------------------------------------------------------------

  /** The non-array values reached by walking nested arrays depth first. */
  function Leaves(vs: seq<Value>): seq<Value>
  {
    if vs == [] then []
    else
      (match vs[0]
       case Arr(items) => Leaves(items)
       case _ => [vs[0]]) + Leaves(vs[1..])
  }

  /** `flatten()`: the list of all leaves. */
  function Flatten(s: Entries): Entries
  {
    Indexed(Leaves(Vals(s)))
  }

  predicate Flat1(vs: seq<Value>)
  {
    forall i :: 0 <= i < |vs| ==> !vs[i].Arr?
  }

  lemma {:induction false} LeavesFlat(vs: seq<Value>)
    ensures Flat1(Leaves(vs))
  {
    if vs != [] {
      LeavesFlat(vs[1..]);
      match vs[0]
      case Arr(items) => LeavesFlat(items);
      case _ =>
    }
  }

  lemma {:induction false} LeavesOfFlat(vs: seq<Value>)
    requires Flat1(vs)
    ensures Leaves(vs) == vs
  {
    if vs != [] {
      LeavesOfFlat(vs[1..]);
    }
  }

  lemma {:induction false} LeavesAppend(a: seq<Value>, b: seq<Value>)
    ensures Leaves(a + b) == Leaves(a) + Leaves(b)
  {
    if a != [] {
      assert (a + b)[1..] == a[1..] + b;
      LeavesAppend(a[1..], b);
    } else {
      assert a + b == b;
    }
  }

  /** The result holds no array; a flat container flattens to its own
      values; flattening twice is flattening once. */
  lemma FlattenSpec(s: Entries)
    ensures Dense(Flatten(s)) && Flat1(Vals(Flatten(s)))
    ensures Flat1(Vals(s)) ==> Flatten(s) == Indexed(Vals(s))
    ensures Flatten(Flatten(s)) == Flatten(s)
  {
    LeavesFlat(Vals(s));
    if Flat1(Vals(s)) {
      LeavesOfFlat(Vals(s));
    }
    IndexedIsList(Leaves(Vals(s)));
    LeavesOfFlat(Leaves(Vals(s)));
  }

  /** Flattening works element by element. */
  lemma FlattenAppend(s: Entries, t: Entries)
    ensures Flatten(s + t) == Indexed(Vals(Flatten(s)) + Vals(Flatten(t)))
  {
    ValsAppend(s, t);
    LeavesAppend(Vals(s), Vals(t));
  }

  // ---------------------------------------------------------------------
  // transpose: array_map(null, ...$rows)
  // ---------------------------------------------------------------------

  /** All values are arrays. */
  predicate AllArrs(vs: seq<Value>)
  {
    forall i :: 0 <= i < |vs| ==> vs[i].Arr?
  }

  /** Length of the longest row. */
  function MaxLen(rows: seq<Value>): (r: nat)
    requires AllArrs(rows)
    ensures forall i :: 0 <= i < |rows| ==> |rows[i].items| <= r
    ensures rows != [] ==> exists i :: 0 <= i < |rows| && |rows[i].items| == r
  {
    if rows == [] then 0
    else
      var m := MaxLen(rows[1..]);
      if |rows[0].items| >= m then |rows[0].items| else m
  }

  /** Column j: the j-th value of every row, null where a row is too short. */
  function Column(rows: seq<Value>, j: nat): seq<Value>
    requires AllArrs(rows)
  {
    seq(|rows|, i requires 0 <= i < |rows| => if j < |rows[i].items| then rows[i].items[j] else Null)
  }

  /** `transpose()` on a non-empty container of arrays. One row comes back
      unchanged; several rows give one list per column position, as long as
      the longest row. */
  function Transpose(s: Entries): Entries
    requires |s| >= 1 && AllArrs(Vals(s))
  {
    var rows := Vals(s);
    if |rows| == 1 then Indexed(rows[0].items)
    else Indexed(seq(MaxLen(rows), j requires 0 <= j < MaxLen(rows) => Arr(Column(rows, j))))
  }

  /** Rows of equal length n: entry j of the result is the list of the j-th
      values of the rows. */
  predicate Rectangular(rows: seq<Value>, n: nat)
  {
    AllArrs(rows) && forall i :: 0 <= i < |rows| ==> |rows[i].items| == n
  }

  lemma TransposeSpec(s: Entries, n: nat)
    requires |s| >= 2 && Rectangular(Vals(s), n)
    ensures Dense(Transpose(s)) && |Transpose(s)| == n
    ensures forall j :: 0 <= j < n ==>
      Transpose(s)[j].1.Arr? && |Transpose(s)[j].1.items| == |s| &&
      forall i :: 0 <= i < |s| ==> Transpose(s)[j].1.items[i] == Vals(s)[i].items[j]
  {
    var rows := Vals(s);
    assert |rows[0].items| == n;
  }

  /** k nulls. */
  function Nulls(k: nat): (r: seq<Value>)
    ensures |r| == k && forall j :: 0 <= j < k ==> r[j] == Null
  {
    seq(k, _ => Null)
  }

  /** On rows of any lengths there are as many columns as the longest row
      has values, every column has one entry per row, and reading row i
      down the columns gives row i padded with nulls. */
  lemma TransposeRagged(s: Entries, i: nat)
    requires |s| >= 2 && AllArrs(Vals(s)) && i < |s|
    ensures forall r :: 0 <= r < |s| ==> |Vals(s)[r].items| <= |Transpose(s)|
    ensures exists r :: 0 <= r < |s| && |Vals(s)[r].items| == |Transpose(s)|
    ensures forall j :: 0 <= j < |Transpose(s)| ==>
      Transpose(s)[j].1.Arr? && |Transpose(s)[j].1.items| == |s|
    ensures var row := Vals(s)[i].items;
      seq(|Transpose(s)|, j requires 0 <= j < |Transpose(s)| && Transpose(s)[j].1.Arr? && i < |Transpose(s)[j].1.items| =>
        Transpose(s)[j].1.items[i]) == row + Nulls(|Transpose(s)| - |row|)
  {
    var row := Vals(s)[i].items;
    var t := Transpose(s);
    assert |row| <= |t|;
    var down := seq(|t|, j requires 0 <= j < |t| && t[j].1.Arr? && i < |t[j].1.items| => t[j].1.items[i]);
    var padded := row + Nulls(|t| - |row|);
    forall j | 0 <= j < |t| ensures down[j] == padded[j] {
      if j < |row| {
        assert padded[j] == row[j];
      } else {
        assert padded[j] == Nulls(|t| - |row|)[j - |row|];
      }
    }
  }

  /** The transpose of a rectangular table is rectangular the other way. */
  lemma TransposeRectangular(s: Entries, n: nat)
    requires |s| >= 2 && n >= 2 && Rectangular(Vals(s), n)
    ensures |Transpose(s)| >= 2 && Rectangular(Vals(Transpose(s)), |s|)
  {
    TransposeSpec(s, n);
  }

  /** Row i of the double transpose is row i of the table. */
  lemma TransposeTwiceRow(s: Entries, n: nat, i: nat)
    requires |s| >= 2 && n >= 2 && Rectangular(Vals(s), n) && i < |s|
    ensures |Transpose(s)| >= 2 && Rectangular(Vals(Transpose(s)), |s|)
    ensures |Transpose(Transpose(s))| == |s|
    ensures Transpose(Transpose(s))[i].1 == Vals(s)[i]
  {
    TransposeRectangular(s, n);
    var t := Transpose(s);
    TransposeSpec(s, n);
    TransposeSpec(t, |s|);
    var row := Transpose(t)[i].1.items;
    forall j | 0 <= j < n ensures row[j] == Vals(s)[i].items[j] {
      assert row[j] == Vals(t)[j].items[i];
    }
  }

  /** Transposing an m-by-n table twice (m, n >= 2) gives back its rows. */
  lemma TransposeTwice(s: Entries, n: nat)
    requires |s| >= 2 && n >= 2 && Rectangular(Vals(s), n)
    ensures Rectangular(Vals(Transpose(s)), |s|)
    ensures Transpose(Transpose(s)) == Indexed(Vals(s))
  {
    TransposeRectangular(s, n);
    var t := Transpose(s);
    TransposeSpec(t, |s|);
    var tt := Transpose(t);
    forall i | 0 <= i < |s| ensures tt[i] == (IntKey(i), Vals(s)[i]) {
      TransposeTwiceRow(s, n, i);
    }
  }
}
