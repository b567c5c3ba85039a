/** `_::split` and `join`: cutting a string into a container of pieces
    (`str_split` or `explode`) and gluing a container's values back together
    (`implode`). PHP strings are byte strings; here a string's characters
    stand for its bytes, so a text is modelled by the sequence of its bytes
    rather than of its Unicode characters. */
module Text {
  import opened PhpValues
  import opened PhpArrays

  /** `explode($sep, $s)`: the pieces between successive, non-overlapping,
      leftmost occurrences of a non-empty separator. */
  function Explode(s: string, sep: string): (r: seq<string>)
    requires |sep| > 0
    ensures |r| >= 1
    decreases |s|
  {
    if |s| < |sep| then [s]
    else if s[..|sep|] == sep then [""] + Explode(s[|sep|..], sep)
    else
      var rest := Explode(s[1..], sep);
      [[s[0]] + rest[0]] + rest[1..]
  }

  /** `str_split($s)`: one-byte pieces; the empty string gives one empty
      piece. */
  function StrSplit(s: string): (r: seq<string>)
    ensures |r| >= 1
  {
    if |s| <= 1 then [s] else [[s[0]]] + StrSplit(s[1..])
  }

  /** `implode($sep, $pieces)`. */
  function Implode(ps: seq<string>, sep: string): string
  {
    if ps == [] then ""
    else if |ps| == 1 then ps[0]
    else ps[0] + sep + Implode(ps[1..], sep)
  }

  /** `sep` occurs in `p` starting at index `i`. */
  predicate OccursAt(p: string, sep: string, i: nat)
  {
    i + |sep| <= |p| && p[i..i + |sep|] == sep
  }

  /** No occurrence of `sep` lies inside `p`. */
  ghost predicate FreeOf(p: string, sep: string)
  {
    forall i: nat :: !OccursAt(p, sep, i)
  }

  function Strs(ps: seq<string>): seq<Value>
  {
    seq(|ps|, i requires 0 <= i < |ps| => Str(ps[i]))
  }

  /** `_::split($string, $separator)`: an empty (or null) separator splits
      into characters, any other separator is handed to `explode`. */
  function Split(text: string, sep: string): Entries
  {
    if |sep| == 0 then Indexed(Strs(StrSplit(text))) else Indexed(Strs(Explode(text, sep)))
  }

  /** `join($separator)`: the string forms of the values, separated. */
  function Join(s: Entries, sep: string): string
  {
    Implode(StrForms(s), sep)
  }

  lemma {:induction false} ImplodeConsFirst(c: char, ps: seq<string>, sep: string)
    requires |ps| >= 1
    ensures Implode([[c] + ps[0]] + ps[1..], sep) == [c] + Implode(ps, sep)
  {
    var qs := [[c] + ps[0]] + ps[1..];
    assert qs[1..] == ps[1..];
  }

  lemma ImplodeConsEmpty(ps: seq<string>, sep: string)
    requires |ps| >= 1
    ensures Implode([""] + ps, sep) == sep + Implode(ps, sep)
  {
    assert ([""] + ps)[1..] == ps;
  }

  /** Gluing the pieces back with the separator gives the string back. */
  lemma {:induction false} ExplodeImplode(s: string, sep: string)
    requires |sep| > 0
    ensures Implode(Explode(s, sep), sep) == s
    decreases |s|
  {
    if |s| < |sep| {
    } else if s[..|sep|] == sep {
      ExplodeImplode(s[|sep|..], sep);
      ImplodeConsEmpty(Explode(s[|sep|..], sep), sep);
      assert s == s[..|sep|] + s[|sep|..];
    } else {
      ExplodeImplode(s[1..], sep);
      ImplodeConsFirst(s[0], Explode(s[1..], sep), sep);
      assert s == [s[0]] + s[1..];
    }
  }

  lemma ImplodePrefix(ps: seq<string>, sep: string)
    requires |ps| >= 1
    ensures |ps[0]| <= |Implode(ps, sep)| && Implode(ps, sep)[..|ps[0]|] == ps[0]
  {
  }

  /** No piece contains the separator: every occurrence was cut. */
  lemma {:induction false} ExplodePiecesFree(s: string, sep: string)
    requires |sep| > 0
    ensures forall j :: 0 <= j < |Explode(s, sep)| ==> FreeOf(Explode(s, sep)[j], sep)
    decreases |s|
  {
    var r := Explode(s, sep);
    if |s| < |sep| {
    } else if s[..|sep|] == sep {
      ExplodePiecesFree(s[|sep|..], sep);
      assert r[1..] == Explode(s[|sep|..], sep);
    } else {
      var rest := Explode(s[1..], sep);
      ExplodePiecesFree(s[1..], sep);
      var q := [s[0]] + rest[0];
      ExplodeImplode(s, sep);
      ImplodePrefix(r, sep);
      assert r[0] == q;
      forall i: nat ensures !OccursAt(q, sep, i) {
        if i == 0 {
          if |sep| <= |q| {
            assert q[..|sep|] == s[..|sep|];
          }
        } else if i + |sep| <= |q| {
          assert q[i..i + |sep|] == rest[0][i - 1..i - 1 + |sep|];
          assert !OccursAt(rest[0], sep, i - 1);
        }
      }
      forall j | 1 <= j < |r| ensures FreeOf(r[j], sep) {
        assert r[j] == rest[j];
      }
    }
  }

  lemma {:induction false} StrSplitImplode(s: string)
    ensures Implode(StrSplit(s), "") == s
    ensures s != "" ==> |StrSplit(s)| == |s| && forall i :: 0 <= i < |s| ==> StrSplit(s)[i] == [s[i]]
  {
    if |s| > 1 {
      StrSplitImplode(s[1..]);
      var r := StrSplit(s);
      assert r[1..] == StrSplit(s[1..]);
      assert s == [s[0]] + s[1..];
    }
  }

  /** Joining the pieces of a split with the same separator gives back the
      original string. */
  lemma SplitJoin(text: string, sep: string)
    ensures Join(Split(text, sep), sep) == text
  {
    var ps := if |sep| == 0 then StrSplit(text) else Explode(text, sep);
    assert StrForms(Split(text, sep)) == ps;
    if |sep| == 0 {
      StrSplitImplode(text);
    } else {
      ExplodeImplode(text, sep);
    }
  }

  /** The pieces of a split by a non-empty separator contain no separator. */
  lemma SplitPieces(text: string, sep: string)
    requires |sep| > 0
    ensures Dense(Split(text, sep))
    ensures forall i :: 0 <= i < |Split(text, sep)| ==>
      Split(text, sep)[i].1.Str? && FreeOf(Split(text, sep)[i].1.s, sep)
  {
    ExplodePiecesFree(text, sep);
  }

  /** A string with no separator in it explodes into itself. */
  lemma {:induction false} ExplodeFree(s: string, sep: string)
    requires |sep| > 0 && FreeOf(s, sep)
    ensures Explode(s, sep) == [s]
    decreases |s|
  {
    if |s| >= |sep| {
      assert !OccursAt(s, sep, 0);
      forall i: nat ensures !OccursAt(s[1..], sep, i) {
        assert !OccursAt(s, sep, i + 1);
        if i + |sep| <= |s[1..]| {
          assert s[1..][i..i + |sep|] == s[i + 1..i + 1 + |sep|];
        }
      }
      ExplodeFree(s[1..], sep);
      assert s == [s[0]] + s[1..];
    }
  }

  /** The first piece ends at the leftmost occurrence of the separator. */
  lemma {:induction false} ExplodeCut(a: string, b: string, sep: string)
    requires |sep| > 0
    requires forall i :: 0 <= i < |a| ==> !OccursAt(a + sep + b, sep, i)
    ensures Explode(a + sep + b, sep) == [a] + Explode(b, sep)
    decreases |a|
  {
    var s := a + sep + b;
    if a == [] {
      assert s[..|sep|] == sep && s[|sep|..] == b;
    } else {
      assert !OccursAt(s, sep, 0);
      assert s[1..] == a[1..] + sep + b;
      forall i | 0 <= i < |a[1..]| ensures !OccursAt(a[1..] + sep + b, sep, i) {
        assert !OccursAt(s, sep, i + 1);
        assert s[i + 1..i + 1 + |sep|] == s[1..][i..i + |sep|];
      }
      ExplodeCut(a[1..], b, sep);
      assert a == [a[0]] + a[1..];
    }
  }

  /** For a one-character separator, "no occurrence" means "not in it". */
  lemma FreeOfChar(s: string, c: char)
    ensures FreeOf(s, [c]) <==> c !in s
  {
    if c in s {
      var i :| 0 <= i < |s| && s[i] == c;
      assert OccursAt(s, [c], i);
    } else {
      forall i: nat ensures !OccursAt(s, [c], i) {
        if i + 1 <= |s| { assert s[i..i + 1] == [s[i]]; }
      }
    }
  }

  /** With a one-character separator the first piece is everything before
      the first occurrence of that character. */
  lemma ExplodeCutChar(a: string, b: string, c: char)
    requires c !in a
    ensures Explode(a + [c] + b, [c]) == [a] + Explode(b, [c])
  {
    forall i | 0 <= i < |a| ensures !OccursAt(a + [c] + b, [c], i) {
      assert (a + [c] + b)[i..i + 1] == [a[i]];
    }
    ExplodeCut(a, b, [c]);
  }

  /** Words without the separator character split back into those words:
      `_::split('foo bar baz', ' ')` is `['foo', 'bar', 'baz']`. */
  lemma SplitWords(a: string, b: string, c: string, sp: char)
    requires sp !in a && sp !in b && sp !in c
    ensures Vals(Split(a + [sp] + b + [sp] + c, [sp])) == [Str(a), Str(b), Str(c)]
  {
    ExplodeCutChar(a, b + [sp] + c, sp);
    ExplodeCutChar(b, c, sp);
    FreeOfChar(c, sp);
    ExplodeFree(c, [sp]);
    assert a + [sp] + b + [sp] + c == a + [sp] + (b + [sp] + c);
    assert Explode(a + [sp] + b + [sp] + c, [sp]) == [a, b, c];
  }
}
