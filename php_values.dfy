/** The PHP values that flow through a `_` container: array keys, element
    values, PHP's boolean cast, the "=== true / === false" test the callbacks
    are put to, the conversions PHP applies when a value is used as an array
    key or as a string, and the ordering that `sort`, `ksort` and `max`/`min`
    rely on. */
module PhpValues {

  datatype Option<+T> = None | Some(value: T)

  /** A PHP array key: an integer or a string. */
  datatype Key = IntKey(i: int) | StrKey(s: string)

  /** A PHP value as far as the container needs it. A nested PHP array is
      kept as the list of its values (its own keys are not modelled). */
  datatype Value =
    | Null
    | Bool(b: bool)
    | Int(n: int)
    | Str(s: string)
    | Arr(items: seq<Value>)

  /** PHP's `(bool)` cast: null, false, 0, "", "0" and the empty array are
      falsy, everything else is truthy. */
  predicate Truthy(v: Value)
  {
    match v
    case Null => false
    case Bool(b) => b
    case Int(n) => n != 0
    case Str(s) => s != "" && s != "0"
    case Arr(xs) => xs != []
  }

  /** The three outcomes a callback result can have when the container
      compares it with `=== true` and `=== false`. */
  datatype Verdict = MatchTrue | MatchFalse | Other

  function Classify(v: Value): Verdict
  {
    if v == Bool(true) then MatchTrue
    else if v == Bool(false) then MatchFalse
    else Other
  }

  /** The key PHP uses for `$a[$v]`: null becomes "", booleans become 0 or 1,
      and an array is an illegal offset (None). Numeric strings are NOT
      turned into integer keys in this model. */
  function OffsetKey(v: Value): Option<Key>
  {
    match v
    case Null => Some(StrKey(""))
    case Bool(b) => Some(IntKey(if b then 1 else 0))
    case Int(n) => Some(IntKey(n))
    case Str(s) => Some(StrKey(s))
    case Arr(_) => None
  }

  /** The key `array_combine` makes of a value: integers stay integers,
      everything else goes through its string form. */
  function CombineKey(v: Value): Key
  {
    match v
    case Int(n) => IntKey(n)
    case _ => StrKey(StrOf(v))
  }

  /** A key seen as a value (for comparisons and truthiness). */
  function KeyValue(k: Key): Value
  {
    match k
    case IntKey(i) => Int(i)
    case StrKey(s) => Str(s)
  }

  function DigitChar(d: nat): char
    requires d < 10
  {
    (48 + d) as char
  }

  function Digits(n: nat): string
  {
    if n < 10 then [DigitChar(n)] else Digits(n / 10) + [DigitChar(n % 10)]
  }

  /** Decimal form of an integer, as PHP prints it. */
  function IntToString(n: int): string
  {
    if n < 0 then "-" + Digits(-n) else Digits(n)
  }

  /** PHP's `(string)` conversion (used by `implode` and `array_combine`). */
  function StrOf(v: Value): string
  {
    match v
    case Null => ""
    case Bool(b) => if b then "1" else ""
    case Int(n) => IntToString(n)
    case Str(s) => s
    case Arr(_) => "Array"
  }

  // ---------------------------------------------------------------------
  // Ordering. Booleans compare false < true, integers numerically and
  // arrays first by element count and then element by element, as in PHP.
  // Strings compare character by character; PHP does that too unless both
  // strings are numeric, which it compares as numbers ("9" < "10"). PHP
  // compares values of different types loosely (after conversions); the
  // model orders them by type instead: null < bool < int < string < array.
  // ---------------------------------------------------------------------

  function Rank(v: Value): nat
  {
    match v
    case Null => 0
    case Bool(_) => 1
    case Int(_) => 2
    case Str(_) => 3
    case Arr(_) => 4
  }

  function Sign(d: int): int
  {
    if d < 0 then -1 else if d > 0 then 1 else 0
  }

  /** Lexicographic comparison of strings: -1, 0 or 1. */
  function CmpStr(x: string, y: string): (r: int)
    ensures -1 <= r <= 1
  {
    if x == [] then (if y == [] then 0 else -1)
    else if y == [] then 1
    else if x[0] < y[0] then -1
    else if x[0] > y[0] then 1
    else CmpStr(x[1..], y[1..])
  }

  /** Three-way comparison of two values: -1, 0 or 1. */
  function Cmp(a: Value, b: Value): (r: int)
    ensures -1 <= r <= 1
  {
    if Rank(a) != Rank(b) then Sign(Rank(a) - Rank(b))
    else match (a, b)
      case (Bool(x), Bool(y)) => if x == y then 0 else if y then -1 else 1
      case (Int(x), Int(y)) => Sign(x - y)
      case (Str(x), Str(y)) => CmpStr(x, y)
      case (Arr(xs), Arr(ys)) =>
        if |xs| != |ys| then Sign(|xs| - |ys|) else CmpSeq(xs, ys)
      case _ => 0
  }

  /** Element-by-element comparison of two lists of the same length. */
  function CmpSeq(xs: seq<Value>, ys: seq<Value>): (r: int)
    requires |xs| == |ys|
    ensures -1 <= r <= 1
  {
    if xs == [] then 0
    else
      var c := Cmp(xs[0], ys[0]);
      if c != 0 then c else CmpSeq(xs[1..], ys[1..])
  }

  predicate Leq(a: Value, b: Value)
  {
    Cmp(a, b) <= 0
  }

  /** The order on keys used by `ksort`: integer keys before string keys. */
  function KeyCmp(j: Key, k: Key): int
  {
    Cmp(KeyValue(j), KeyValue(k))
  }

  // ---------------------------------------------------------------------
  // Cmp is a total order: antisymmetric, only equal values compare equal,
  // and transitive.
  // ---------------------------------------------------------------------

  lemma {:induction false} CmpStrFlip(x: string, y: string)
    ensures CmpStr(y, x) == -CmpStr(x, y)
  {
    if x != [] && y != [] && x[0] == y[0] {
      CmpStrFlip(x[1..], y[1..]);
    }
  }

  lemma {:induction false} CmpStrZero(x: string, y: string)
    ensures CmpStr(x, y) == 0 <==> x == y
  {
    if x != [] && y != [] && x[0] == y[0] {
      CmpStrZero(x[1..], y[1..]);
      assert x == [x[0]] + x[1..] && y == [y[0]] + y[1..];
    }
  }

  lemma {:induction false} CmpStrTrans(x: string, y: string, z: string)
    requires CmpStr(x, y) <= 0 && CmpStr(y, z) <= 0
    ensures CmpStr(x, z) <= 0
  {
    if x != [] && y != [] && z != [] && x[0] == y[0] && y[0] == z[0] {
      CmpStrTrans(x[1..], y[1..], z[1..]);
    }
  }

  /** Swapping the operands negates the comparison. */
  lemma {:induction false} CmpFlip(a: Value, b: Value)
    ensures Cmp(b, a) == -Cmp(a, b)
  {
    if Rank(a) == Rank(b) {
      match (a, b)
      case (Str(x), Str(y)) => CmpStrFlip(x, y);
      case (Arr(xs), Arr(ys)) => if |xs| == |ys| { CmpSeqFlip(xs, ys); }
      case _ =>
    }
  }

  lemma {:induction false} CmpSeqFlip(xs: seq<Value>, ys: seq<Value>)
    requires |xs| == |ys|
    ensures CmpSeq(ys, xs) == -CmpSeq(xs, ys)
  {
    if xs != [] {
      CmpFlip(xs[0], ys[0]);
      CmpSeqFlip(xs[1..], ys[1..]);
    }
  }

  /** Two values compare equal exactly when they are the same value. */
  lemma {:induction false} CmpZero(a: Value, b: Value)
    ensures Cmp(a, b) == 0 <==> a == b
  {
    if Rank(a) == Rank(b) {
      match (a, b)
      case (Str(x), Str(y)) => CmpStrZero(x, y);
      case (Arr(xs), Arr(ys)) => if |xs| == |ys| { CmpSeqZero(xs, ys); }
      case _ =>
    }
  }

  lemma {:induction false} CmpSeqZero(xs: seq<Value>, ys: seq<Value>)
    requires |xs| == |ys|
    ensures CmpSeq(xs, ys) == 0 <==> xs == ys
  {
    if xs != [] {
      CmpZero(xs[0], ys[0]);
      CmpSeqZero(xs[1..], ys[1..]);
      assert xs == [xs[0]] + xs[1..] && ys == [ys[0]] + ys[1..];
    }
  }

  /** `Leq` is transitive. */
  lemma {:induction false} CmpTrans(a: Value, b: Value, c: Value)
    requires Cmp(a, b) <= 0 && Cmp(b, c) <= 0
    ensures Cmp(a, c) <= 0
  {
    if Rank(a) == Rank(b) == Rank(c) {
      match (a, b, c)
      case (Str(x), Str(y), Str(z)) => CmpStrTrans(x, y, z);
      case (Arr(xs), Arr(ys), Arr(zs)) =>
        if |xs| == |ys| == |zs| { CmpSeqTrans(xs, ys, zs); }
      case _ =>
    }
  }

  lemma {:induction false} CmpSeqTrans(xs: seq<Value>, ys: seq<Value>, zs: seq<Value>)
    requires |xs| == |ys| == |zs|
    requires CmpSeq(xs, ys) <= 0 && CmpSeq(ys, zs) <= 0
    ensures CmpSeq(xs, zs) <= 0
  {
    if xs != [] {
      var c1, c2 := Cmp(xs[0], ys[0]), Cmp(ys[0], zs[0]);
      CmpZero(xs[0], ys[0]);
      CmpZero(ys[0], zs[0]);
      if c1 == 0 && c2 == 0 {
        CmpSeqTrans(xs[1..], ys[1..], zs[1..]);
      } else {
        CmpTrans(xs[0], ys[0], zs[0]);
        CmpZero(xs[0], zs[0]);
        CmpFlip(xs[0], ys[0]);
      }
    }
  }

  /** Any two values are comparable. */
  lemma CmpTotal(a: Value, b: Value)
    ensures Leq(a, b) || Leq(b, a)
  {
    CmpFlip(a, b);
  }

  /** Distinct keys never compare equal, so `ksort` has no ties. */
  lemma KeyCmpZero(j: Key, k: Key)
    ensures KeyCmp(j, k) == 0 <==> j == k
  {
    CmpZero(KeyValue(j), KeyValue(k));
  }
}
