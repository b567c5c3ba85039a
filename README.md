# underscore (PHP) — a Dafny model of the `_` container

The PHP library `thinkingmedia/underscore` provides one class, `_`. It is a
chainable wrapper around a single private PHP array, `$container`. This
project models that class and proves properties of the model.

A PHP array is modelled as an ordered sequence of `(key, value)` entries
(`PhpArrays.Entries`). A key is an integer or a string. A value is null, a
boolean, an integer, a string or a nested array (`PhpValues.Value`).

The modules follow the groups of methods in `src/_.php`:

- `PhpValues` holds keys and values, the `(bool)` cast, the `=== true` /
  `=== false` test as a three-way verdict, the conversions of a value into
  an array key or a string, and a total order on values.
- `PhpArrays` holds the array primitives the methods are built from:
  - lookup and assignment (`$a[$k]`, `$a[$k] = $v`, `$a[] = $v`);
  - `array_values`;
  - the renumbering done by `array_shift`, `array_unshift`,
    `array_reverse`, `array_slice` and `array_merge`;
  - the bounds `array_slice` computes.
- `Text`: `split` and `join`.
- `Slicing`: `first`, `skip`, `slice`, `last`.
- `ListOps`: `map`, `select`, `reject`, `without`, `uniq`/`distinct`,
  `chunk`, `flatten`, `transpose`.
- `Merging`: `concat`, `flatMap`, `combine`, `dict`.
- `Grouping` specifies the groups `groupBy` and `partition` build.
- `Ordering`: `reverse`, `sort`, `sortBy`. `Sorting` holds the sort order
  they use, as an insertion sort proved sorted and a permutation.
- `Folds`: `inject`, `reduce`, `has`, `indexOf`.
- `Underscore` holds the class `Container`, whose `entries` field is
  `$container`. Its methods are:
  - the constructor and `create`;
  - the loops `all`, `any`, `none`, `find`, `max`, `min`, `groupBy` and
    `partition`, each proved against a specification function;
  - the `ArrayAccess` methods;
  - the in-place methods `push`, `pop`, `shift`, `unshift`, `snip` and
    `rotate`.

A method that returns a new `_` is modelled as a function from the
container's entries to the new container's entries.

## Model

| member | source | states |
|---|---|---|
| Underscore.Container.constructor | src/_.php:19-33 | the new container holds exactly the given array |
| Underscore.Container.Create | src/_.php:19-43 | an array is wrapped as it is; another instance's array is copied into a fresh container; anything else fails with `InvalidArgumentException('Expected an array or _ instance')`, and only then |
| Text.Split | src/_.php:54-64 | `split($text, $sep)`: `str_split` for an empty separator, `explode` otherwise, as a list of strings; its properties are stated by `Text.SplitJoin` and `Text.SplitPieces` |
| Text.Join | src/_.php:331-334 | `join($sep)`: `implode` of the values' string forms; `Text.SplitJoin` proves it undoes `split` |
| Text.SplitJoin | src/_.php:54-64 | `join(sep)` of `split(text, sep)` gives `text` back, for an empty separator (`str_split`) and a non-empty one (`explode`) alike |
| Text.ExplodeImplode | src/_.php:62 | `implode` of `explode` with the same non-empty separator is the identity |
| Text.StrSplitImplode | src/_.php:58 | `str_split` gives one piece per character, or one empty piece for the empty string; gluing them with "" gives the string |
| Text.SplitPieces | src/_.php:54-64 | a split by a non-empty separator is a list of strings, none of which contains the separator |
| Text.ExplodeCut | src/_.php:62 | the first piece of `explode` ends at the leftmost occurrence of the separator |
| Text.ExplodeFree | src/_.php:62 | a string without the separator explodes into itself |
| Text.SplitWords | src/_.php:54-64 | three words joined by a separator character split back into exactly those three words |
| Underscore.Container.All | src/_.php:76-87 | true exactly when no callback result (given value and key) is identical to `false`; true on an empty container |
| Underscore.Container.Any | src/_.php:99-110 | true exactly when some callback result is identical to `true` |
| Underscore.Container.None | src/_.php:425-428 | true exactly when no callback result is identical to `true`, i.e. the negation of `any` |
| Underscore.Container.Find | src/_.php:197-208 | the value of the first entry whose callback result is not identical to `false`; null when every result is `false` |
| ListOps.Chunk | src/_.php:119-122 | `chunk($n)`: `array_chunk` without preserved keys; its properties are stated by `ListOps.ChunkSpec` |
| ListOps.ChunkSpec | src/_.php:119-122 | a list of arrays whose concatenation is the values; there are ceil(count / n) of them |
| ListOps.ChunksSpec | src/_.php:121 | every chunk but the last has exactly n values, the last has 1 to n, and together they are the values in order |
| Merging.Combine | src/_.php:131-134 | `combine($values)`: `array_combine` of the container's values as keys with the argument's values; its properties are stated by `Merging.CombineSpec` |
| Merging.CombineSpec | src/_.php:131-134 | keys are distinct and in order of first occurrence; each key maps to the value paired with its last occurrence; with no repeated key the pairs are the result |
| Merging.Concat | src/_.php:144-147 | `concat($other)`: `array_merge`; its properties are stated by `Merging.ConcatRenumbers`, `ConcatLists`, `ConcatGetStr` and `ConcatDistinct` |
| Merging.ConcatRenumbers | src/_.php:144-147 | without a string key in common, `concat` is the concatenation with integer keys renumbered 0, 1, 2, ... and string keys kept |
| Merging.ConcatLists | src/_.php:144-147 | concatenating two lists gives the list of both lists' values |
| Merging.ConcatGetStr | src/_.php:146 | under a string key, the argument's value overrides the container's |
| Merging.ConcatDistinct | src/_.php:146 | the result never holds a key twice |
| Merging.MergeRenumbers | src/_.php:146 | `array_merge` onto an array whose next index is n appends the entries, integer keys renumbered from n |
| Merging.MergeGetStr | src/_.php:146 | under a string key, the last entry merged wins |
| Merging.Dict | src/_.php:154-163 | `dict()`: the loop assigning `$m[pair[0]] = pair[1]` for each pair; its properties are stated by `Merging.DictSpec` |
| Merging.DictSpec | src/_.php:154-163 | each pair `[k, v]` assigns `$m[k] = v` in turn: a later pair overwrites an earlier one, keys appear in order of first occurrence |
| ListOps.Uniq | src/_.php:169-172 | `distinct()` and `uniq()`: `array_unique` with `SORT_REGULAR`; its properties are stated by `ListOps.UniqSpec` |
| ListOps.UniqSpec | src/_.php:169-172 | an entry is kept, with its original key, exactly when its value does not occur earlier; the values are the first occurrences in order |
| ListOps.UniqIdempotent | src/_.php:779-782 | applying `uniq` twice is applying it once |
| ListOps.UniqOfDistinct | src/_.php:779-782 | with no repeated value `uniq` changes nothing |
| Merging.FlatMap | src/_.php:230-236 | `flatMap($callback)`: `array_merge` of the callback results onto an accumulator, value by value; its properties are stated by `Merging.FlatMapLists` |
| Merging.FlatMapLists | src/_.php:230-236 | when the callback returns lists, `flatMap` is the list of all their values, in order |
| Merging.FlatMapFromDistinct | src/_.php:232-235 | the accumulated array never holds a key twice |
| ListOps.Flatten | src/_.php:244-254 | `flatten()`: the leaves of the nested arrays, in order, as a list; its properties are stated by `ListOps.FlattenSpec` |
| ListOps.FlattenSpec | src/_.php:244-254 | the result is a list without nested arrays; a flat container flattens to its own values; flattening twice is flattening once |
| ListOps.FlattenAppend | src/_.php:248-251 | flattening works element by element |
| Underscore.Container.GroupBy | src/_.php:271-281 | the loop builds exactly the groups `Grouping.GroupBy` specifies |
| Grouping.GroupBy | src/_.php:271-281 | the groups `groupBy($callback)` builds; its properties are stated by `Grouping.GroupBySpec` |
| Grouping.GroupBySpec | src/_.php:271-281 | a key has a group exactly when some value's callback result is that key; a value is in the group of k exactly when its result is k; groups are in order of first key |
| Grouping.BucketGet | src/_.php:277 | each key seen has a group holding exactly the values filed under it, in order; no other group exists |
| Grouping.BucketKeys | src/_.php:277 | groups appear once each, in order of first key |
| Folds.Has | src/_.php:288-291 | `has($element)`: `in_array`; `Folds.IndexOfSpec` relates it to `indexOf` |
| Folds.IndexOf | src/_.php:301-305 | `indexOf($element)` as written: `array_search(...) ?: null`; its properties are stated by `Folds.IndexOfSpec` and `Folds.IndexOfFirstOfList` |
| Folds.IndexOfSpec | src/_.php:301-305 | the intended `indexOf` is null exactly when `has` is false, and otherwise the key of the first occurrence; the written one agrees except on falsy keys |
| Folds.IndexOfFirstOfList | src/_.php:303-304 | as written, an element at key 0 is reported as null |
| Folds.Search | src/_.php:303 | `array_search` gives the first position holding the element, or none |
| Folds.Inject | src/_.php:315-321 | `inject($memo, $callback)`: `array_reduce` from the given memo; its properties are stated by `Folds.InjectAppend` and `Folds.InjectCollect` |
| Folds.Reduce | src/_.php:562-568 | `reduce($callback, $initial)`: `array_reduce` from the initial value; its properties are stated by `Folds.InjectAppend` |
| Folds.InjectAppend | src/_.php:315-321 | `inject` and `reduce` over two arrays in sequence fold the second from the result of the first |
| Folds.InjectCollect | src/_.php:315-321 | injecting into an empty list with a collecting callback rebuilds the values in order |
| Folds.FoldIsFoldFromEnd | src/_.php:317-320 | the fold's last callback call receives the fold of all earlier values |
| Slicing.First | src/_.php:217-220 | `first($n)`: `array_slice($c, 0, $n)`; its properties are stated by `Slicing.FirstSkip` and `Slicing.FirstSkipNegative` |
| Slicing.Skip | src/_.php:671-674 | `skip($n)`: `array_slice($c, $n)`; its properties are stated by `Slicing.FirstSkip` and `Slicing.FirstSkipNegative` |
| Slicing.FirstSkip | src/_.php:217-220 | for n >= 0, `first(n)` holds the first min(n, count) values and `skip(n)` the rest; keys stay distinct |
| Slicing.FirstSkipNegative | src/_.php:671-674 | a negative n counts from the end in `first` and `skip` |
| Slicing.FirstOfList | src/_.php:217-220 | `first(n)` of a list is the list of its first values |
| Slicing.Last | src/_.php:343-346 | `last($n)` as written: `array_values(array_slice($c, count - $n))`; its properties are stated by `Slicing.LastInRange`, `Slicing.LastNonPositive` and `Slicing.LastBeyondCount` |
| Slicing.LastInRange | src/_.php:343-346 | for 0 <= n <= count, `last(n)` is the list of the last n values |
| Slicing.LastNonPositive | src/_.php:343-346 | a non-positive n gives the empty list |
| Slicing.LastBeyondCount | src/_.php:345 | as written, count < n < 2 count yields only the last n - count values |
| Slicing.LastBeyondCountExample | src/_.php:345 | `[1, 2, 3, 4]->last(6)` is `[3, 4]` |
| Slicing.LastIntendedSpec | src/_.php:343-346 | the intended `last(n)` is the last min(n, count) values and agrees with the written one for 0 <= n <= count |
| ListOps.Map | src/_.php:359-365 | `map($callback)`: `array_filter` of `array_map`, as a list; its properties are stated by `ListOps.MapSpec` |
| ListOps.MapSpec | src/_.php:359-365 | a list of the truthy callback results; its length is the count exactly when no result is falsy, and then it is every result in order |
| ListOps.MapAppend | src/_.php:359-365 | mapping works element by element |
| Underscore.Container.Max | src/_.php:375-390 | the loop returns the value at `ArgMax`; null on an empty container |
| Underscore.ArgMax | src/_.php:380-387 | the position has the largest callback result, and no earlier position reaches it |
| Underscore.ArgMaxUnique | src/_.php:380-387 | that first largest position is the only position with both properties |
| Underscore.Container.Min | src/_.php:400-415 | the loop returns the value at `ArgMin`; null on an empty container |
| Underscore.ArgMin | src/_.php:405-412 | the position has the smallest callback result, and no earlier position reaches it |
| Underscore.MinIsMaxNegated | src/_.php:400-415 | `min` with a callback picks the position `max` picks with the negated callback |
| Underscore.Container.OffsetExists | src/_.php:433-436 | true exactly when the key is present with a non-null value |
| Underscore.IssetIff | src/_.php:435 | `isset` is the key being present with a non-null value |
| Underscore.Container.OffsetGet | src/_.php:441-444 | the value under the key, or null when the key is absent |
| Underscore.Container.OffsetSet | src/_.php:449-452 | the container becomes the array with `$container[key] = value` applied, keys still distinct |
| PhpArrays.PutGet | src/_.php:451 | after `$a[k] = v`, k maps to v and every other key keeps its value |
| Underscore.OffsetSetNullKey | src/_.php:449-452 | as written, `$c[] = $v` stores under the key "" and does not append |
| Underscore.Container.OffsetSetIntended | src/_.php:449-452 | the intended `offsetSet`: a null offset appends like `push`, any other assigns |
| Underscore.OffsetSetIntendedList | src/_.php:449-452 | with the intended `offsetSet`, `$c[] = $v` on a list extends the list by v |
| Underscore.Container.OffsetUnset | src/_.php:457-465 | the key is removed only when `isset` holds; the container is re-indexed to a list in every case |
| Underscore.RemoveSpec | src/_.php:461 | `unset` drops that key, keeps every other key's value, and shortens the array by one exactly when the key was present |
| Underscore.UnsetList | src/_.php:457-465 | unsetting index i of a list, then re-indexing, closes the gap and keeps the order |
| Underscore.Container.Partition | src/_.php:475-485 | the loop builds exactly the groups `Grouping.Partition` specifies |
| Grouping.Partition | src/_.php:475-485 | the groups `partition($callback)` builds; its properties are stated by `Grouping.PartitionSpec` |
| Grouping.PartitionSpec | src/_.php:475-485 | only groups 0 and 1 exist, each exactly when some value falls into it, holding its values in order |
| Grouping.PartitionGroups | src/_.php:481 | group 0 holds the values with a truthy result and group 1 the others; together they hold every value once |
| Underscore.Container.Pop | src/_.php:516-519 | removes and returns the last value, keys otherwise unchanged; null on an empty container |
| Underscore.Container.Push | src/_.php:547-552 | appends at the next free integer index and returns the same instance |
| Underscore.PushPop | src/_.php:516-552 | `pop` after `push($x)` returns x and restores the array |
| Underscore.PushList | src/_.php:549 | `push` onto a list gives the list extended by the value |
| PhpArrays.AppendIndexed | src/_.php:549 | `$a[] = $v` on a list appends v at index count |
| ListOps.Reject | src/_.php:578-584 | `reject($callback)`: the values whose result is identical to `false`; its properties are stated by `ListOps.SelectReject` |
| ListOps.Select | src/_.php:633-639 | `select($callback)`: the values whose result is identical to `true`; its properties are stated by `ListOps.SelectReject` |
| ListOps.SelectReject | src/_.php:578-584 | `select` keeps exactly the values whose result is `true`, `reject` exactly those whose result is `false`; together they cover every value exactly when every result is boolean |
| ListOps.SelectAppend | src/_.php:633-639 | both keep relative order |
| Ordering.Reverse | src/_.php:591-594 | `reverse()`: `array_reverse`, integer keys renumbered; its properties are stated by `Ordering.ReverseSpec` |
| Ordering.ReverseSpec | src/_.php:591-594 | the values come out reversed and keys stay distinct; a list reverses into the list of its reversed values |
| Ordering.ReverseTwice | src/_.php:593 | reversing twice renumbers the integer keys; a list comes back unchanged |
| Underscore.RotateResult | src/_.php:603-613 | what `rotate($pivot)` as written returns; its properties are stated by `Underscore.RotateAsWritten` and `Underscore.RotateLosesRepeated` |
| Underscore.Container.Rotate | src/_.php:603-613 | returns `skip(pivot)` merged with `snip(pivot)` after a negative pivot is counted from the end, and leaves the container cut down to the values before the pivot |
| Underscore.RotateIntendedSpec | src/_.php:603-613 | the intended rotation holds the values from the pivot on, then the values before it: the same values, rearranged |
| Underscore.RotateIntendedList | src/_.php:603-613 | on a list and a pivot in range, the intended rotation is the rotated list |
| Underscore.RotateAsWritten | src/_.php:610-612 | the written rotation equals the intended one when no value before the pivot shares a string form with one from the pivot on |
| Underscore.RotateLosesRepeated | src/_.php:610-612 | as written, `["a", "b", "a"]->rotate(1)` has two values, not three |
| Underscore.Container.Shift | src/_.php:646-649 | removes and returns the first value (null when empty); the remaining integer keys are renumbered from 0 |
| Underscore.ShiftUnshiftList | src/_.php:646-649 | on a list, `shift` leaves the list of the remaining values, and `unshift` of the shifted value restores the list |
| Slicing.Slice | src/_.php:685-688 | `slice($offset, $length)`: `array_slice` as a list; its properties are stated by `Slicing.SliceWindow` and `Slicing.SliceFromEnd` |
| Slicing.SliceWindow | src/_.php:685-688 | in range, `slice(offset, length)` is exactly that window of values, as a list |
| Slicing.SliceFromEnd | src/_.php:685-688 | a negative offset with a null length takes that many values from the end |
| Underscore.SnipResult | src/_.php:698-701 | what `snip($n)` as written returns; its properties are stated by `Underscore.SnipSpec` and `Underscore.SnipDropsRepeated` |
| Underscore.Container.Snip | src/_.php:698-701 | the container keeps the entries before the offset, integer keys renumbered; the result is those entries `without` the removed ones |
| Underscore.SnipKeptSpec | src/_.php:700 | what `snip` leaves in the container are the values before the offset, keys distinct |
| Underscore.SnipSpec | src/_.php:698-701 | a value is returned exactly when it is before the offset and its string form matches no removed value; with no such match the result is the kept list |
| Underscore.SnipApart | src/_.php:698-701 | when no kept value matches a removed one, `snip` returns exactly the kept values |
| Underscore.SnipDropsRepeated | src/_.php:700 | as written, `["a", "b", "a"]->snip(2)` returns `["b"]` |
| Underscore.SnipIntendedSpec | src/_.php:698-701 | the intended `snip` returns the list of the values before the offset, which with the removed values make up all the values |
| Ordering.Sort | src/_.php:708-714 | `sort()`: the values in ascending order, as a list; its properties are stated by `Ordering.SortSpec` and `Ordering.SortUnique` |
| Ordering.SortSpec | src/_.php:708-714 | `sort` returns a list that is sorted and a permutation of the values; sorting again changes nothing |
| Ordering.SortUnique | src/_.php:708-714 | any sorted arrangement of the values is the result of `sort` |
| Sorting.InsertionSortSpec | src/_.php:711 | the sort is ordered by the key function and is a permutation of its input |
| Sorting.SortedUnique | src/_.php:711 | two sorted permutations of each other under an injective key are equal |
| Ordering.SortBy | src/_.php:724-734 | `sortBy($callback)`: `ksort` of `array_combine` of the callback results with the values, as a list; its properties are stated by `Ordering.SortByKeys`, `Ordering.SortByValues` and `Ordering.SortByPermutation` |
| Ordering.CombinedSpec | src/_.php:726-729 | the array handed to `ksort` holds each computed key once, in order of first occurrence, with the last element that computed it; with distinct keys every element is kept |
| Ordering.KSortSpec | src/_.php:731 | `ksort` gives the same entries in strictly ascending key order |
| Ordering.SortByKeys | src/_.php:724-734 | `sortBy` yields one value per distinct computed key, in strictly ascending key order |
| Ordering.SortByValues | src/_.php:724-734 | `sortBy` yields a list whose i-th value is the last element whose computed key is the i-th smallest |
| Ordering.SortByPermutation | src/_.php:724-734 | with pairwise distinct computed keys, `sortBy` is a permutation of the values |
| ListOps.Transpose | src/_.php:767-772 | `transpose()`: `array_map(null, ...$rows)`; its properties are stated by `ListOps.TransposeSpec`, `ListOps.TransposeRagged` and `ListOps.TransposeTwice` |
| ListOps.TransposeSpec | src/_.php:767-772 | for at least two rows of equal length n, the result is a list of n columns with `result[j][i] == rows[i][j]` |
| ListOps.TransposeRagged | src/_.php:767-772 | on rows of any lengths there are as many columns as the longest row has values, each column has one entry per row, and row i read down the columns is row i padded with nulls |
| ListOps.TransposeTwice | src/_.php:767-772 | transposing a rectangular table with at least two rows and at least two columns twice gives back its rows (a single row or column is passed through by `array_map(null, $row)` rather than zipped) |
| Underscore.Container.Unshift | src/_.php:792-797 | inserts the value at the front, integer keys renumbered, and returns the same instance |
| Underscore.UnshiftKeys | src/_.php:794 | after `array_unshift` the new value is at key 0, the other integer keys are shifted up by one, and keys stay distinct |
| Underscore.UnshiftShift | src/_.php:792-797 | `shift` after `unshift($x)` returns x; a list comes back unchanged |
| ListOps.Without | src/_.php:807-810 | `without($filter)`: `array_diff` of the values against the array `$filter`, as a list; its properties are stated by `ListOps.WithoutSpec` |
| ListOps.WithoutSpec | src/_.php:807-810 | `without` keeps, as a list, exactly the values whose string form matches no filter value; with nothing to remove it is `array_values` |
| ListOps.WithoutAppend | src/_.php:807-810 | `without` works element by element |

## Left out

- `pluck` is not part of this model: it depends on Symfony's `PropertyAccess`.
- `sum` and `product` are not part of this model: they compute in floating point.
- `shuffle` and `sample` are not part of this model: they depend on randomness.
- `getIterator` and `each` are not part of this model: they are iterator plumbing and side effects of callbacks.
- `toArray` has no member of its own: it is the `entries` field.
- Loose comparison is replaced by structural equality. This affects `has` and `indexOf` (`in_array`, `array_search`) and `uniq` (`array_unique` with `SORT_REGULAR`).
- Values of different types are ordered by a fixed type order (null < bool < int < string < array), not by PHP's conversions. Booleans, integers and arrays of one type compare as PHP compares them.
- Strings are ordered character by character, in `Ordering.Sort`, `Ordering.KSort` and `Ordering.SortBy` alike. PHP orders two numeric strings by number instead ("9" < "10", "9.5" < "10.5"). That order is not a total order: "9" < "10" by number, "10" < "1a" and "1a" < "9" as text. So PHP's `sort` of such strings depends on the algorithm, and the model does not follow it.
- Ordering.SortSpec: sorted in the model's string order, which puts "10" before "9"; PHP's `sort` puts "9" first.
- Ordering.SortUnique: the unique sorted arrangement is the one in the model's string order, not PHP's numeric-string order.
- Ordering.KSortSpec: keys ascend in the model's key order, where string keys such as "9.5" and "10.5" compare as text; `ksort` compares them as numbers.
- Ordering.SortByKeys: computed keys ascend in the model's key order, with numeric string keys compared as text.
- Ordering.SortByValues: "the i-th smallest key" is meant in the model's key order, with numeric string keys compared as text.
- Text.StrSplitImplode: one piece per character, where a character stands for one byte. PHP strings are byte strings, and `str_split("é")` gives two one-byte pieces; the model has no encoding, so a text is taken to be its sequence of bytes.
- Integers are unbounded. PHP integers are 64-bit: `$c[] = $v` fails once the next index would pass `PHP_INT_MAX`, and `count - $n` in `last` turns into a float for n near `PHP_INT_MIN`. The model assumes every integer stays within 64 bits.
- Underscore.Container.Push: appends at the next free index with no upper bound; PHP fails when that index would pass `PHP_INT_MAX`.
- Numeric strings are not turned into integer keys. This affects `groupBy`, `combine`, `sortBy`, `dict` and the `ArrayAccess` methods.
- A nested array is modelled as the list of its values. Its own keys are not modelled.
- The next free integer index is computed from the keys present. PHP keeps a hidden counter, which can differ after keys have been removed.
- Callbacks are pure functions. The number and order of their calls is not modelled, except in the loops of `all`, `any`, `find`, `max`, `min`, `groupBy` and `partition`.
- Underscore.Container.Max: the callback result is an integer, because `>` on mixed results is PHP's loose comparison. On an empty container PHP also calls the callback once with null; the model returns null without that call.
- Underscore.Container.Min: the same restriction as for `max`.
- Merging.Dict: every value must be an array of at least two items, as the doc comment's "array of key/value pairs" asks, and its first item must not be an array (PHP raises an illegal offset error for that). PHP also accepts other values without an error: it reads a string of two or more characters as the pair of its first two characters, and (before PHP 7.4) reads a scalar as null, storing null under "".
- Merging.DictSpec: states the result only for values that are arrays of at least two items, for the same reason.
- The model follows PHP 7 where PHP versions differ. From PHP 8.2, `str_split("")` gives an empty array, not `[""]`. From PHP 8.3, the next index after only negative keys is one more than the largest key, not 0 (`PhpArrays.NextFree`).
- PHP errors and warnings on bad input are preconditions. This covers:
  - `chunk` with n < 1;
  - `combine` with counts that differ;
  - `sortBy` with a falsy callback result, which makes the counts given to `array_combine` differ;
  - `transpose` of an empty container or of a value that is not an array;
  - `groupBy` with a callback result that is an array;
  - `ArrayAccess` with an array offset.
- `join` converts values with `(string)`. An array converts to "Array", and the notice PHP emits is not modelled.
- Underscore.Container.Rotate: returns the entries of the new container. Its creation through `create` and `concat` is folded into `Merging.Concat`.

## Findings

| source | as written | input that shows it | evidently intended | confidence | as-written member | corrected member |
|---|---|---|---|---|---|---|
| src/_.php:345 | `array_slice($a, count - n)` with n > count gives a negative offset, which counts back from the end | `[1, 2, 3, 4]->last(6)` gives `[3, 4]` | all four values | not executed; follows from `array_slice`'s documented handling of negative offsets | Slicing.LastBeyondCountExample | Slicing.LastIntendedSpec |
| src/_.php:303-304 | `?:` turns every falsy key into null, including key 0 | `[1, 2, 3, 4]->indexOf(1)` gives null, though 1 is at key 0 | 0 | not executed; follows from the semantics of `?:` | Folds.IndexOfFirstOfList | Folds.IndexOfSpec |
| src/_.php:449-452 | `$c[] = $v` calls `offsetSet(null, $v)`, and `$container[null]` is the key "" | `$c = _::create([1]); $c[] = 2;` holds `[0 => 1, "" => 2]` | `[0 => 1, 1 => 2]`, as `push` gives | not executed; follows from the `ArrayAccess` contract | Underscore.OffsetSetNullKey | Underscore.OffsetSetIntendedList |
| src/_.php:700 | `without` removes from the kept part every value equal to a removed one | `["a", "b", "a"]->snip(2)` gives `["b"]` | `["a", "b"]` | not executed; follows from `array_diff` | Underscore.SnipDropsRepeated | Underscore.SnipIntendedSpec |
| src/_.php:610-612 | `rotate` goes through `snip`, so it loses repeated values | `["a", "b", "a"]->rotate(1)` gives `["b", "a"]` | `["b", "a", "a"]` | not executed; follows from the `snip` finding | Underscore.RotateLosesRepeated | Underscore.RotateIntendedSpec |
