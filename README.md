# Canonical CBOR map — a Dafny model

This project models `CanonicalMapObject` of the mini-fair-repo package,
written in PHP. It is a CBOR
map (major type 5). Its `__toString` emits the entries in canonical order:
the key with the shorter encoding comes first, and keys of equal length are
ordered bytewise. That is the canonical form of section 3.9 of RFC 7049,
carried forward as section 4.2.3 of RFC 8949 ("Length-First Map Key
Ordering"). These bytes are what signatures are computed over, so they must
be deterministic.

The model follows the PHP class closely:

- `php_array.dfy` models the PHP ordered array that `$this->data` is. It is
  a sequence of (key, value) pairs with distinct keys. It provides the
  lookup behind `array_key_exists`, assignment by key (replace in place, or
  append), `unset` and `array_values`.
- `cbor.dfy` models the CBOR objects the map holds, taken as given. Each
  object has the bytes its `__toString()` returns and, if it is
  `Normalizable`, its normal form. The file also has the initial byte, and
  `LengthCalculator::getLengthOfArray` as a function of the entry count
  following section 3 of RFC 8949. A decoder for the head proves that the
  header it produces reads back as the count.
- `canonical_order.dfy` models the `usort` comparator, with a proof that it
  is the length-first bytewise order. It also models `usort` itself, as the
  stable sort PHP 8 performs followed by re-keying, and the byte layout of
  the map.
- `canonical_map.dfy` holds the class `CanonicalMap`. Its fields are `data`,
  `additionalInformation` and `length`. The class invariant `Valid()` says
  the header always matches `count()`. The file also holds the
  `array_reduce` fold of `normalize` and the foreach loop of `__toString`.
- `scenarios.dfy` holds worked examples that call the class's own methods.
  One is the canonical order of keys "bb", "a", "c"; the others back the
  two findings below.

Three behaviours of the code that the model keeps as they are:

- `__toString` sorts `data` in place and re-keys it, so encoding is not
  read-only.
- The constructor keeps the argument array's own keys and order, and does
  not merge entries whose keys normalise alike.
- Iteration follows the current order of `data`, which after an encoding is
  the canonical order.

## Model

| member | source | states |
|---|---|---|
| `PhpArray.Position` | inc/plc/class-canonicalmapobject.php:145 | the lookup finds the first entry that carries the key, and returns None exactly when no entry carries it |
| `PhpArray.AssignUpserts` | inc/plc/class-canonicalmapobject.php:132 | `Assign`, the model of `$a[$k] = $v`, binds `k` to `v`, leaves every other key's binding alone, replaces an existing entry where it stands or appends a new one (the count grows by one exactly when `k` was absent), and keeps keys distinct |
| `PhpArray.UnsetRemoves` | inc/plc/class-canonicalmapobject.php:158 | `Unset`, the model of `unset`, on a present key makes the count drop by one and the key disappear; the other keys keep their values; the remaining values keep their order |
| `PhpArray.ArrayValuesReindexes` | inc/plc/class-canonicalmapobject.php:159 | `ArrayValues`, the model of `array_values`, keeps the values in order; afterwards exactly the integer keys 0 .. n-1 exist |
| `PhpArray.PositionalIsList` | inc/plc/class-canonicalmapobject.php:86 | the re-keyed list that `usort` (and `array_values`) leaves behind has distinct keys 0 .. n-1 and gives back the values it was built from |
| `Cbor.BigEndianRoundTrip` | inc/plc/class-canonicalmapobject.php:68 | a count written in w big-endian length bytes reads back as the count whenever it fits in w bytes |
| `Cbor.InitialByte` | inc/plc/class-canonicalmapobject.php:96 | the initial byte carries the major type in its top three bits and the additional information in its low five |
| `Cbor.HeadRoundTrip` | inc/plc/class-canonicalmapobject.php:96-99 | the head built from `LengthOfArray(count)`, the model of `getLengthOfArray`, decodes as major type 5 with argument `count`, whatever bytes follow it |
| `Cbor.HeadIsShortest` | inc/plc/class-canonicalmapobject.php:68 | in `LengthOfArray`, counts below 24 sit in the initial byte with no length bytes; larger counts use 1, 2, 4 or 8 bytes (additional information 24 to 27), the fewest that hold them |
| `CanonicalOrder.Strcmp` | inc/plc/class-canonicalmapobject.php:90 | `strcmp` reports equality exactly for equal byte strings |
| `CanonicalOrder.StrcmpIsLexicographic` | inc/plc/class-canonicalmapobject.php:90 | `strcmp` is negative exactly when the first string is lexicographically smaller by unsigned byte value, or is a proper prefix of the second |
| `CanonicalOrder.StrcmpFlip` | inc/plc/class-canonicalmapobject.php:90 | swapping the arguments of `strcmp` negates its result |
| `CanonicalOrder.StrcmpTransitive` | inc/plc/class-canonicalmapobject.php:90 | `strcmp`'s order is transitive |
| `CanonicalOrder.CompareIsLengthFirst` | inc/plc/class-canonicalmapobject.php:86-94 | `Comparator`, the closure passed to `usort`, puts a before b exactly when a's encoded key is shorter, or has the same length and is bytewise smaller; it ties only on equal keys |
| `CanonicalOrder.CompareIsTotalOrder` | inc/plc/class-canonicalmapobject.php:86-94 | the comparator is antisymmetric and transitive, so `usort` has a well-defined result |
| `CanonicalOrder.InsertKeepsSorted` | inc/plc/class-canonicalmapobject.php:86 | inserting one entry into entries in canonical order keeps them in canonical order |
| `CanonicalOrder.SortItemsSortsAndPermutes` | inc/plc/class-canonicalmapobject.php:86-94 | `SortItems`, the sort `usort` performs, returns the same entries, each as often as before, in canonical order |
| `CanonicalOrder.SortItemsStable` | inc/plc/class-canonicalmapobject.php:86 | `SortItems` is stable, as PHP 8's `usort` is: for every encoded key, the entries carrying it come out in the order they went in |
| `CanonicalOrder.SortItemsOfSorted` | inc/plc/class-canonicalmapobject.php:86 | entries already in canonical order are left where they are |
| `CanonicalOrder.SortedUnique` | inc/plc/class-canonicalmapobject.php:86-94 | two canonically ordered sequences holding the same entries are equal, provided entries with equal encoded keys are equal |
| `CanonicalOrder.USortSortsAndReindexes` | inc/plc/class-canonicalmapobject.php:86-94 | `USort`, the model of `usort` on `data`, keeps the count and the entries (as a multiset), puts them in canonical order and re-keys them 0 .. n-1 |
| `CanonicalOrder.USortIdempotent` | inc/plc/class-canonicalmapobject.php:86 | sorting `data` a second time changes nothing |
| `CanonicalOrder.USortOrderIndependent` | inc/plc/class-canonicalmapobject.php:86-94 | two maps holding the same entries in different orders are sorted into the same data, provided entries with equal encoded keys are equal |
| `CanonicalOrder.EncodeItemsAppend` | inc/plc/class-canonicalmapobject.php:100-105 | the bytes of consecutive runs of entries are the concatenation of the runs' bytes |
| `CanonicalOrder.EncodeItemsAt` | inc/plc/class-canonicalmapobject.php:100-105 | each entry contributes its key's bytes and then its value's bytes, between the bytes of the entries before it and those after it |
| `CanonicalOrder.SerializeLayout` | inc/plc/class-canonicalmapobject.php:96-105 | `Serialize`, the bytes `__toString` returns, is a head that decodes to major type 5 and the entry count, followed by the entries in canonical order (a permutation of `data`) |
| `CanonicalOrder.SerializeIdempotent` | inc/plc/class-canonicalmapobject.php:86-107 | encoding the already sorted data gives the same bytes as the first encoding, so a second `__toString` with no change in between returns identical bytes |
| `CanonicalOrder.SerializeOrderIndependent` | inc/plc/class-canonicalmapobject.php:86-105 | the output bytes depend only on which entries there are, not on their insertion order, provided entries with equal encoded keys are equal |
| `CanonicalMapObject.LastValueIsLast` | inc/plc/class-canonicalmapobject.php:231 | the reference lookup for `normalize` returns the normalised value of the last entry filed under the key, and nothing when there is no such entry |
| `CanonicalMapObject.NormalizeFailsAtFirstBadKey` | inc/plc/class-canonicalmapobject.php:224-229 | `NormalizeFrom`, the `array_reduce` fold, fails exactly when some key's `KeyOffset` fails, i.e. when the key is not normalisable (or normalises to a compound value), and it fails with the error of the first such key in iteration order |
| `CanonicalMapObject.NormalizeLastWins` | inc/plc/class-canonicalmapobject.php:224-234 | on success of `NormalizeFrom`, each normalised key is bound to the normalised value (or the raw object) of its last entry, so later colliding keys overwrite earlier ones |
| `CanonicalMapObject.AssignKeepsIndexed` | inc/plc/class-canonicalmapobject.php:132 | filing an entry under its own key's normal form keeps every entry filed under its own key's normal form |
| `CanonicalMapObject.UnsetKeepsIndexed` | inc/plc/class-canonicalmapobject.php:158 | `unset` alone keeps every other entry filed under its own key's normal form |
| `CanonicalMapObject.IndexedKeysUnique` | inc/plc/class-canonicalmapobject.php:132 | while every entry is filed under its own key's normal form, no two entries share a normalised key |
| `CanonicalMapObject.RemoveDeletesOne` | inc/plc/class-canonicalmapobject.php:154-163 | removing a present index deletes exactly that entry, keeps the others in their relative order, re-keys them 0 .. n-2, and drops the count by one |
| `CanonicalMapObject.Assemble` | inc/plc/class-canonicalmapobject.php:96-105 | the foreach concatenation produces the initial byte, then the length bytes when present, then each entry's key bytes and value bytes in order |
| `CanonicalMapObject.CanonicalMap.constructor` | inc/plc/class-canonicalmapobject.php:67-78 | once the element check has passed, the argument array is stored with its own keys and order, and the header matches its count |
| `CanonicalMapObject.CanonicalMap.Create` | inc/plc/class-canonicalmapobject.php:67-78 | construction fails with the "only MapItem objects" error exactly when some element is not a `MapItem`; otherwise entry i is element i under the key it had in the argument array, and the header is consistent |
| `CanonicalMapObject.CanonicalMap.ToString` | inc/plc/class-canonicalmapobject.php:85-108 | `__toString` leaves `data` sorted in place (so `usort` re-keys it), leaves the header unchanged, and returns the canonical encoding of the data held before the call |
| `CanonicalMapObject.CanonicalMap.Encode` | inc/plc/class-canonicalmapobject.php:85-108 | corrected `__toString`: the same bytes, and `data` is not changed |
| `CanonicalMapObject.CanonicalMap.Set` | inc/plc/class-canonicalmapobject.php:187-197 | `set` fails and changes nothing when `KeyOffset` of the key fails (not normalisable, or normalising to a compound value); otherwise it upserts the item under the key's normal form and recomputes the header |
| `CanonicalMapObject.CanonicalMap.Add` | inc/plc/class-canonicalmapobject.php:128-136 | `add` behaves as `set` of the pair: it fails without change on a non-normalisable key, otherwise it upserts and the header follows the new count |
| `CanonicalMapObject.CanonicalMap.Has` | inc/plc/class-canonicalmapobject.php:144-146 | `has` is true exactly when some entry is filed under the index |
| `CanonicalMapObject.CanonicalMap.Get` | inc/plc/class-canonicalmapobject.php:172-178 | `get` fails with "Index not found." exactly when `has` is false; otherwise it returns the value of the entry filed under the index |
| `CanonicalMapObject.CanonicalMap.Remove` | inc/plc/class-canonicalmapobject.php:154-163 | removing an absent index leaves the map unchanged; removing a present one unsets the entry, re-keys the rest with `array_values` and recomputes the header |
| `CanonicalMapObject.CanonicalMap.RemoveKeepingIndex` | inc/plc/class-canonicalmapobject.php:154-163 | corrected `remove`: the index disappears and every other index keeps the value `get` returned for it |
| `CanonicalMapObject.CanonicalMap.Count` | inc/plc/class-canonicalmapobject.php:204-206 | `count` is the number of entries, and in a valid map it is the argument that the header decodes to |
| `CanonicalMapObject.CanonicalMap.GetIterator` | inc/plc/class-canonicalmapobject.php:213-215 | the iterator yields `count()` entries in the current order of `data`, and `get` finds each entry's value again under that entry's key |
| `CanonicalMapObject.CanonicalMap.Normalize` | inc/plc/class-canonicalmapobject.php:223-235 | `normalize` fails exactly when some key is not usable; otherwise every normalised key maps to the normalised value of its last entry |
| `CanonicalMapObject.CanonicalMap.OffsetExists` | inc/plc/class-canonicalmapobject.php:243-245 | `offsetExists` is `has` |
| `CanonicalMapObject.CanonicalMap.OffsetGet` | inc/plc/class-canonicalmapobject.php:253-255 | `offsetGet` is `get`, including its "Index not found." failure |
| `CanonicalMapObject.CanonicalMap.OffsetSet` | inc/plc/class-canonicalmapobject.php:266-275 | `offsetSet` fails with "Invalid key" or "Invalid value" unless both arguments are CBOR objects; otherwise it is `set` of the pair |
| `CanonicalMapObject.CanonicalMap.OffsetUnset` | inc/plc/class-canonicalmapobject.php:283-285 | `offsetUnset` is `remove` |
| `Scenarios.CanonicalOrderExample` | inc/plc/class-canonicalmapobject.php:86-105 | keys "bb", "a", "c" inserted in that order encode as A3 61 61 01 61 63 02 62 62 62 03, i.e. in the order "a", "c", "bb" |
| `Scenarios.EncodeThenAddAsWritten` | inc/plc/class-canonicalmapobject.php:86 | as written: add "a", encode, add "a" again gives count 2, and the next encoding holds the key "a" twice |
| `Scenarios.EncodeThenAddCorrected` | inc/plc/class-canonicalmapobject.php:86 | corrected: the same calls give count 1 and the encoding A1 61 61 02 |
| `Scenarios.RemoveThenGetAsWritten` | inc/plc/class-canonicalmapobject.php:159 | as written: add "a", add "b", remove "a", then get "b" fails with "Index not found." |
| `Scenarios.RemoveThenGetCorrected` | inc/plc/class-canonicalmapobject.php:159 | corrected: the same calls leave get "b" returning its value |

## Left out

- The encodings of individual CBOR objects (text, integers, byte strings, nested maps) are not modelled. Each object's bytes and normal form are inputs. A nested `CanonicalMapObject` used as a value is therefore represented by fixed bytes. `SerializeOrderIndependent` shows that the map's own bytes do not depend on insertion order, but the recursion is not modelled.
- PHP array-key coercion (the string "12" becoming the integer 12, booleans, null and floats as keys) is abstracted into the `Idx` datatype. A key's normal form is taken to be already coerced. A compound normal form, such as an array, is rejected with a TypeError, modelled as `IllegalOffset`.
- PHP parameter type checks (`CBORObject`, `MapItem`, `int|string`) are modelled by Dafny's types. The TypeError PHP raises for a wrongly typed argument is not modelled.
- A value's own `normalize()` is taken as given and never throws.
- `usort` is modelled as a stable insertion sort. PHP's sort has been stable since PHP 8.0, and the class's `int|string` types need PHP 8, so the two sorts agree.
- `LengthCalculator` and the rest of the CBOR library are not part of this model as source; `getLengthOfArray` is modelled after section 3 of RFC 8949. Counts of 2^64 and above cannot arise with PHP's 64-bit integers; the model gives them the indefinite marker 31 with no length bytes.
- The constructor calls `getLengthOfArray` before its element check. That order cannot be observed, because the object is never built when the check fails.
- Methods return an `Outcome` where PHP returns `$this` for chaining or throws.
- `CanonicalMapObject.CanonicalMap.Normalize`: the order of the keys in the result (the order of first occurrence) is not stated, only which keys there are and what each is bound to.
- `CanonicalMapObject.CanonicalMap.GetIterator`: the lazy `ArrayIterator` object is not modelled; the entry sequence is returned instead.
- Concurrency: the code has none.

## Findings

| source | as written | input that shows it | evidently intended | confidence | as-written member | corrected member |
|---|---|---|---|---|---|---|
| inc/plc/class-canonicalmapobject.php:86 | `usort` sorts `$this->data` itself and re-keys it 0 .. n-1, so the entries lose the normalised keys that `add`, `set`, `has`, `get` and `remove` look them up by | `add("a", 1)`, cast to string, `add("a", 2)`: count 2, bytes A2 61 61 01 61 61 02 (a map with a duplicate key) | encoding sorts a copy; the second `add` replaces the entry: count 1, bytes A1 61 61 02 | not executed; high | `Scenarios.EncodeThenAddAsWritten` | `CanonicalMapObject.CanonicalMap.Encode` |
| inc/plc/class-canonicalmapobject.php:159 | `array_values` re-keys the surviving entries 0 .. n-2, so they are no longer found under their normalised keys | `add("a", 1)`, `add("b", 2)`, `remove("a")`, `get("b")`: throws "Index not found." | the surviving entries stay under their own keys; `get("b")` returns 2 | not executed; high | `Scenarios.RemoveThenGetAsWritten` | `CanonicalMapObject.CanonicalMap.RemoveKeepingIndex` |

In both rows the as-written member calls the class's own `ToString` or
`Remove`, which model the code as it stands. The corrected members, `Encode`
and `RemoveKeepingIndex`, sit beside them in the class. Their property is
proved in general: `Encode` changes nothing, and `RemoveKeepingIndex` keeps
every other index's value and keeps `Indexed`, the state in which every
entry sits under its own key's normal form. `Set` and `Add` also keep
`Indexed`, and `IndexedKeysUnique` shows it rules out duplicate keys.
`Scenarios.EncodeThenAddCorrected` and `Scenarios.RemoveThenGetCorrected`
replay the inputs above on the corrected members.
