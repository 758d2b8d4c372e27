/**
 * `CanonicalMapObject`: a CBOR map (major type 5) whose encoding lists its
 * entries in canonical order. The object keeps its entries in a PHP
 * ordered array `data`, filed under each key's normalised form, and keeps
 * the map header (`additionalInformation`, `length`) in step with the
 * entry count.
 */
module CanonicalMapObject {
  import opened Wrappers
  import opened PhpArray
  import opened Cbor
  import opened CanonicalOrder

  /**
   * The exceptions the map throws: `InvalidArgumentException` with the
   * messages of the constructor, of `add`/`set`/`normalize`, of `get` and of
   * `offsetSet`; and the `TypeError` PHP raises for a compound array key.
   */
  datatype MapError =
    | InvalidElement    // "The list must contain only MapItem objects."
    | NotNormalizable   // "Invalid key. Shall be normalizable"
    | IllegalOffset     // a key whose normal form PHP cannot use as an array key
    | IndexNotFound     // "Index not found."
    | InvalidKey        // "Invalid key"
    | InvalidValue      // "Invalid value"

  /** An element of the list given to the constructor: a `MapItem` or anything else. */
  datatype Element = Item(item: MapItem) | NotItem

  /** An argument of `offsetSet`: a `CBORObject` or anything else. */
  datatype PhpValue = Object(obj: CborObject) | NotObject

  /** The array key a map key is filed under: its normal form, or the error that using it raises. */
  function KeyOffset(key: CborObject): Result<Idx, MapError> {
    match key.normalized
    case None => Err(NotNormalizable)
    case Some(KeyLike(k)) => Ok(k)
    case Some(Compound(_)) => Err(IllegalOffset)
  }

  /** A value in the result of `normalize`: a normal form, or the object itself when it is not `Normalizable`. */
  datatype NormValue = Normalized(native: Native) | Raw(obj: CborObject)

  function NormalizedValue(v: CborObject): NormValue {
    if v.normalized.Some? then Normalized(v.normalized.value) else Raw(v)
  }

  /** The `array_reduce` fold of `normalize`, from accumulator `carry`, over `items` in order. */
  function NormalizeFrom(items: seq<MapItem>, carry: seq<(Idx, NormValue)>): Result<seq<(Idx, NormValue)>, MapError>
    decreases |items|
  {
    if items == [] then Ok(carry)
    else match KeyOffset(items[0].key)
      case Err(e) => Err(e)
      case Ok(k) => NormalizeFrom(items[1..], Assign(carry, k, NormalizedValue(items[0].value)))
  }

  /** The normalised value of the last entry of `items` whose key is filed under `k`. */
  function LastValue(items: seq<MapItem>, k: Idx): Option<NormValue> {
    if items == [] then None
    else
      var later := LastValue(items[1..], k);
      if later.Some? then later
      else if KeyOffset(items[0].key) == Ok(k) then Some(NormalizedValue(items[0].value))
      else None
  }

  /** `LastValue` finds the last entry with that key, and nothing when there is none. */
  lemma {:induction false} LastValueIsLast(items: seq<MapItem>, k: Idx)
    ensures LastValue(items, k).None? <==> forall i :: 0 <= i < |items| ==> KeyOffset(items[i].key) != Ok(k)
    ensures LastValue(items, k).Some? ==>
      exists i :: 0 <= i < |items| && KeyOffset(items[i].key) == Ok(k)
        && LastValue(items, k).value == NormalizedValue(items[i].value)
        && forall j :: i < j < |items| ==> KeyOffset(items[j].key) != Ok(k)
  {
    if items != [] {
      LastValueIsLast(items[1..], k);
      if LastValue(items[1..], k).Some? {
        var i :| 0 <= i < |items[1..]| && KeyOffset(items[1..][i].key) == Ok(k)
          && LastValue(items[1..], k).value == NormalizedValue(items[1..][i].value)
          && forall j :: i < j < |items[1..]| ==> KeyOffset(items[1..][j].key) != Ok(k);
        assert KeyOffset(items[i + 1].key) == Ok(k);
        forall j | i + 1 < j < |items| ensures KeyOffset(items[j].key) != Ok(k) {
          assert items[j] == items[1..][j - 1];
        }
      } else {
        forall j | 0 < j < |items| ensures KeyOffset(items[j].key) != Ok(k) {
          assert items[j] == items[1..][j - 1];
        }
      }
    }
  }

  /**
   * The fold fails exactly when some key is not usable, and then with the
   * error of the first such key in iteration order.
   */
  lemma {:induction false} NormalizeFailsAtFirstBadKey(items: seq<MapItem>, carry: seq<(Idx, NormValue)>)
    ensures NormalizeFrom(items, carry).Err? <==> exists i :: 0 <= i < |items| && KeyOffset(items[i].key).Err?
    ensures NormalizeFrom(items, carry).Err? ==>
      exists i :: 0 <= i < |items| && KeyOffset(items[i].key) == Err(NormalizeFrom(items, carry).error)
        && forall j :: 0 <= j < i ==> KeyOffset(items[j].key).Ok?
  {
    if items != [] && KeyOffset(items[0].key).Ok? {
      var next := Assign(carry, KeyOffset(items[0].key).value, NormalizedValue(items[0].value));
      NormalizeFailsAtFirstBadKey(items[1..], next);
      if exists i :: 0 <= i < |items| && KeyOffset(items[i].key).Err? {
        var i :| 0 <= i < |items| && KeyOffset(items[i].key).Err?;
        assert items[1..][i - 1] == items[i];
      }
      if NormalizeFrom(items, carry).Err? {
        var e := NormalizeFrom(items, carry).error;
        var i :| 0 <= i < |items[1..]| && KeyOffset(items[1..][i].key) == Err(e)
          && forall j :: 0 <= j < i ==> KeyOffset(items[1..][j].key).Ok?;
        assert KeyOffset(items[i + 1].key) == Err(e);
        forall j | 0 <= j < i + 1 ensures KeyOffset(items[j].key).Ok? {
          if j > 0 { assert items[j] == items[1..][j - 1]; }
        }
      }
    }
  }

  /**
   * On success the fold binds every key to the normalised value of the last
   * entry filed under it (later ones overwrite earlier ones) and leaves the
   * other keys of `carry` as they were.
   */
  lemma {:induction false} NormalizeLastWins(items: seq<MapItem>, carry: seq<(Idx, NormValue)>)
    requires DistinctKeys(carry)
    requires NormalizeFrom(items, carry).Ok?
    ensures DistinctKeys(NormalizeFrom(items, carry).value)
    ensures forall k ::
      Get(NormalizeFrom(items, carry).value, k) == if LastValue(items, k).Some? then LastValue(items, k) else Get(carry, k)
  {
    if items != [] {
      var k0 := KeyOffset(items[0].key).value;
      var next := Assign(carry, k0, NormalizedValue(items[0].value));
      AssignUpserts(carry, k0, NormalizedValue(items[0].value));
      NormalizeLastWins(items[1..], next);
    }
  }

  /**
   * Every entry is filed under its own key's normal form: the state `add`
   * and `set` rely on to find an existing key.
   */
  ghost predicate Indexed(d: seq<(Idx, MapItem)>) {
    forall i :: 0 <= i < |d| ==> KeyOffset(d[i].1.key) == Ok(d[i].0)
  }

  /** Under `Indexed`, no two entries share a normalised key. */
  lemma IndexedKeysUnique(d: seq<(Idx, MapItem)>)
    requires Indexed(d) && DistinctKeys(d)
    ensures forall i, j :: 0 <= i < j < |d| ==> KeyOffset(d[i].1.key) != KeyOffset(d[j].1.key)
  {
  }

  /** Filing an entry under its own key keeps every entry filed under its own key. */
  lemma AssignKeepsIndexed(d: seq<(Idx, MapItem)>, item: MapItem)
    requires Indexed(d) && KeyOffset(item.key).Ok?
    ensures Indexed(Assign(d, KeyOffset(item.key).value, item))
  {
  }

  /** Unsetting an entry keeps every other entry filed under its own key. */
  lemma UnsetKeepsIndexed(d: seq<(Idx, MapItem)>, k: Idx)
    requires Indexed(d)
    ensures Indexed(Unset(d, k))
  {
    match Position(d, k)
    case None =>
    case Some(p) =>
      var r := Unset(d, k);
      assert forall i :: 0 <= i < |r| ==> r[i] == if i < p then d[i] else d[i + 1];
  }

  /**
   * `remove` on a present index: exactly that entry goes, the rest keep
   * their relative order, and they are re-keyed 0 .. n - 2.
   */
  lemma RemoveDeletesOne(d: seq<(Idx, MapItem)>, k: Idx)
    requires DistinctKeys(d) && KeyExists(d, k)
    ensures var r := ArrayValues(Unset(d, k)); var p := Position(d, k).value;
      && |r| == |d| - 1
      && Values(r) == Values(d)[..p] + Values(d)[p + 1..]
      && forall i :: 0 <= i < |r| ==> r[i].0 == IntIdx(i)
  {
    UnsetRemoves(d, k);
    ArrayValuesReindexes(Unset(d, k));
  }

  /**
   * The foreach loop of `__toString`: the head, then each entry's key and
   * value bytes, in the order given.
   */
  method Assemble(ai: AdditionalInfo, length: Option<seq<byte>>, items: seq<MapItem>) returns (s: seq<byte>)
    ensures s == MapBytes(ai, length, items)
  {
    s := [InitialByte(MAJOR_TYPE_MAP, ai)];
    if length.Some? {
      s := s + length.value;
    }
    var i := 0;
    while i < |items|
      invariant 0 <= i <= |items|
      invariant s == Head(MAJOR_TYPE_MAP, ai, length) + EncodeItems(items[..i])
    {
      EncodeItemsSplit(items[..i], items[i]);
      assert items[..i + 1] == items[..i] + [items[i]];
      s := s + items[i].key.bytes;
      s := s + items[i].value.bytes;
      i := i + 1;
    }
    assert items[..|items|] == items;
  }

  class CanonicalMap {
    /** `$this->data`: the entries, as a PHP ordered array. */
    var data: seq<(Idx, MapItem)>
    /** The additional information of the initial byte. */
    var additionalInformation: AdditionalInfo
    /** The length bytes after the initial byte, or None for PHP's `null`. */
    var length: Option<seq<byte>>

    /** The header always describes the current entry count; PHP array keys are distinct. */
    ghost predicate Valid()
      reads this
    {
      DistinctKeys(data) && (additionalInformation, length) == LengthOfArray(|data|)
    }

    /**
     * `__construct` once its element check has passed: the argument array is
     * stored as it is, under its own keys, without merging entries whose
     * keys normalise alike. A PHP array never repeats a key.
     */
    constructor (entries: seq<(Idx, MapItem)>)
      requires DistinctKeys(entries)
      ensures Valid() && data == entries
    {
      data := entries;
      additionalInformation, length := LengthOfArray(|entries|).0, LengthOfArray(|entries|).1;
    }

    /**
     * `create` / `new CanonicalMapObject($data)`: fails unless every element
     * of the argument array is a `MapItem`; otherwise stores the array with
     * its keys and its order as given.
     */
    static method Create(elements: seq<(Idx, Element)>) returns (r: Result<CanonicalMap, MapError>)
      requires DistinctKeys(elements)
      ensures r.Err? <==> exists i :: 0 <= i < |elements| && elements[i].1.NotItem?
      ensures r.Err? ==> r.error == InvalidElement
      ensures r.Ok? ==> fresh(r.value) && r.value.Valid()
      ensures r.Ok? ==> |r.value.data| == |elements|
      ensures r.Ok? ==> forall i :: 0 <= i < |elements| ==> r.value.data[i] == (elements[i].0, elements[i].1.item)
    {
      var entries: seq<(Idx, MapItem)> := [];
      var i := 0;
      while i < |elements|
        invariant 0 <= i <= |elements| && |entries| == i
        invariant forall j :: 0 <= j < i ==> elements[j] == (entries[j].0, Item(entries[j].1))
      {
        match elements[i].1
        case NotItem =>
          return Err(InvalidElement);
        case Item(x) =>
          entries := entries + [(elements[i].0, x)];
        i := i + 1;
      }
      assert DistinctKeys(entries) by {
        forall a, b | 0 <= a < b < |entries| ensures entries[a].0 != entries[b].0 {
          assert entries[a].0 == elements[a].0 && entries[b].0 == elements[b].0;
        }
      }
      var m := new CanonicalMap(entries);
      r := Ok(m);
    }

    /**
     * `__toString`: sorts `data` in place into canonical order (re-keying
     * it 0 .. n - 1, as `usort` does) and returns the map's bytes. The
     * header does not change.
     */
    method ToString() returns (s: seq<byte>)
      requires Valid()
      modifies this
      ensures Valid()
      ensures data == USort(old(data))
      ensures additionalInformation == old(additionalInformation) && length == old(length)
      ensures s == Serialize(old(data))
    {
      USortSortsAndReindexes(data);
      data := USort(data);
      s := Assemble(additionalInformation, length, Values(data));
    }

    /** The bytes of `__toString` computed on a sorted copy, leaving `data` as it is. */
    method Encode() returns (s: seq<byte>)
      requires Valid()
      ensures s == Serialize(data)
    {
      s := Assemble(additionalInformation, length, Values(USort(data)));
    }

    /**
     * `set`: fails, changing nothing, when the item's key is not
     * normalisable or normalises to a compound value; otherwise files the
     * item under the key's normal form, replacing an entry already there in
     * place or appending, and recomputes the header.
     */
    method Set(item: MapItem) returns (o: Outcome<MapError>)
      requires Valid()
      modifies this
      ensures Valid()
      ensures KeyOffset(item.key).Err? ==> o == Fail(KeyOffset(item.key).error) && data == old(data)
      ensures KeyOffset(item.key).Ok? ==> o == Pass && data == Assign(old(data), KeyOffset(item.key).value, item)
      ensures Indexed(old(data)) ==> Indexed(data)
    {
      match KeyOffset(item.key)
      case Err(e) =>
        o := Fail(e);
      case Ok(k) =>
        AssignUpserts(data, k, item);
        if Indexed(data) {
          AssignKeepsIndexed(data, item);
        }
        data := Assign(data, k, item);
        additionalInformation, length := LengthOfArray(|data|).0, LengthOfArray(|data|).1;
        o := Pass;
    }

    /** `add`: `set` of the pair (`key`, `value`). */
    method Add(key: CborObject, value: CborObject) returns (o: Outcome<MapError>)
      requires Valid()
      modifies this
      ensures Valid()
      ensures KeyOffset(key).Err? ==> o == Fail(KeyOffset(key).error) && data == old(data)
      ensures KeyOffset(key).Ok? ==> o == Pass && data == Assign(old(data), KeyOffset(key).value, MapItem(key, value))
      ensures Indexed(old(data)) ==> Indexed(data)
    {
      o := Set(MapItem(key, value));
    }

    /** `has` / `array_key_exists`: some entry is filed under `index`. */
    function Has(index: Idx): (b: bool)
      reads this
      ensures b <==> exists i :: 0 <= i < |data| && data[i].0 == index
    {
      KeyExists(data, index)
    }

    /** `get`: the value filed under `index`, failing when there is none. */
    function Get(index: Idx): (r: Result<CborObject, MapError>)
      reads this
      ensures r.Err? <==> !Has(index)
      ensures r.Err? ==> r.error == IndexNotFound
      ensures r.Ok? ==> exists i :: 0 <= i < |data| && data[i].0 == index && data[i].1.value == r.value
    {
      match Position(data, index)
      case None => Err(IndexNotFound)
      case Some(p) => Ok(data[p].1.value)
    }

    /**
     * `remove`: nothing happens when no entry is filed under `index`;
     * otherwise that entry is unset, the rest are re-keyed by
     * `array_values` and the header is recomputed.
     */
    method Remove(index: Idx)
      requires Valid()
      modifies this
      ensures Valid()
      ensures !old(Has(index)) ==> data == old(data)
      ensures old(Has(index)) ==> data == ArrayValues(Unset(old(data), index))
    {
      if !Has(index) {
        return;
      }
      UnsetRemoves(data, index);
      ArrayValuesReindexes(Unset(data, index));
      data := ArrayValues(Unset(data, index));
      additionalInformation, length := LengthOfArray(|data|).0, LengthOfArray(|data|).1;
    }

    /** `remove` without the re-keying: the other entries stay filed under their own keys. */
    method RemoveKeepingIndex(index: Idx)
      requires Valid()
      modifies this
      ensures Valid()
      ensures data == Unset(old(data), index)
      ensures forall j :: j != index ==> Get(j) == old(Get(j))
      ensures !Has(index)
      ensures Indexed(old(data)) ==> Indexed(data)
    {
      if !Has(index) {
        return;
      }
      UnsetRemoves(data, index);
      if Indexed(data) {
        UnsetKeepsIndexed(data, index);
      }
      ghost var before := data;
      data := Unset(data, index);
      additionalInformation, length := LengthOfArray(|data|).0, LengthOfArray(|data|).1;
      forall j | j != index ensures Get(j) == old(Get(j)) {
        assert PhpArray.Get(data, j) == PhpArray.Get(before, j);
      }
    }

    /**
     * `count`: the number of entries, which is the count the header
     * encodes whenever the object is valid.
     */
    function Count(): (n: nat)
      reads this
      ensures n == |data|
      ensures Valid() && n < Pow256(8) ==>
        DecodeHead(Head(MAJOR_TYPE_MAP, additionalInformation, length)).Some?
        && DecodeHead(Head(MAJOR_TYPE_MAP, additionalInformation, length)).value.1 == n
    {
      if |data| < Pow256(8) then
        HeadRoundTrip(|data|, []);
        assert Head(MAJOR_TYPE_MAP, additionalInformation, length) + [] == Head(MAJOR_TYPE_MAP, additionalInformation, length);
        |data|
      else
        |data|
    }

    /** `getIterator`: the entries in their current order, each found again by `get` under its key. */
    function GetIterator(): (it: seq<(Idx, MapItem)>)
      requires Valid()
      reads this
      ensures |it| == Count()
      ensures forall i :: 0 <= i < |it| ==> Get(it[i].0) == Ok(it[i].1.value)
    {
      PositionsOfEntries(data);
      data
    }

    /**
     * `normalize`: fails, with the first offending key's error, when some
     * key cannot be normalised to an array key; otherwise maps every
     * normalised key to the normalised value of the last entry filed under it.
     */
    function Normalize(): (r: Result<seq<(Idx, NormValue)>, MapError>)
      reads this
      ensures r.Err? <==> exists i :: 0 <= i < |data| && KeyOffset(data[i].1.key).Err?
      ensures r.Ok? ==> DistinctKeys(r.value) && forall k :: PhpArray.Get(r.value, k) == LastValue(Values(data), k)
    {
      NormalizeFailsAtFirstBadKey(Values(data), []);
      assert forall i :: 0 <= i < |data| ==> Values(data)[i] == data[i].1;
      if NormalizeFrom(Values(data), []).Ok? then
        NormalizeLastWins(Values(data), []);
        NormalizeFrom(Values(data), [])
      else
        NormalizeFrom(Values(data), [])
    }

    /** `offsetExists`: `has`. */
    function OffsetExists(offset: Idx): (b: bool)
      reads this
      ensures b <==> exists i :: 0 <= i < |data| && data[i].0 == offset
    {
      Has(offset)
    }

    /** `offsetGet`: `get`. */
    function OffsetGet(offset: Idx): (r: Result<CborObject, MapError>)
      reads this
      ensures r.Err? <==> !Has(offset)
      ensures r.Err? ==> r.error == IndexNotFound
      ensures r.Ok? ==> exists i :: 0 <= i < |data| && data[i].0 == offset && data[i].1.value == r.value
    {
      Get(offset)
    }

    /** `offsetSet`: fails unless key and value are CBOR objects, then `set` of the pair. */
    method OffsetSet(offset: PhpValue, value: PhpValue) returns (o: Outcome<MapError>)
      requires Valid()
      modifies this
      ensures Valid()
      ensures offset.NotObject? ==> o == Fail(InvalidKey) && data == old(data)
      ensures offset.Object? && value.NotObject? ==> o == Fail(InvalidValue) && data == old(data)
      ensures offset.Object? && value.Object? && KeyOffset(offset.obj).Err? ==>
        o == Fail(KeyOffset(offset.obj).error) && data == old(data)
      ensures offset.Object? && value.Object? && KeyOffset(offset.obj).Ok? ==>
        o == Pass && data == Assign(old(data), KeyOffset(offset.obj).value, MapItem(offset.obj, value.obj))
    {
      if offset.NotObject? {
        return Fail(InvalidKey);
      }
      if value.NotObject? {
        return Fail(InvalidValue);
      }
      o := Set(MapItem(offset.obj, value.obj));
    }

    /** `offsetUnset`: `remove`. */
    method OffsetUnset(offset: Idx)
      requires Valid()
      modifies this
      ensures Valid()
      ensures !old(Has(offset)) ==> data == old(data)
      ensures old(Has(offset)) ==> data == ArrayValues(Unset(old(data), offset))
    {
      Remove(offset);
    }
  }
}
