/**
 * Worked examples over the map's own methods: the canonical order of a
 * small map, and two ways in which the in-place re-keying of `data` breaks
 * the map's upsert-by-key behaviour, each beside its corrected counterpart.
 */
module Scenarios {
  import opened Wrappers
  import opened PhpArray
  import opened Cbor
  import opened CanonicalOrder
  import opened CanonicalMapObject

  /** The text string "a": head 0x61, then the byte 0x61. */
  const TextA: CborObject := CborObject([0x61, 0x61], Some(KeyLike(StrIdx("a"))))
  /** The text string "c". */
  const TextC: CborObject := CborObject([0x61, 0x63], Some(KeyLike(StrIdx("c"))))
  /** The text string "bb". */
  const TextBB: CborObject := CborObject([0x62, 0x62, 0x62], Some(KeyLike(StrIdx("bb"))))
  /** The unsigned integers 1, 2 and 3. */
  const One: CborObject := CborObject([0x01], Some(KeyLike(IntIdx(1))))
  const Two: CborObject := CborObject([0x02], Some(KeyLike(IntIdx(2))))
  const Three: CborObject := CborObject([0x03], Some(KeyLike(IntIdx(3))))

  /** Sorting a single entry leaves it alone. */
  lemma SortOne(x: MapItem)
    ensures SortItems([x]) == [x]
  {
    assert [x][1..] == [];
  }

  /** Sorting two entries already in order leaves them alone. */
  lemma SortTwo(x: MapItem, y: MapItem)
    requires Comparator(x, y) <= 0
    ensures SortItems([x, y]) == [x, y]
  {
    assert [x, y][1..] == [y];
    SortOne(y);
  }

  /** The map bytes of one entry filed under any key. */
  lemma SerializeOne(k: Idx, x: MapItem)
    ensures Serialize([(k, x)]) == [0xA1] + x.key.bytes + x.value.bytes
  {
    assert Values([(k, x)]) == [x];
    SortOne(x);
    PositionalIsList([x]);
    EncodeItemsAt([], x, []);
  }

  /** The map bytes of two entries that are already in canonical order. */
  lemma SerializeTwo(k1: Idx, x: MapItem, k2: Idx, y: MapItem)
    requires Comparator(x, y) <= 0
    ensures Serialize([(k1, x), (k2, y)]) == [0xA2] + x.key.bytes + x.value.bytes + y.key.bytes + y.value.bytes
  {
    assert Values([(k1, x), (k2, y)]) == [x, y];
    SortTwo(x, y);
    PositionalIsList([x, y]);
    EncodeItemsAt([x], y, []);
    EncodeItemsAt([], x, []);
    assert [x] + [y] + [] == [x, y];
  }

  /** Sorting "bb", "a", "c" gives "a", "c", "bb". */
  lemma SortExample()
    ensures SortItems([MapItem(TextBB, Three), MapItem(TextA, One), MapItem(TextC, Two)])
      == [MapItem(TextA, One), MapItem(TextC, Two), MapItem(TextBB, Three)]
  {
    var a1, c2, bb3 := MapItem(TextA, One), MapItem(TextC, Two), MapItem(TextBB, Three);
    assert Strcmp([0x61, 0x61], [0x61, 0x63]) == -1 by {
      assert [0x61, 0x61][1..] == [0x61] && [0x61, 0x63][1..] == [0x63];
    }
    assert Comparator(a1, c2) < 0;
    SortTwo(a1, c2);
    assert [bb3, a1, c2][1..] == [a1, c2];
    assert Insert(bb3, [c2]) == [c2, bb3] by {
      assert [c2][1..] == [];
    }
    assert [a1, c2][1..] == [c2];
  }

  /** The bytes of three entries in canonical order. */
  lemma EncodeThree(x: MapItem, y: MapItem, z: MapItem)
    ensures EncodeItems([x, y, z]) == EntryBytes(x) + EntryBytes(y) + EntryBytes(z)
  {
    EncodeItemsAt([x, y], z, []);
    EncodeItemsAt([x], y, []);
    EncodeItemsAt([], x, []);
    assert [x, y] + [z] + [] == [x, y, z];
    assert [x] + [y] + [] == [x, y];
  }

  /** The map bytes of "bb", "a", "c", filed under any keys in that order. */
  lemma SerializeExample(k1: Idx, k2: Idx, k3: Idx)
    ensures Serialize([(k1, MapItem(TextBB, Three)), (k2, MapItem(TextA, One)), (k3, MapItem(TextC, Two))])
      == [0xA3, 0x61, 0x61, 0x01, 0x61, 0x63, 0x02, 0x62, 0x62, 0x62, 0x03]
  {
    var a1, c2, bb3 := MapItem(TextA, One), MapItem(TextC, Two), MapItem(TextBB, Three);
    assert Values([(k1, bb3), (k2, a1), (k3, c2)]) == [bb3, a1, c2];
    SortExample();
    PositionalIsList([a1, c2, bb3]);
    EncodeThree(a1, c2, bb3);
  }

  /**
   * Keys "bb", "a", "c" inserted in that order encode as "a", "c", "bb":
   * the two-byte keys first, in bytewise order, then the three-byte key.
   */
  method CanonicalOrderExample() returns (bytes: seq<byte>)
    ensures bytes == [0xA3, 0x61, 0x61, 0x01, 0x61, 0x63, 0x02, 0x62, 0x62, 0x62, 0x03]
  {
    var m := new CanonicalMap([]);
    var o1 := m.Add(TextBB, Three);
    var o2 := m.Add(TextA, One);
    var o3 := m.Add(TextC, Two);
    assert m.data == [(StrIdx("bb"), MapItem(TextBB, Three)), (StrIdx("a"), MapItem(TextA, One)), (StrIdx("c"), MapItem(TextC, Two))];
    SerializeExample(StrIdx("bb"), StrIdx("a"), StrIdx("c"));
    bytes := m.ToString();
  }

  /**
   * As written: after `__toString` the entry for "a" sits under key 0, so
   * adding "a" again appends a second entry instead of replacing the first,
   * and the next encoding holds the key "a" twice.
   */
  method EncodeThenAddAsWritten() returns (count: nat, bytes: seq<byte>)
    ensures count == 2
    ensures bytes == [0xA2, 0x61, 0x61, 0x01, 0x61, 0x61, 0x02]
  {
    var m := new CanonicalMap([]);
    var a1, a2 := MapItem(TextA, One), MapItem(TextA, Two);
    var o1 := m.Add(TextA, One);
    assert m.data == [(StrIdx("a"), a1)];
    assert Values(m.data) == [a1];
    var s1 := m.ToString();
    SortOne(a1);
    PositionalIsList([a1]);
    assert m.data == [(IntIdx(0), a1)];
    var o2 := m.Add(TextA, Two);
    assert Position([(IntIdx(0), a1)], StrIdx("a")) == None;
    assert m.data == [(IntIdx(0), a1), (StrIdx("a"), a2)];
    count := m.Count();
    SerializeTwo(IntIdx(0), a1, StrIdx("a"), a2);
    bytes := m.ToString();
  }

  /** Corrected: encoding with `Encode` leaves the entry under "a", so adding "a" again replaces it. */
  method EncodeThenAddCorrected() returns (count: nat, bytes: seq<byte>)
    ensures count == 1
    ensures bytes == [0xA1, 0x61, 0x61, 0x02]
  {
    var m := new CanonicalMap([]);
    var o1 := m.Add(TextA, One);
    var s1 := m.Encode();
    var o2 := m.Add(TextA, Two);
    count := m.Count();
    assert m.data == [(StrIdx("a"), MapItem(TextA, Two))];
    bytes := m.Encode();
    SerializeOne(StrIdx("a"), MapItem(TextA, Two));
  }

  /**
   * As written: removing "a" re-keys the surviving entry for "b" to 0, so
   * `get` of "b" then fails although "b" was never removed.
   */
  method RemoveThenGetAsWritten() returns (r: Result<CborObject, MapError>)
    ensures r == Err(IndexNotFound)
  {
    var textB := CborObject([0x61, 0x62], Some(KeyLike(StrIdx("b"))));
    var m := new CanonicalMap([]);
    var o1 := m.Add(TextA, One);
    var o2 := m.Add(textB, Two);
    assert m.data == [(StrIdx("a"), MapItem(TextA, One)), (StrIdx("b"), MapItem(textB, Two))];
    m.Remove(StrIdx("a"));
    assert Unset([(StrIdx("a"), MapItem(TextA, One)), (StrIdx("b"), MapItem(textB, Two))], StrIdx("a"))
      == [(StrIdx("b"), MapItem(textB, Two))];
    assert Values([(StrIdx("b"), MapItem(textB, Two))]) == [MapItem(textB, Two)];
    assert m.data == [(IntIdx(0), MapItem(textB, Two))];
    r := m.Get(StrIdx("b"));
  }

  /** Corrected: `RemoveKeepingIndex` leaves "b" filed under its own key. */
  method RemoveThenGetCorrected() returns (r: Result<CborObject, MapError>)
    ensures r == Ok(Two)
  {
    var textB := CborObject([0x61, 0x62], Some(KeyLike(StrIdx("b"))));
    var m := new CanonicalMap([]);
    var o1 := m.Add(TextA, One);
    var o2 := m.Add(textB, Two);
    assert m.data == [(StrIdx("a"), MapItem(TextA, One)), (StrIdx("b"), MapItem(textB, Two))];
    assert Position(m.data, StrIdx("b")) == Some(1);
    m.RemoveKeepingIndex(StrIdx("a"));
    r := m.Get(StrIdx("b"));
  }
}
