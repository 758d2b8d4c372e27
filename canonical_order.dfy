/**
 * The canonical order of map entries (section 3.9 of RFC 7049, carried
 * forward as section 4.2.3 of RFC 8949, "length-first map key ordering"):
 * shorter encoded keys first, keys of equal length in unsigned bytewise
 * order. Also PHP's `usort` under that comparator and the byte layout of
 * an encoded map.
 */
module CanonicalOrder {
  import opened Wrappers
  import opened PhpArray
  import opened Cbor

  /** PHP's `strcmp`, reduced to its sign: unsigned bytewise comparison. */
  function Strcmp(a: seq<byte>, b: seq<byte>): (r: int)
    ensures -1 <= r <= 1
    ensures r == 0 <==> a == b
  {
    if a == [] && b == [] then 0
    else if a == [] then -1
    else if b == [] then 1
    else if a[0] < b[0] then -1
    else if a[0] > b[0] then 1
    else
      assert a == [a[0]] + a[1..] && b == [b[0]] + b[1..];
      Strcmp(a[1..], b[1..])
  }

  /**
   * Unsigned lexicographic order, defined directly: `a` and `b` agree up to
   * a position where `a` has the smaller byte, or `a` is a proper prefix of `b`.
   */
  ghost predicate LexLess(a: seq<byte>, b: seq<byte>) {
    || (exists i :: 0 <= i < |a| && i < |b| && a[..i] == b[..i] && a[i] < b[i])
    || (|a| < |b| && a == b[..|a|])
  }

  /** `strcmp` is negative exactly when its first argument is lexicographically smaller. */
  lemma {:induction false} StrcmpIsLexicographic(a: seq<byte>, b: seq<byte>)
    ensures Strcmp(a, b) < 0 <==> LexLess(a, b)
  {
    if a == [] {
      assert b != [] ==> a == b[..|a|];
    } else if b == [] {
    } else if a[0] < b[0] {
      assert a[..0] == b[..0];
    } else if a[0] > b[0] {
      LexLessNotAfterBiggerHead(a, b);
    } else {
      StrcmpIsLexicographic(a[1..], b[1..]);
      LexLessOfEqualHeads(a, b);
    }
  }

  lemma LexLessNotAfterBiggerHead(a: seq<byte>, b: seq<byte>)
    requires a != [] && b != [] && a[0] > b[0]
    ensures !LexLess(a, b)
  {
    forall i | 0 < i <= |a| && i <= |b| ensures a[..i] != b[..i] {
      assert a[..i][0] != b[..i][0];
    }
  }

  /** With equal first bytes, the order is decided by the rest. */
  lemma LexLessOfEqualHeads(a: seq<byte>, b: seq<byte>)
    requires a != [] && b != [] && a[0] == b[0]
    ensures LexLess(a, b) <==> LexLess(a[1..], b[1..])
  {
    if LexLess(a[1..], b[1..]) {
      LexLessConsHead(a, b);
    }
    if LexLess(a, b) {
      LexLessDropHead(a, b);
    }
  }

  lemma LexLessConsHead(a: seq<byte>, b: seq<byte>)
    requires a != [] && b != [] && a[0] == b[0] && LexLess(a[1..], b[1..])
    ensures LexLess(a, b)
  {
    if exists i :: 0 <= i < |a[1..]| && i < |b[1..]| && a[1..][..i] == b[1..][..i] && a[1..][i] < b[1..][i] {
      var i :| 0 <= i < |a[1..]| && i < |b[1..]| && a[1..][..i] == b[1..][..i] && a[1..][i] < b[1..][i];
      assert a[..i + 1] == [a[0]] + a[1..][..i];
      assert b[..i + 1] == [b[0]] + b[1..][..i];
    } else {
      assert a == [a[0]] + a[1..];
      assert b[..|a|] == [b[0]] + b[1..][..|a[1..]|];
    }
  }

  lemma LexLessDropHead(a: seq<byte>, b: seq<byte>)
    requires a != [] && b != [] && a[0] == b[0] && LexLess(a, b)
    ensures LexLess(a[1..], b[1..])
  {
    if exists i :: 0 <= i < |a| && i < |b| && a[..i] == b[..i] && a[i] < b[i] {
      var i :| 0 <= i < |a| && i < |b| && a[..i] == b[..i] && a[i] < b[i];
      assert i > 0;
      assert a[1..][..i - 1] == a[..i][1..];
      assert b[1..][..i - 1] == b[..i][1..];
      assert a[1..][i - 1] == a[i];
    } else {
      assert a[1..] == a[..|a|][1..];
      assert b[1..][..|a[1..]|] == b[..|a|][1..];
    }
  }

  /** `strcmp` is antisymmetric. */
  lemma {:induction false} StrcmpFlip(a: seq<byte>, b: seq<byte>)
    ensures Strcmp(b, a) == -Strcmp(a, b)
  {
    if a != [] && b != [] && a[0] == b[0] {
      StrcmpFlip(a[1..], b[1..]);
    }
  }

  /** `strcmp` is transitive. */
  lemma {:induction false} StrcmpTransitive(a: seq<byte>, b: seq<byte>, c: seq<byte>)
    requires Strcmp(a, b) <= 0 && Strcmp(b, c) <= 0
    ensures Strcmp(a, c) <= 0
  {
    if a != [] && b != [] && c != [] && a[0] == b[0] == c[0] {
      StrcmpTransitive(a[1..], b[1..], c[1..]);
    }
  }

  /** The key comparison of `__toString`'s comparator: length first, then `strcmp`. */
  function Compare(a: seq<byte>, b: seq<byte>): int {
    if |a| == |b| then Strcmp(a, b)
    else if |a| < |b| then -1 else 1
  }

  /** The comparator as stated in RFC 8949 section 4.2.3: shorter first, then bytewise smaller. */
  lemma CompareIsLengthFirst(a: seq<byte>, b: seq<byte>)
    ensures Compare(a, b) < 0 <==> |a| < |b| || (|a| == |b| && LexLess(a, b))
    ensures Compare(a, b) == 0 <==> a == b
  {
    StrcmpIsLexicographic(a, b);
  }

  /** The comparator is a total order on byte strings: antisymmetric, transitive, ties only on equal keys. */
  lemma CompareIsTotalOrder(a: seq<byte>, b: seq<byte>, c: seq<byte>)
    ensures Compare(b, a) == -Compare(a, b)
    ensures Compare(a, b) <= 0 && Compare(b, c) <= 0 ==> Compare(a, c) <= 0
  {
    StrcmpFlip(a, b);
    if Compare(a, b) <= 0 && Compare(b, c) <= 0 && |a| == |b| == |c| {
      StrcmpTransitive(a, b, c);
    }
  }

  /** The closure passed to `usort` in `__toString`: it compares the entries' encoded keys. */
  function Comparator(x: MapItem, y: MapItem): int {
    Compare(x.key.bytes, y.key.bytes)
  }

  /** Entries are in canonical order: no entry is followed by one the comparator puts before it. */
  ghost predicate Sorted(s: seq<MapItem>) {
    forall i, j :: 0 <= i < j < |s| ==> Comparator(s[i], s[j]) <= 0
  }

  /** Insert `x` before the first entry it does not follow. */
  function Insert(x: MapItem, s: seq<MapItem>): seq<MapItem> {
    if s == [] then [x]
    else if Comparator(x, s[0]) <= 0 then [x] + s
    else [s[0]] + Insert(x, s[1..])
  }

  /**
   * A stable sort under the comparator. PHP's sort is stable since PHP 8.0,
   * and a stable sort has one result, so this is what `usort` computes
   * (`SortItemsStable` states the stability).
   */
  function SortItems(s: seq<MapItem>): seq<MapItem> {
    if s == [] then [] else Insert(s[0], SortItems(s[1..]))
  }

  /** `usort($data, ...)`: sort the values, then re-key them 0, 1, .... */
  function USort(d: seq<(Idx, MapItem)>): seq<(Idx, MapItem)> {
    Positional(SortItems(Values(d)))
  }

  lemma {:induction false} InsertPermutes(x: MapItem, s: seq<MapItem>)
    ensures multiset(Insert(x, s)) == multiset(s) + multiset{x}
  {
    if s != [] && Comparator(x, s[0]) > 0 {
      InsertPermutes(x, s[1..]);
      assert s == [s[0]] + s[1..];
    }
  }

  lemma {:induction false} InsertKeepsSorted(x: MapItem, s: seq<MapItem>)
    requires Sorted(s)
    ensures Sorted(Insert(x, s))
  {
    if s == [] {
    } else if Comparator(x, s[0]) <= 0 {
      forall j | 0 <= j < |s| ensures Comparator(x, s[j]) <= 0 {
        CompareIsTotalOrder(x.key.bytes, s[0].key.bytes, s[j].key.bytes);
      }
    } else {
      var t := Insert(x, s[1..]);
      InsertKeepsSorted(x, s[1..]);
      InsertPermutes(x, s[1..]);
      CompareIsTotalOrder(x.key.bytes, s[0].key.bytes, s[0].key.bytes);
      forall j | 0 <= j < |t| ensures Comparator(s[0], t[j]) <= 0 {
        assert t[j] in multiset(t);
        if t[j] != x {
          assert t[j] in multiset(s[1..]);
          var k :| 0 <= k < |s[1..]| && s[1..][k] == t[j];
          assert s[k + 1] == t[j];
        }
      }
    }
  }

  /** Sorting yields a permutation of its input in canonical order. */
  lemma {:induction false} SortItemsSortsAndPermutes(s: seq<MapItem>)
    ensures Sorted(SortItems(s))
    ensures multiset(SortItems(s)) == multiset(s)
  {
    if s != [] {
      SortItemsSortsAndPermutes(s[1..]);
      InsertKeepsSorted(s[0], SortItems(s[1..]));
      InsertPermutes(s[0], SortItems(s[1..]));
      assert s == [s[0]] + s[1..];
    }
  }

  /** Sorting entries already in canonical order leaves them where they are. */
  lemma {:induction false} SortItemsOfSorted(s: seq<MapItem>)
    requires Sorted(s)
    ensures SortItems(s) == s
  {
    if s != [] {
      SortItemsOfSorted(s[1..]);
      assert s == [s[0]] + s[1..];
    }
  }

  /** The entries of `s` whose encoded key is `kb`, in their order in `s`. */
  function WithKey(s: seq<MapItem>, kb: seq<byte>): seq<MapItem> {
    if s == [] then []
    else (if s[0].key.bytes == kb then [s[0]] else []) + WithKey(s[1..], kb)
  }

  /** Inserting `x` puts it before every entry whose encoded key equals its own. */
  lemma {:induction false} InsertBeforeEqualKeys(x: MapItem, t: seq<MapItem>, kb: seq<byte>)
    ensures WithKey(Insert(x, t), kb) == WithKey([x] + t, kb)
  {
    if t != [] && Comparator(x, t[0]) > 0 {
      CompareIsLengthFirst(x.key.bytes, t[0].key.bytes);
      InsertBeforeEqualKeys(x, t[1..], kb);
      assert ([t[0]] + Insert(x, t[1..]))[1..] == Insert(x, t[1..]);
      assert ([x] + t[1..])[1..] == t[1..];
      assert ([x] + t)[1..] == t;
      assert t == [t[0]] + t[1..];
    }
  }

  /**
   * Sorting is stable: for every encoded key, the entries carrying it come
   * out in the order they went in.
   */
  lemma {:induction false} SortItemsStable(s: seq<MapItem>, kb: seq<byte>)
    ensures WithKey(SortItems(s), kb) == WithKey(s, kb)
  {
    if s != [] {
      SortItemsStable(s[1..], kb);
      InsertBeforeEqualKeys(s[0], SortItems(s[1..]), kb);
      assert ([s[0]] + SortItems(s[1..]))[1..] == SortItems(s[1..]);
    }
  }

  /** Entries with the same encoded key are the same entry. */
  ghost predicate KeysDetermineItems(m: multiset<MapItem>) {
    forall x, y :: x in m && y in m && x.key.bytes == y.key.bytes ==> x == y
  }

  /** The first entry of a sorted sequence comes no later than any of its entries. */
  lemma SortedHeadFirst(s: seq<MapItem>, y: MapItem)
    requires Sorted(s) && y in multiset(s)
    ensures Comparator(s[0], y) <= 0
  {
    var k :| 0 <= k < |s| && s[k] == y;
    if k == 0 {
      StrcmpIsLexicographic(y.key.bytes, y.key.bytes);
    }
  }

  /**
   * Two sorted sequences holding the same entries are equal, when entries
   * with equal encoded keys are equal.
   */
  lemma {:induction false} SortedUnique(s: seq<MapItem>, t: seq<MapItem>)
    requires Sorted(s) && Sorted(t) && multiset(s) == multiset(t)
    requires KeysDetermineItems(multiset(s))
    ensures s == t
  {
    if s != [] {
      SortedHeadsAgree(s, t);
      SortedTailsAgree(s, t);
      SortedUnique(s[1..], t[1..]);
      assert s == [s[0]] + s[1..] && t == [t[0]] + t[1..];
    }
  }

  /** Two sorted sequences holding the same entries start with the same entry. */
  lemma SortedHeadsAgree(s: seq<MapItem>, t: seq<MapItem>)
    requires Sorted(s) && Sorted(t) && multiset(s) == multiset(t) && s != []
    requires KeysDetermineItems(multiset(s))
    ensures t != [] && s[0] == t[0]
  {
    assert |t| == |multiset(t)| == |s|;
    var x, y := s[0], t[0];
    assert y in multiset(t);
    assert x in multiset(s);
    SortedHeadFirst(s, y);
    SortedHeadFirst(t, x);
    CompareIsTotalOrder(x.key.bytes, y.key.bytes, y.key.bytes);
    CompareIsLengthFirst(x.key.bytes, y.key.bytes);
  }

  /** Dropping an equal first entry from both sides keeps the hypotheses of `SortedUnique`. */
  lemma SortedTailsAgree(s: seq<MapItem>, t: seq<MapItem>)
    requires multiset(s) == multiset(t) && s != [] && t != [] && s[0] == t[0]
    requires Sorted(s) && Sorted(t)
    requires KeysDetermineItems(multiset(s))
    ensures Sorted(s[1..]) && Sorted(t[1..])
    ensures multiset(s[1..]) == multiset(t[1..])
    ensures KeysDetermineItems(multiset(s[1..]))
  {
    assert s == [s[0]] + s[1..];
    assert t == [t[0]] + t[1..];
    assert multiset(s[1..]) <= multiset(s);
  }

  /**
   * `usort` yields the same entries, each once as often as before, in
   * canonical order, under the keys 0 .. n - 1.
   */
  lemma USortSortsAndReindexes(d: seq<(Idx, MapItem)>)
    ensures |USort(d)| == |d|
    ensures Sorted(Values(USort(d)))
    ensures multiset(Values(USort(d))) == multiset(Values(d))
    ensures forall i :: 0 <= i < |d| ==> USort(d)[i].0 == IntIdx(i)
  {
    SortItemsSortsAndPermutes(Values(d));
    PositionalIsList(SortItems(Values(d)));
    assert |SortItems(Values(d))| == |multiset(SortItems(Values(d)))| == |Values(d)|;
  }

  /** Sorting twice is sorting once. */
  lemma USortIdempotent(d: seq<(Idx, MapItem)>)
    ensures USort(USort(d)) == USort(d)
  {
    SortItemsSortsAndPermutes(Values(d));
    PositionalIsList(SortItems(Values(d)));
    SortItemsOfSorted(SortItems(Values(d)));
  }

  /**
   * The sorted result depends only on which entries are held, not on their
   * order, when entries with equal encoded keys are equal.
   */
  lemma USortOrderIndependent(d1: seq<(Idx, MapItem)>, d2: seq<(Idx, MapItem)>)
    requires multiset(Values(d1)) == multiset(Values(d2))
    requires KeysDetermineItems(multiset(Values(d1)))
    ensures USort(d1) == USort(d2)
  {
    SortItemsSortsAndPermutes(Values(d1));
    SortItemsSortsAndPermutes(Values(d2));
    SortedUnique(SortItems(Values(d1)), SortItems(Values(d2)));
  }

  /** The bytes of one entry: the key's encoding, then the value's. */
  function EntryBytes(x: MapItem): seq<byte> {
    x.key.bytes + x.value.bytes
  }

  /** The entries' bytes, concatenated in order. */
  function EncodeItems(s: seq<MapItem>): seq<byte> {
    if s == [] then [] else EncodeItems(s[..|s| - 1]) + EntryBytes(s[|s| - 1])
  }

  /** The bytes of a map: its head, then each entry's key and value. */
  function MapBytes(ai: AdditionalInfo, length: Option<seq<byte>>, s: seq<MapItem>): seq<byte> {
    Head(MAJOR_TYPE_MAP, ai, length) + EncodeItems(s)
  }

  /** What `__toString` returns for data `d` whose header matches its count. */
  function Serialize(d: seq<(Idx, MapItem)>): seq<byte> {
    var (ai, length) := LengthOfArray(|d|);
    MapBytes(ai, length, Values(USort(d)))
  }

  /** Encoding distributes over concatenation. */
  lemma {:induction false} EncodeItemsAppend(s: seq<MapItem>, t: seq<MapItem>)
    ensures EncodeItems(s + t) == EncodeItems(s) + EncodeItems(t)
  {
    if t != [] {
      assert (s + t)[..|s + t| - 1] == s + t[..|t| - 1];
      EncodeItemsAppend(s, t[..|t| - 1]);
    } else {
      assert s + t == s;
    }
  }

  /** The byte layout: an entry's key and value bytes sit between those of the entries before and after it. */
  lemma EncodeItemsAt(pre: seq<MapItem>, x: MapItem, post: seq<MapItem>)
    ensures EncodeItems(pre + [x] + post) == EncodeItems(pre) + x.key.bytes + x.value.bytes + EncodeItems(post)
  {
    EncodeItemsAppend(pre + [x], post);
    EncodeItemsSplit(pre, x);
  }

  lemma EncodeItemsSplit(pre: seq<MapItem>, x: MapItem)
    ensures EncodeItems(pre + [x]) == EncodeItems(pre) + EntryBytes(x)
  {
    assert (pre + [x])[..|pre + [x]| - 1] == pre;
  }

  /**
   * The serialization of `d` starts with a head that decodes to major type 5
   * and the entry count, followed by the entries in canonical order.
   */
  lemma SerializeLayout(d: seq<(Idx, MapItem)>)
    requires |d| < Pow256(8)
    ensures var (ai, length) := LengthOfArray(|d|);
      var h := Head(MAJOR_TYPE_MAP, ai, length);
      && Serialize(d) == h + EncodeItems(SortItems(Values(d)))
      && DecodeHead(Serialize(d)) == Some((MAJOR_TYPE_MAP, |d|, |h|))
      && Sorted(SortItems(Values(d)))
      && multiset(SortItems(Values(d))) == multiset(Values(d))
  {
    var (ai, length) := LengthOfArray(|d|);
    PositionalIsList(SortItems(Values(d)));
    HeadRoundTrip(|d|, EncodeItems(SortItems(Values(d))));
    SortItemsSortsAndPermutes(Values(d));
  }

  /** Encoding again with no change in between yields the same bytes. */
  lemma SerializeIdempotent(d: seq<(Idx, MapItem)>)
    ensures Serialize(USort(d)) == Serialize(d)
  {
    USortIdempotent(d);
    USortSortsAndReindexes(d);
  }

  /**
   * Insertion-order independence: two maps holding the same entries encode
   * to the same bytes, when entries with equal encoded keys are equal.
   */
  lemma SerializeOrderIndependent(d1: seq<(Idx, MapItem)>, d2: seq<(Idx, MapItem)>)
    requires multiset(Values(d1)) == multiset(Values(d2))
    requires KeysDetermineItems(multiset(Values(d1)))
    ensures Serialize(d1) == Serialize(d2)
  {
    USortOrderIndependent(d1, d2);
    assert |Values(d1)| == |multiset(Values(d1))| == |Values(d2)|;
  }
}
