/**
 * The PHP ordered array, as far as the canonical map uses it: a sequence
 * of (key, value) pairs in insertion order with pairwise distinct keys.
 * The operations are the ones the map performs on `$this->data`:
 * `array_key_exists`, `$a[$k]`, `$a[$k] = $v`, `unset($a[$k])` and
 * `array_values`.
 */
module PhpArray {
  import opened Wrappers

  /** An array key after PHP's own key coercion: an integer or a string. */
  datatype Idx = IntIdx(i: int) | StrIdx(s: string)

  /** The keys of a well-formed PHP array are pairwise distinct. */
  predicate DistinctKeys<V>(a: seq<(Idx, V)>) {
    forall i, j :: 0 <= i < j < |a| ==> a[i].0 != a[j].0
  }

  /** Where key `k` sits in `a`: the lookup behind `array_key_exists` and `$a[$k]`. */
  function Position<V>(a: seq<(Idx, V)>, k: Idx): (r: Option<nat>)
    ensures r.Some? ==> r.value < |a| && a[r.value].0 == k
    ensures r.Some? ==> forall j :: 0 <= j < r.value ==> a[j].0 != k
    ensures r.None? <==> forall j :: 0 <= j < |a| ==> a[j].0 != k
  {
    if a == [] then None
    else if a[0].0 == k then Some(0)
    else match Position(a[1..], k)
      case None => None
      case Some(p) => Some(p + 1)
  }

  /** `array_key_exists($k, $a)`. */
  predicate KeyExists<V>(a: seq<(Idx, V)>, k: Idx) {
    Position(a, k).Some?
  }

  /** `$a[$k]`, or None where PHP would find no entry. */
  function Get<V>(a: seq<(Idx, V)>, k: Idx): Option<V> {
    match Position(a, k)
    case None => None
    case Some(p) => Some(a[p].1)
  }

  /** `$a[$k] = $v`: overwrite in place when `k` is present, else append. */
  function Assign<V>(a: seq<(Idx, V)>, k: Idx, v: V): seq<(Idx, V)> {
    match Position(a, k)
    case Some(p) => a[p := (k, v)]
    case None => a + [(k, v)]
  }

  /** `unset($a[$k])`: drop the entry for `k`, if any, keeping the order of the rest. */
  function Unset<V>(a: seq<(Idx, V)>, k: Idx): seq<(Idx, V)> {
    match Position(a, k)
    case Some(p) => a[..p] + a[p + 1..]
    case None => a
  }

  /** The values of `a`, in order. */
  function Values<V>(a: seq<(Idx, V)>): seq<V> {
    seq(|a|, i requires 0 <= i < |a| => a[i].1)
  }

  /** A PHP list: `vs` stored under the keys 0, 1, ..., |vs| - 1. */
  function Positional<V>(vs: seq<V>): seq<(Idx, V)> {
    seq(|vs|, i requires 0 <= i < |vs| => (IntIdx(i), vs[i]))
  }

  /** `array_values($a)`: the same values, re-keyed 0, 1, .... */
  function ArrayValues<V>(a: seq<(Idx, V)>): seq<(Idx, V)> {
    Positional(Values(a))
  }

  /** Under distinct keys, an entry carrying key `k` is the one `Position` finds. */
  lemma PositionOfEntry<V>(a: seq<(Idx, V)>, i: nat)
    requires DistinctKeys(a) && i < |a|
    ensures Position(a, a[i].0) == Some(i)
  {
  }

  /** Under distinct keys, every entry is found where it stands. */
  lemma PositionsOfEntries<V>(a: seq<(Idx, V)>)
    requires DistinctKeys(a)
    ensures forall i :: 0 <= i < |a| ==> Position(a, a[i].0) == Some(i)
  {
    forall i | 0 <= i < |a| ensures Position(a, a[i].0) == Some(i) {
      PositionOfEntry(a, i);
    }
  }

  /**
   * Assigning is an upsert: the key is then bound to the new value, every
   * other key keeps its binding, an existing entry is replaced where it
   * stands, a new one is appended at the end, and keys stay distinct.
   */
  lemma AssignUpserts<V>(a: seq<(Idx, V)>, k: Idx, v: V)
    requires DistinctKeys(a)
    ensures DistinctKeys(Assign(a, k, v))
    ensures Get(Assign(a, k, v), k) == Some(v)
    ensures forall j :: j != k ==> Get(Assign(a, k, v), j) == Get(a, j)
    ensures |Assign(a, k, v)| == if KeyExists(a, k) then |a| else |a| + 1
    ensures forall i :: 0 <= i < |a| && a[i].0 != k ==> Assign(a, k, v)[i] == a[i]
    ensures !KeyExists(a, k) ==> Assign(a, k, v)[|a|] == (k, v)
  {
    var r := Assign(a, k, v);
    match Position(a, k)
    case Some(p) =>
      assert r == a[p := (k, v)];
      PositionOfEntry(r, p);
      forall j | j != k ensures Get(r, j) == Get(a, j) {
        match Position(a, j)
        case None =>
        case Some(q) => PositionOfEntry(r, q);
      }
    case None =>
      assert r == a + [(k, v)];
      PositionOfEntry(r, |a|);
      forall j | j != k ensures Get(r, j) == Get(a, j) {
        match Position(a, j)
        case None =>
        case Some(q) => PositionOfEntry(r, q);
      }
  }

  /**
   * Unsetting a present key removes exactly that entry: the key is gone,
   * every other key keeps its binding, the rest keep their relative order.
   */
  lemma UnsetRemoves<V>(a: seq<(Idx, V)>, k: Idx)
    requires DistinctKeys(a) && KeyExists(a, k)
    ensures DistinctKeys(Unset(a, k))
    ensures |Unset(a, k)| == |a| - 1
    ensures !KeyExists(Unset(a, k), k)
    ensures forall j :: j != k ==> Get(Unset(a, k), j) == Get(a, j)
    ensures var p := Position(a, k).value; Values(Unset(a, k)) == Values(a)[..p] + Values(a)[p + 1..]
  {
    UnsetShifts(a, k);
    forall j | j != k ensures Get(Unset(a, k), j) == Get(a, j) {
      UnsetKeepsOther(a, k, j);
    }
  }

  /** Unsetting `k` leaves the binding of any other key `j` as it was. */
  lemma UnsetKeepsOther<V>(a: seq<(Idx, V)>, k: Idx, j: Idx)
    requires DistinctKeys(a) && KeyExists(a, k) && j != k
    ensures Get(Unset(a, k), j) == Get(a, j)
  {
    var p := Position(a, k).value;
    var r := a[..p] + a[p + 1..];
    assert Unset(a, k) == r;
    DeleteAt(a, p);
    match Position(a, j)
    case None =>
      forall i | 0 <= i < |r| ensures r[i].0 != j {
        assert r[i] == if i < p then a[i] else a[i + 1];
      }
    case Some(q) =>
      var q' := if q < p then q else q - 1;
      assert r[q'] == a[q];
      PositionOfEntry(r, q');
  }

  /** The entries after the unset one move down by one place. */
  lemma UnsetShifts<V>(a: seq<(Idx, V)>, k: Idx)
    requires DistinctKeys(a) && KeyExists(a, k)
    ensures var p := Position(a, k).value; var r := Unset(a, k);
      && |r| == |a| - 1
      && (forall i :: 0 <= i < |r| ==> r[i] == if i < p then a[i] else a[i + 1])
      && DistinctKeys(r)
      && !KeyExists(r, k)
      && Values(r) == Values(a)[..p] + Values(a)[p + 1..]
  {
    var p := Position(a, k).value;
    assert Unset(a, k) == a[..p] + a[p + 1..];
    DeleteAt(a, p);
  }

  /** Deleting the entry at `p`: the later entries move down by one, keys stay distinct, key `a[p].0` is gone. */
  lemma DeleteAt<V>(a: seq<(Idx, V)>, p: nat)
    requires DistinctKeys(a) && p < |a|
    ensures var r := a[..p] + a[p + 1..];
      && |r| == |a| - 1
      && (forall i :: 0 <= i < |r| ==> r[i] == if i < p then a[i] else a[i + 1])
      && DistinctKeys(r)
      && Position(r, a[p].0).None?
      && Values(r) == Values(a)[..p] + Values(a)[p + 1..]
  {
    var r := a[..p] + a[p + 1..];
    assert forall i :: 0 <= i < |r| ==> r[i] == if i < p then a[i] else a[i + 1];
    UnsetValues(a, p);
  }

  lemma UnsetValues<V>(a: seq<(Idx, V)>, p: nat)
    requires p < |a|
    ensures Values(a[..p] + a[p + 1..]) == Values(a)[..p] + Values(a)[p + 1..]
  {
  }

  /**
   * `array_values` keeps the values and their order and replaces the keys
   * by 0, 1, ...; so exactly the integer keys 0 .. |a| - 1 exist afterwards.
   */
  lemma ArrayValuesReindexes<V>(a: seq<(Idx, V)>)
    ensures Values(ArrayValues(a)) == Values(a)
    ensures DistinctKeys(ArrayValues(a))
    ensures forall k :: KeyExists(ArrayValues(a), k) <==> k.IntIdx? && 0 <= k.i < |a|
  {
    PositionalIsList(Values(a));
  }

  /** A PHP list has distinct keys 0 .. n - 1 and gives back the values it was built from. */
  lemma PositionalIsList<V>(vs: seq<V>)
    ensures Values(Positional(vs)) == vs
    ensures DistinctKeys(Positional(vs))
    ensures forall k :: KeyExists(Positional(vs), k) <==> k.IntIdx? && 0 <= k.i < |vs|
  {
    var a := Positional(vs);
    forall k ensures KeyExists(a, k) <==> k.IntIdx? && 0 <= k.i < |vs| {
      if k.IntIdx? && 0 <= k.i < |vs| {
        assert a[k.i].0 == k;
      }
    }
  }
}
