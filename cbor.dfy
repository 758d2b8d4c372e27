/**
 * The CBOR objects the canonical map holds, taken as given: each has the
 * bytes its `__toString()` returns and, when it is `Normalizable`, the
 * PHP value its `normalize()` returns. Also the map header: the initial
 * byte of `AbstractCBORObject` and `LengthCalculator::getLengthOfArray`,
 * stated after the argument encoding of section 3 of RFC 8949.
 */
module Cbor {
  import opened Wrappers
  import opened PhpArray

  type byte = b: int | 0 <= b < 256

  /** Major type 5: a map of pairs of data items (section 3.1 of RFC 8949). */
  const MAJOR_TYPE_MAP: int := 5

  /** Additional information: the low five bits of an initial byte. */
  type AdditionalInfo = x: int | 0 <= x < 32

  /**
   * What `normalize()` returns: a value usable as an array key (after PHP's
   * key coercion), or a compound PHP value such as an array, which PHP
   * refuses as an array key.
   */
  datatype Native = KeyLike(idx: Idx) | Compound(id: nat)

  /** A CBOR object: its encoded bytes, and its normal form if it is `Normalizable`. */
  datatype CborObject = CborObject(bytes: seq<byte>, normalized: Option<Native>)

  /** `MapItem`: one key/value pair of a map. */
  datatype MapItem = MapItem(key: CborObject, value: CborObject)

  /** 256 to the power `w`: the number of values `w` bytes can hold. */
  function Pow256(w: nat): (r: nat)
    ensures r >= 1
  {
    if w == 0 then 1 else 256 * Pow256(w - 1)
  }

  /** `n` as `w` big-endian bytes (the high-order bytes of a too-large `n` are dropped). */
  function BigEndian(n: nat, w: nat): (r: seq<byte>)
    ensures |r| == w
  {
    if w == 0 then [] else BigEndian(n / 256, w - 1) + [n % 256]
  }

  /** The unsigned integer that big-endian bytes `s` denote. */
  function FromBigEndian(s: seq<byte>): (n: nat)
    ensures n < Pow256(|s|)
  {
    if s == [] then 0 else FromBigEndian(s[..|s| - 1]) * 256 + s[|s| - 1]
  }

  /** Writing `n` in `w` big-endian bytes and reading it back gives `n` when it fits. */
  lemma {:induction false} BigEndianRoundTrip(n: nat, w: nat)
    requires n < Pow256(w)
    ensures FromBigEndian(BigEndian(n, w)) == n
  {
    if w > 0 {
      var s := BigEndian(n, w);
      var q, r := n / 256, n % 256;
      assert n == q * 256 + r;
      assert q < Pow256(w - 1) by {
        assert Pow256(w) == 256 * Pow256(w - 1);
      }
      assert s[..|s| - 1] == BigEndian(q, w - 1) && s[|s| - 1] == r;
      BigEndianRoundTrip(q, w - 1);
    }
  }

  /** The initial byte: the major type in the high three bits, the additional information below. */
  function InitialByte(major: int, ai: AdditionalInfo): (b: byte)
    requires 0 <= major < 8
    ensures b / 32 == major && b % 32 == ai
  {
    major * 32 + ai
  }

  /**
   * `LengthCalculator::getLengthOfArray` as a function of the entry count:
   * the additional information and the length bytes that follow the
   * initial byte (None for PHP's `null`). Counts 0 to 23 go in the
   * initial byte; larger ones use additional information 24, 25, 26 or 27
   * followed by 1, 2, 4 or 8 big-endian bytes. RFC 8949 has no definite
   * length for 2^64 items or more; the model marks that case indefinite (31).
   */
  function LengthOfArray(count: nat): (AdditionalInfo, Option<seq<byte>>) {
    if count <= 23 then (count, None)
    else if count <= 0xFF then (24, Some(BigEndian(count, 1)))
    else if count <= 0xFFFF then (25, Some(BigEndian(count, 2)))
    else if count <= 0xFFFF_FFFF then (26, Some(BigEndian(count, 4)))
    else if count <= 0xFFFF_FFFF_FFFF_FFFF then (27, Some(BigEndian(count, 8)))
    else (31, None)
  }

  /** The head of a data item: its initial byte, then the length bytes when there are any. */
  function Head(major: int, ai: AdditionalInfo, length: Option<seq<byte>>): seq<byte>
    requires 0 <= major < 8
  {
    [InitialByte(major, ai)] + (if length.Some? then length.value else [])
  }

  /** How many argument bytes follow an initial byte with additional information `ai`. */
  function ArgumentWidth(ai: AdditionalInfo): nat {
    if ai == 24 then 1 else if ai == 25 then 2 else if ai == 26 then 4 else if ai == 27 then 8 else 0
  }

  /**
   * A decoder for the head of a data item (section 3 of RFC 8949): the major
   * type, the argument and the number of bytes the head takes; None on a
   * truncated head or on additional information 28 to 31.
   */
  function DecodeHead(bytes: seq<byte>): Option<(int, nat, nat)> {
    if bytes == [] then None
    else
      var major, ai := bytes[0] / 32, bytes[0] % 32;
      if ai < 24 then Some((major, ai, 1))
      else if ai <= 27 && 1 + ArgumentWidth(ai) <= |bytes| then
        Some((major, FromBigEndian(bytes[1..1 + ArgumentWidth(ai)]), 1 + ArgumentWidth(ai)))
      else None
  }

  /**
   * The map head computed from `LengthOfArray(count)` decodes back to major
   * type 5 and argument `count`, whatever bytes follow it.
   */
  lemma HeadRoundTrip(count: nat, rest: seq<byte>)
    requires count < Pow256(8)
    ensures var (ai, length) := LengthOfArray(count);
      DecodeHead(Head(MAJOR_TYPE_MAP, ai, length) + rest) == Some((MAJOR_TYPE_MAP, count, |Head(MAJOR_TYPE_MAP, ai, length)|))
  {
    var (ai, length) := LengthOfArray(count);
    var bytes := Head(MAJOR_TYPE_MAP, ai, length) + rest;
    if count > 23 {
      var w := ArgumentWidth(ai);
      assert bytes[1..1 + w] == length.value;
      assert count < Pow256(w) by {
        assert Pow256(1) == 256 && Pow256(2) == 65536 && Pow256(4) == 0x1_0000_0000;
      }
      BigEndianRoundTrip(count, w);
    }
  }

  /**
   * The head is the shortest one for the count (the preferred
   * serialization of section 4.2.1 of RFC 8949): no length bytes below 24,
   * and otherwise the fewest bytes of 1, 2, 4 and 8 that hold the count.
   */
  lemma HeadIsShortest(count: nat)
    requires count < Pow256(8)
    ensures var (ai, length) := LengthOfArray(count);
      && (length.None? <==> count < 24)
      && (length.None? ==> ai == count)
      && (length.Some? ==> ai == 23 + (if |length.value| == 8 then 4 else if |length.value| == 4 then 3 else |length.value|))
      && (length.Some? ==> count < Pow256(|length.value|))
      && (length.Some? && |length.value| > 1 ==> count >= Pow256(|length.value| / 2))
  {
    assert Pow256(1) == 256 && Pow256(2) == 65536 && Pow256(4) == 0x1_0000_0000;
  }
}
