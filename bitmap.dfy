/**
  `Bitmap<B>`: a fixed array of `B` bytes read as `8*B` bits, bit `i` being
  bit `i % 8` (least significant first) of byte `i / 8`. `set` and `get` fault
  on an index outside the bitmap; `set_or_max` instead saturates to the top
  bit `8*B - 1`.
 */
module Bitmaps {

  /** Bit `j` of byte `b`, least significant first. */
  function ByteBit(b: bv8, j: nat): bool
    requires j < 8
  {
    (b >> j) & 1 == 1
  }

  /** Bit `i` of a byte sequence. */
  function BitAt(bytes: seq<bv8>, i: nat): bool
    requires i < 8 * |bytes|
  {
    ByteBit(bytes[i / 8], i % 8)
  }

  /** The bits of a byte sequence, in index order. */
  function BitsOf(bytes: seq<bv8>): (bits: seq<bool>)
    ensures |bits| == 8 * |bytes|
  {
    seq(8 * |bytes|, i requires 0 <= i < 8 * |bytes| => BitAt(bytes, i))
  }

  /** Or-ing in `1 << k` sets bit `k` of a byte and no other. */
  lemma ByteBitOr(b: bv8, k: nat, j: nat)
    requires k < 8 && j < 8
    ensures ByteBit(b | (1 << k), j) == (j == k || ByteBit(b, j))
  {
  }

  /** The byte update of `Bitmap::set`: bit `i` becomes set and every other
      bit keeps its value. */
  function SetBit(bytes: seq<bv8>, i: nat): (r: seq<bv8>)
    requires i < 8 * |bytes|
    ensures |r| == |bytes|
    ensures BitsOf(r) == BitsOf(bytes)[i := true]
  {
    var r := bytes[i / 8 := bytes[i / 8] | (1 << (i % 8))];
    forall j | 0 <= j < 8 * |bytes|
      ensures BitAt(r, j) == (j == i || BitAt(bytes, j))
    {
      if j / 8 == i / 8 {
        ByteBitOr(bytes[i / 8], i % 8, j % 8);
      }
    }
    r
  }

  /** The bit `set_or_max(i)` sets: `i` itself when its byte exists, the top
      bit otherwise. */
  function SaturatedIndex(i: nat, byteCount: nat): (k: nat)
    requires byteCount > 0
    ensures k < 8 * byteCount
    ensures i < 8 * byteCount ==> k == i
    ensures i >= 8 * byteCount ==> k == 8 * byteCount - 1
  {
    if i / 8 < byteCount then i else 8 * (byteCount - 1) + 7
  }

  /** The byte update of `Bitmap::set_or_max`. */
  function SetOrMaxBit(bytes: seq<bv8>, i: nat): (r: seq<bv8>)
    requires |bytes| > 0
    ensures |r| == |bytes|
    ensures BitsOf(r) == BitsOf(bytes)[SaturatedIndex(i, |bytes|) := true]
  {
    if i / 8 < |bytes| then SetBit(bytes, i)
    else SetBit(bytes, 8 * (|bytes| - 1) + 7)
  }

  /** Setting a bit twice is setting it once. */
  lemma SetBitIdempotent(bytes: seq<bv8>, i: nat)
    requires i < 8 * |bytes|
    ensures SetBit(SetBit(bytes, i), i) == SetBit(bytes, i)
  {
  }

  /** Bits are never cleared: an update only turns bits on. */
  lemma SetOrMaxMonotone(bytes: seq<bv8>, i: nat, j: nat)
    requires |bytes| > 0 && j < 8 * |bytes|
    requires BitAt(bytes, j)
    ensures BitAt(SetOrMaxBit(bytes, i), j)
  {
    assert BitsOf(bytes)[j];
    assert BitsOf(SetOrMaxBit(bytes, i))[j];
  }

  class Bitmap {
    const bytes: array<bv8>

    /** `BITS`: the number of bits. */
    function BitCount(): nat {
      8 * bytes.Length
    }

    /** The abstract value: every bit, in index order. */
    ghost function Bits(): seq<bool>
      reads bytes
    {
      BitsOf(bytes[..])
    }

    /** `Bitmap::new`: `byteCount` zero bytes. */
    constructor (byteCount: nat)
      ensures fresh(bytes) && bytes.Length == byteCount
      ensures Bits() == seq(8 * byteCount, _ => false)
    {
      bytes := new bv8[byteCount](_ => 0);
    }

    method Set(i: nat)
      requires i < BitCount()
      modifies bytes
      ensures bytes[..] == SetBit(old(bytes[..]), i)
      ensures Bits() == old(Bits())[i := true]
    {
      bytes[i / 8] := bytes[i / 8] | (1 << (i % 8));
      assert bytes[..] == SetBit(old(bytes[..]), i);
    }

    method SetOrMax(i: nat)
      requires bytes.Length > 0
      modifies bytes
      ensures bytes[..] == SetOrMaxBit(old(bytes[..]), i)
      ensures Bits() == old(Bits())[SaturatedIndex(i, bytes.Length) := true]
    {
      var bucket := i / 8;
      if bucket < bytes.Length {
        bytes[bucket] := bytes[bucket] | (1 << (i % 8));
        assert bytes[..] == SetBit(old(bytes[..]), i);
      } else {
        bytes[bytes.Length - 1] := bytes[bytes.Length - 1] | (1 << 7);
        assert bytes[..] == SetBit(old(bytes[..]), 8 * (bytes.Length - 1) + 7);
      }
    }

    function Get(i: nat): (r: bool)
      requires i < BitCount()
      reads bytes
      ensures r == Bits()[i]
    {
      1 & (bytes[i / 8] >> (i % 8)) == 1
    }
  }
}
