/**
  `FlajoletMartin<T, S, N>`: an `N`-byte bitmap. `process(v)` sets the bit
  whose index is the number of trailing zero bits of the element's 64-bit
  hash, saturating to the top bit when that index lies beyond the bitmap.
  `query` scans the bytes from the first for one that is not `0xFF`; its
  index `z` (`8*i + trailing_ones(byte_i)`, or `8*N` when every byte is full)
  is the position of the first clear bit, and the estimate is derived from it.
 */
module Distinct {
  import opened Bitmaps

  /** Values of a 64-bit hash (`hash_one` returns a `u64`). */
  type U64 = h: nat | h < 0x1_0000_0000_0000_0000

  /** Bit `k` of `h`, least significant first. */
  function NatBit(h: nat, k: nat): bool {
    if k == 0 then h % 2 == 1 else NatBit(h / 2, k - 1)
  }

  /** `trailing_zeros` over a `width`-bit word: the number of low clear bits,
      which is `width` when all of them are clear. */
  function TrailingZeros(h: nat, width: nat): (z: nat)
    ensures z <= width
    ensures forall k :: 0 <= k < z ==> !NatBit(h, k)
    ensures z < width ==> NatBit(h, z)
  {
    if width == 0 || h % 2 == 1 then 0
    else
      var z := 1 + TrailingZeros(h / 2, width - 1);
      assert forall k :: 1 <= k < z ==> NatBit(h, k) == NatBit(h / 2, k - 1);
      z
  }

  /** The bit `process` sets for a hash value, in a bitmap of `byteCount`
      bytes. */
  function Slot(h: U64, byteCount: nat): (k: nat)
    requires byteCount > 0
    ensures k < 8 * byteCount
  {
    SaturatedIndex(TrailingZeros(h, 64), byteCount)
  }

  /** Whether some element of `stream` selects bit `k`. */
  ghost predicate Selected<T>(stream: seq<T>, hash: T -> U64, byteCount: nat, k: nat)
    requires byteCount > 0
  {
    exists x :: x in stream && Slot(hash(x), byteCount) == k
  }

  /** `z` is the position of the first clear bit of `bits`, or `|bits|` when
      every bit is set. */
  predicate IsFirstClear(bits: seq<bool>, z: nat) {
    && z <= |bits|
    && (forall k :: 0 <= k < z ==> bits[k])
    && (z < |bits| ==> !bits[z])
  }

  /** `trailing_ones` of a byte, counted from bit `j` on. */
  function TrailingOnesFrom(b: bv8, j: nat): (n: nat)
    requires j <= 8
    ensures j <= n <= 8
    ensures forall i :: j <= i < n ==> ByteBit(b, i)
    ensures n < 8 ==> !ByteBit(b, n)
    decreases 8 - j
  {
    if j == 8 || !ByteBit(b, j) then j else TrailingOnesFrom(b, j + 1)
  }

  /** A full byte is one whose eight bits are all set. */
  lemma FullByte(b: bv8)
    requires b != 0xFF
    ensures exists j :: 0 <= j < 8 && !ByteBit(b, j)
  {
    if ByteBit(b, 0) && ByteBit(b, 1) && ByteBit(b, 2) && ByteBit(b, 3)
      && ByteBit(b, 4) && ByteBit(b, 5) && ByteBit(b, 6) {
      assert !ByteBit(b, 7);
    }
  }

  /** The scan of `query` from byte `i` on, all earlier bits being set. */
  function ScanFrom(bytes: seq<bv8>, i: nat): (z: nat)
    requires i <= |bytes|
    requires forall k :: 0 <= k < 8 * i ==> BitAt(bytes, k)
    ensures IsFirstClear(BitsOf(bytes), z)
    decreases |bytes| - i
  {
    if i == |bytes| then 8 * |bytes|
    else if bytes[i] == 0xFF then
      assert forall k :: 8 * i <= k < 8 * i + 8 ==> BitAt(bytes, k) by {
        forall k | 8 * i <= k < 8 * i + 8 ensures BitAt(bytes, k) {
          assert k / 8 == i;
        }
      }
      ScanFrom(bytes, i + 1)
    else
      FullByte(bytes[i]);
      var z := 8 * i + TrailingOnesFrom(bytes[i], 0);
      assert forall k :: 8 * i <= k <= z && k < 8 * |bytes| ==> k / 8 == i && k % 8 == k - 8 * i;
      z
  }

  /** The index `query` derives its estimate from. */
  function QueryIndex(bytes: seq<bv8>): (z: nat)
    ensures IsFirstClear(BitsOf(bytes), z)
    ensures z <= 8 * |bytes|
  {
    ScanFrom(bytes, 0)
  }

  /** A fresh bitmap (the empty stream) has index 0, whose estimate is 0. */
  lemma EmptyIndex(byteCount: nat)
    requires byteCount > 0
    ensures QueryIndex(seq(byteCount, _ => 0 as bv8)) == 0
  {
    var bytes := seq(byteCount, _ => 0 as bv8);
    assert !BitsOf(bytes)[0];
  }

  /** Setting bits never lowers the first clear position. */
  lemma FirstClearMonotone(a: seq<bool>, b: seq<bool>, za: nat, zb: nat)
    requires |a| == |b|
    requires forall k :: 0 <= k < |a| && a[k] ==> b[k]
    requires IsFirstClear(a, za) && IsFirstClear(b, zb)
    ensures za <= zb
  {
  }

  /** The query index never decreases as `process` is called. */
  lemma IndexMonotone(bytes: seq<bv8>, h: U64)
    requires |bytes| > 0
    ensures QueryIndex(bytes) <= QueryIndex(SetOrMaxBit(bytes, TrailingZeros(h, 64)))
  {
    var after := SetOrMaxBit(bytes, TrailingZeros(h, 64));
    FirstClearMonotone(BitsOf(bytes), BitsOf(after), QueryIndex(bytes), QueryIndex(after));
  }

  /** Processing an element twice leaves the bitmap as processing it once. */
  lemma ProcessIdempotent(bytes: seq<bv8>, h: U64)
    requires |bytes| > 0
    ensures var once := SetOrMaxBit(bytes, TrailingZeros(h, 64));
      SetOrMaxBit(once, TrailingZeros(h, 64)) == once
  {
    var z := TrailingZeros(h, 64);
    SetBitIdempotent(bytes, SaturatedIndex(z, |bytes|));
  }

  class FlajoletMartin<T> {
    const hash: T -> U64
    const bitmap: Bitmap

    predicate Valid() {
      bitmap.bytes.Length > 0
    }

    /** `new`: asserts `N != 0`; all bits clear. */
    constructor (byteCount: nat, hash: T -> U64)
      requires byteCount != 0
      ensures Valid() && this.hash == hash
      ensures fresh(bitmap) && fresh(bitmap.bytes) && bitmap.bytes.Length == byteCount
      ensures bitmap.Bits() == seq(8 * byteCount, _ => false)
    {
      this.hash := hash;
      bitmap := new Bitmap(byteCount);
    }

    method Process(v: T)
      requires Valid()
      modifies bitmap.bytes
      ensures bitmap.bytes[..] == SetOrMaxBit(old(bitmap.bytes[..]), TrailingZeros(hash(v), 64))
      ensures bitmap.Bits() == old(bitmap.Bits())[Slot(hash(v), bitmap.bytes.Length) := true]
    {
      bitmap.SetOrMax(TrailingZeros(hash(v), 64));
    }

    /** The integer part of `query`: the index of the first clear bit. */
    function Index(): (z: nat)
      requires Valid()
      reads bitmap.bytes
      ensures IsFirstClear(bitmap.Bits(), z)
      ensures z <= bitmap.BitCount()
    {
      QueryIndex(bitmap.bytes[..])
    }

    /** `StreamProcessor::apply` up to the index: it is the least bit that no
        element of the stream selects, so 0 on the empty stream. */
    static method Apply(byteCount: nat, hash: T -> U64, stream: seq<T>) returns (z: nat)
      requires byteCount != 0
      ensures z <= 8 * byteCount
      ensures forall k :: 0 <= k < z ==> Selected(stream, hash, byteCount, k)
      ensures z < 8 * byteCount ==> !Selected(stream, hash, byteCount, z)
      ensures stream == [] ==> z == 0
    {
      var f := new FlajoletMartin(byteCount, hash);
      var m := 8 * byteCount;
      var n := 0;
      while n < |stream|
        invariant n <= |stream|
        invariant |f.bitmap.Bits()| == m
        invariant forall k :: 0 <= k < m ==>
          (f.bitmap.Bits()[k] <==> Selected(stream[..n], hash, byteCount, k))
      {
        f.Process(stream[n]);
        assert stream[..n + 1] == stream[..n] + [stream[n]];
        n := n + 1;
      }
      assert stream[..n] == stream;
      z := f.Index();
      assert stream == [] ==> !Selected(stream, hash, byteCount, 0);
    }
  }
}
