/**
  `BloomFilter<T, S, N, H>`: `H` hashers over a bitmap of `N` bytes. `process`
  sets, for every hasher, the bit its hash of the element selects modulo the
  bit count; `query` asks whether all those bits are set. The hashers are
  functions fixed at construction (the crate's default-built `RandomState`s).
 */
module Bloom {
  import opened Bitmaps

  /** The bit hasher `j` selects for `v` in a bitmap of `m` bits. */
  function Position<T>(hashers: seq<T -> nat>, j: nat, v: T, m: nat): nat
    requires j < |hashers| && m > 0
  {
    hashers[j](v) % m
  }

  /** Whether some element of `stream` is sent to bit `k` by some hasher. */
  ghost predicate Hit<T>(stream: seq<T>, hashers: seq<T -> nat>, m: nat, k: nat)
    requires m > 0
  {
    exists x, i :: x in stream && 0 <= i < |hashers| && Position(hashers, i, x, m) == k
  }

  /** `query` on a bit sequence: every hasher's bit for `t` is set. */
  predicate Member<T>(bits: seq<bool>, hashers: seq<T -> nat>, t: T)
    requires |bits| > 0
  {
    forall j :: 0 <= j < |hashers| ==> bits[Position(hashers, j, t, |bits|)]
  }

  /** `process` on a bit sequence, after the first `n` hashers: exactly their
      bits for `v` have been added. */
  function Insert<T>(bits: seq<bool>, hashers: seq<T -> nat>, v: T, n: nat): (r: seq<bool>)
    requires |bits| > 0 && n <= |hashers|
    ensures |r| == |bits|
    ensures forall k :: 0 <= k < |bits| ==>
      (r[k] <==> bits[k] || exists j :: 0 <= j < n && Position(hashers, j, v, |bits|) == k)
  {
    if n == 0 then bits
    else Insert(bits, hashers, v, n - 1)[Position(hashers, n - 1, v, |bits|) := true]
  }

  /** No false negatives: right after `process(v)`, `query(v)` holds. */
  lemma NoFalseNegative<T>(bits: seq<bool>, hashers: seq<T -> nat>, v: T)
    requires |bits| > 0
    ensures Member(Insert(bits, hashers, v, |hashers|), hashers, v)
  {
    var r := Insert(bits, hashers, v, |hashers|);
    forall j | 0 <= j < |hashers|
      ensures r[Position(hashers, j, v, |bits|)]
    {
      var k := Position(hashers, j, v, |bits|);
      assert exists i :: 0 <= i < |hashers| && Position(hashers, i, v, |bits|) == k;
    }
  }

  /** A positive answer stays positive after any further `process`. */
  lemma MemberStable<T>(bits: seq<bool>, hashers: seq<T -> nat>, v: T, t: T)
    requires |bits| > 0
    requires Member(bits, hashers, t)
    ensures Member(Insert(bits, hashers, v, |hashers|), hashers, t)
  {
  }

  class BloomFilter<T> {
    const hashers: seq<T -> nat>
    const bitmap: Bitmap

    /** The byte count is nonzero, so every position is a valid bit. */
    predicate Valid() {
      bitmap.bytes.Length > 0
    }

    /** `new`: asserts `N != 0` and starts from an all-zero bitmap. */
    constructor (byteCount: nat, hashers: seq<T -> nat>)
      requires byteCount != 0
      ensures Valid() && this.hashers == hashers
      ensures fresh(bitmap) && fresh(bitmap.bytes) && bitmap.bytes.Length == byteCount
      ensures bitmap.Bits() == seq(8 * byteCount, _ => false)
    {
      this.hashers := hashers;
      bitmap := new Bitmap(byteCount);
    }

    method Process(v: T)
      requires Valid()
      modifies bitmap.bytes
      ensures bitmap.Bits() == Insert(old(bitmap.Bits()), hashers, v, |hashers|)
    {
      var j := 0;
      while j < |hashers|
        invariant j <= |hashers|
        invariant bitmap.Bits() == Insert(old(bitmap.Bits()), hashers, v, j)
      {
        bitmap.Set(hashers[j](v) % bitmap.BitCount());
        j := j + 1;
      }
    }

    function Query(t: T): (r: bool)
      requires Valid()
      reads bitmap.bytes
      ensures r == Member(bitmap.Bits(), hashers, t)
    {
      assert |bitmap.Bits()| == bitmap.BitCount();
      assert forall j :: 0 <= j < |hashers| ==>
        bitmap.Get(hashers[j](t) % bitmap.BitCount()) == bitmap.Bits()[Position(hashers, j, t, |bitmap.Bits()|)];
      forall j | 0 <= j < |hashers| :: bitmap.Get(hashers[j](t) % bitmap.BitCount())
    }

    /** `StreamProcessor::apply`: `t` is reported present exactly when every
        one of its bits was hit by some processed element; in particular an
        element of the stream is always reported. */
    static method Apply(byteCount: nat, hashers: seq<T -> nat>, stream: seq<T>, t: T) returns (r: bool)
      requires byteCount != 0
      ensures r <==> forall j :: 0 <= j < |hashers| ==>
        Hit(stream, hashers, 8 * byteCount, Position(hashers, j, t, 8 * byteCount))
      ensures t in stream ==> r
    {
      var f := new BloomFilter(byteCount, hashers);
      var m := 8 * byteCount;
      var n := 0;
      while n < |stream|
        invariant n <= |stream|
        invariant |f.bitmap.Bits()| == m
        invariant forall k :: 0 <= k < m ==> (f.bitmap.Bits()[k] <==> Hit(stream[..n], hashers, m, k))
      {
        ghost var before := f.bitmap.Bits();
        f.Process(stream[n]);
        forall k | 0 <= k < m
          ensures f.bitmap.Bits()[k] <==> Hit(stream[..n + 1], hashers, m, k)
        {
          assert stream[..n + 1] == stream[..n] + [stream[n]];
          if f.bitmap.Bits()[k] && !before[k] {
            var j :| 0 <= j < |hashers| && Position(hashers, j, stream[n], m) == k;
            assert stream[n] in stream[..n + 1];
          }
          if Hit(stream[..n + 1], hashers, m, k) {
            var x, i :| x in stream[..n + 1] && 0 <= i < |hashers| && Position(hashers, i, x, m) == k;
            if x != stream[n] {
              assert x in stream[..n];
            }
          }
        }
        n := n + 1;
      }
      assert stream[..n] == stream;
      r := f.Query(t);
      if t in stream {
        forall j | 0 <= j < |hashers|
          ensures Hit(stream, hashers, m, Position(hashers, j, t, m))
        {
        }
      }
    }
  }
}
