/**
  The values the three compaction policies of `Compactor<T>` compute, as pure
  functions of the buffer and of the random choices, with the facts proved
  about them: how many elements survive, that survivors come from the buffer
  (never invented) and keep its order, which part of the buffer is left.
 */
module CompactorSpec {
  import opened Arith
  import opened Ordering

  /** A compactor capacity: `new` rejects `0`. */
  type Pos = n: nat | n >= 1 witness 1

  /** `rand().round()`: the parity `additive_compact` keeps. */
  type Parity = p: nat | p < 2

  // ---------------------------------------------------------------------------
  // additive_compact
  // ---------------------------------------------------------------------------

  /** The elements of `s` at the positions of parity `p`, in order. */
  function Alternate(s: seq<int>, p: Parity): (r: seq<int>)
    ensures |r| == (|s| + 1 - p) / 2
    ensures forall j :: 0 <= j < |r| ==> 2 * j + p < |s| && r[j] == s[2 * j + p]
  {
    if s == [] then []
    else
      var r := Alternate(s[..|s| - 1], p);
      if (|s| - 1) % 2 == p then r + [s[|s| - 1]] else r
  }

  /** `Alternate` computed together with the fact that it draws from `s`:
      the contract of the recursive call covers all but the last element. */
  ghost function AlternateInduction(s: seq<int>, p: Parity): (r: seq<int>)
    ensures r == Alternate(s, p)
    ensures multiset(r) <= multiset(s)
  {
    if s == [] then []
    else
      var init := s[..|s| - 1];
      var r := AlternateInduction(init, p);
      assert s == init + [s[|s| - 1]];
      if (|s| - 1) % 2 == p then r + [s[|s| - 1]] else r
  }

  /** Every survivor of `additive_compact` comes from the buffer, and the
      survivors of a sorted buffer are sorted. */
  lemma AlternateFromBuffer(s: seq<int>, p: Parity)
    ensures multiset(Alternate(s, p)) <= multiset(s)
    ensures Sorted(s) ==> Sorted(Alternate(s, p))
  {
    var r := AlternateInduction(s, p);
    if Sorted(s) {
      forall i, j | 0 <= i < j < |r| ensures r[i] <= r[j] {
        assert 2 * i + p < 2 * j + p;
      }
    }
  }

  /** A buffer of even length (a full one, `max_len` being even) loses
      exactly half of its elements, whichever parity is drawn. */
  lemma AlternateHalf(s: seq<int>, p: Parity)
    requires |s| % 2 == 0
    ensures |Alternate(s, p)| == |s| / 2
  {
  }

  // ---------------------------------------------------------------------------
  // relative_compact
  // ---------------------------------------------------------------------------

  /** The element of a drained slice at the retained index, if the index
      is inside the slice. */
  function Pick(slice: seq<int>, retained: nat): (p: seq<int>)
    ensures |p| <= 1
    ensures |p| == 1 <==> retained < |slice|
  {
    if retained < |slice| then [slice[retained]] else []
  }

  /** The picked element comes from the slice. */
  lemma PickWithin(slice: seq<int>, retained: nat)
    ensures multiset(Pick(slice, retained)) <= multiset(slice)
  {
    if retained < |slice| {
      assert slice[retained] in multiset(slice);
    }
  }

  /** What `relative_compact` pushes for slices `i .. k-1`, `b` being the
      buffer from slice `i` on (slice `i` is its first `2^i` elements): the
      element at the retained index of every slice whose retained index is
      inside it. */
  function RelativeKept(b: seq<int>, retained: seq<nat>, i: nat, k: nat): (r: seq<int>)
    requires i <= k <= |retained|
    requires |b| + SliceTotal(i) >= SliceTotal(k)
    ensures |r| <= k - i
    decreases k - i
  {
    if i == k then []
    else
      SliceTotalMonotone(i + 1, k);
      var size := Pow2(i);
      Pick(b[..size], retained[i]) + RelativeKept(b[size..], retained, i + 1, k)
  }

  /** Concatenation regrouped. */
  lemma Regroup(a: seq<int>, b: seq<int>, c: seq<int>)
    ensures a + (b + c) == (a + b) + c
  {
  }

  /** One slice of `RelativeKept`. */
  lemma RelativeUnfold(b: seq<int>, retained: seq<nat>, i: nat, k: nat)
    requires i < k <= |retained|
    requires SliceTotal(i + 1) <= SliceTotal(k) <= |b| + SliceTotal(i)
    ensures RelativeKept(b, retained, i, k)
      == Pick(b[..Pow2(i)], retained[i]) + RelativeKept(b[Pow2(i)..], retained, i + 1, k)
  {
  }

  /** One slice of `RelativeKept`: after pushing slice `i`'s retained
      element, if any, onto `x`, the rest of the slices complete the same
      output. */
  lemma RelativeStep(x: seq<int>, x': seq<int>, b: seq<int>, retained: seq<nat>, i: nat, next: nat, k: nat, y: seq<int>)
    requires next == i + 1 <= k <= |retained|
    requires SliceTotal(next) <= SliceTotal(k) <= |b| + SliceTotal(i)
    requires x + RelativeKept(b, retained, i, k) == y
    requires x' == x + Pick(b[..Pow2(i)], retained[i])
    ensures x' + RelativeKept(b[Pow2(i)..], retained, next, k) == y
  {
    RelativeUnfold(b, retained, i, k);
    Regroup(x, Pick(b[..Pow2(i)], retained[i]), RelativeKept(b[Pow2(i)..], retained, i + 1, k));
  }

  /** `RelativeKept` computed together with the fact that it draws from
      the slices it walks: the contract of the recursive call covers the
      slices after the first. */
  ghost function RelativeInduction(b: seq<int>, retained: seq<nat>, i: nat, k: nat): (r: seq<int>)
    requires i <= k <= |retained|
    requires SliceTotal(i) <= SliceTotal(k) <= |b| + SliceTotal(i)
    ensures r == RelativeKept(b, retained, i, k)
    ensures multiset(r) <= multiset(b[..SliceTotal(k) - SliceTotal(i)])
    decreases k - i
  {
    if i == k then []
    else
      SliceTotalMonotone(i + 1, k);
      var t := RelativeInduction(b[Pow2(i)..], retained, i + 1, k);
      RelativeUnfold(b, retained, i, k);
      RelativeJoin(b, retained, i, k, t);
      Pick(b[..Pow2(i)], retained[i]) + t
  }

  /** The first slice's pick, followed by picks drawn from the slices after
      it, stays within the slices walked. */
  lemma RelativeJoin(b: seq<int>, retained: seq<nat>, i: nat, k: nat, t: seq<int>)
    requires i < k <= |retained|
    requires SliceTotal(i + 1) <= SliceTotal(k) <= |b| + SliceTotal(i)
    requires multiset(t) <= multiset(b[Pow2(i)..][..SliceTotal(k) - SliceTotal(i + 1)])
    ensures multiset(Pick(b[..Pow2(i)], retained[i]) + t) <= multiset(b[..SliceTotal(k) - SliceTotal(i)])
  {
    PickWithin(b[..Pow2(i)], retained[i]);
    PrefixConserves(b, Pow2(i), SliceTotal(k) - SliceTotal(i + 1), SliceTotal(k) - SliceTotal(i),
                    Pick(b[..Pow2(i)], retained[i]), t);
  }

  /** A piece of the first `size` elements followed by a piece of the next
      `m` stays within the first `n = size + m`. */
  lemma PrefixConserves(b: seq<int>, size: nat, m: nat, n: nat, p: seq<int>, t: seq<int>)
    requires n == size + m <= |b|
    requires multiset(p) <= multiset(b[..size])
    requires multiset(t) <= multiset(b[size..][..m])
    ensures multiset(p + t) <= multiset(b[..n])
  {
    assert b[..n] == b[..size] + b[size..][..m];
  }

  /** The survivors of `relative_compact` come from the drained prefix of
      the buffer: never invented, never taken twice. */
  lemma RelativeConserves(b: seq<int>, retained: seq<nat>, k: nat)
    requires k <= |retained| && SliceTotal(k) <= |b|
    ensures multiset(RelativeKept(b, retained, 0, k)) <= multiset(b[..SliceTotal(k)])
  {
    SliceTotalMonotone(0, k);
    var r := RelativeInduction(b, retained, 0, k);
  }

  /** What `relative_compact` pushes from a buffer of capacity `maxLen`
      (`maxLen + 1` a power of two, at least `maxLen` buffered): one
      candidate per slice of sizes `1, 2, 4, ...`, the slices covering the
      first `maxLen` elements. */
  function RelativeOutput(b: seq<int>, maxLen: nat, retained: seq<nat>): seq<int>
    requires IsPowerOfTwo(maxLen + 1) && |b| >= maxLen
    requires |retained| >= CheckedLog(maxLen + 1)
  {
    Pow2Sum(CheckedLog(maxLen + 1));
    RelativeKept(b, retained, 0, CheckedLog(maxLen + 1))
  }

  /** With `max_len + 1` a power of two, the slices of sizes `1, 2, 4, ...`
      cover exactly `max_len` elements. */
  lemma RelativeSlices(maxLen: nat)
    requires IsPowerOfTwo(maxLen + 1)
    ensures SliceTotal(CheckedLog(maxLen + 1)) == maxLen
  {
    Pow2Sum(CheckedLog(maxLen + 1));
  }

  /** Exactly one survivor per slice when every retained index is inside
      its slice, and none at all when every one equals (or exceeds) its
      slice size. */
  lemma {:induction false} RelativeKeptCount(b: seq<int>, retained: seq<nat>, i: nat, k: nat)
    requires i <= k <= |retained|
    requires |b| + SliceTotal(i) >= SliceTotal(k)
    ensures (forall j :: i <= j < k ==> retained[j] < Pow2(j)) ==> |RelativeKept(b, retained, i, k)| == k - i
    ensures (forall j :: i <= j < k ==> retained[j] >= Pow2(j)) ==> RelativeKept(b, retained, i, k) == []
    decreases k - i
  {
    if i < k {
      SliceTotalMonotone(i + 1, k);
      RelativeKeptCount(b[Pow2(i)..], retained, i + 1, k);
      RelativeUnfold(b, retained, i, k);
    }
  }

  // ---------------------------------------------------------------------------
  // linear_relative_compact
  // ---------------------------------------------------------------------------

  /** The number of chunks, `floor(sqrt(max_len))`. */
  function ChunkCount(maxLen: Pos): (nc: nat)
    ensures 1 <= nc <= maxLen / nc
  {
    ChunkShape(maxLen);
    ISqrt(maxLen)
  }

  /** The chunk size, `max_len / num_chunks`. */
  function ChunkSize(maxLen: Pos): (cs: nat)
    ensures cs >= ChunkCount(maxLen) >= 1
    ensures ChunkCount(maxLen) * cs <= maxLen
  {
    var nc := ChunkCount(maxLen);
    assert maxLen == (maxLen / nc) * nc + maxLen % nc;
    maxLen / nc
  }

  /** `max_len` splits into whole chunks with nothing left over. */
  predicate Exact(maxLen: Pos) {
    ChunkCount(maxLen) * ChunkSize(maxLen) == maxLen
  }

  /** A perfect square `r*r` is split into `r` chunks of `r`. */
  lemma PerfectSquareExact(r: Pos)
    ensures ChunkCount(r * r) == r && ChunkSize(r * r) == r
    ensures Exact(r * r)
  {
    ISqrtUnique(r * r, r);
    DivModUnique(r * r, r, r, 0);
  }

  /** The distance between removed positions, `floor(chunk_size / m)`; for
      `m == 0` the crate's quotient is infinite but never used. */
  function Stride(cs: nat, m: nat): nat {
    if m == 0 then 0 else cs / m
  }

  /** The positions `0 .. n-1`. */
  function Upto(n: nat): (r: seq<nat>)
    ensures |r| == n && forall i :: 0 <= i < n ==> r[i] == i
  {
    if n == 0 then [] else Upto(n - 1) + [n - 1]
  }

  predicate Distinct(s: seq<nat>) {
    forall i, j :: 0 <= i < j < |s| ==> s[i] != s[j]
  }

  /** The walk of the `rm_buf` loop: `count` positions from `x` on, each the
      previous one plus `stride`, modulo the chunk size `cs`. */
  function StridedWalk(x: nat, stride: nat, cs: Pos, count: nat): (w: seq<nat>)
    ensures |w| == count
    decreases count
  {
    if count == 0 then [] else [x] + StridedWalk((x + stride) % cs, stride, cs, count - 1)
  }

  /** Position `j` of the walk in closed form: `x + j*stride` modulo `cs`. */
  lemma {:induction false} StridedWalkAt(x: nat, stride: nat, cs: Pos, count: nat, j: nat)
    requires x < cs && j < count
    ensures StridedWalk(x, stride, cs, count)[j] == (x + j * stride) % cs
    decreases j
  {
    if j == 0 {
      DivModUnique(x, cs, 0, x);
    } else {
      StridedWalkAt((x + stride) % cs, stride, cs, count - 1, j - 1);
      ModAdd(x + stride, (j - 1) * stride, cs);
      assert x + stride + (j - 1) * stride == x + j * stride;
    }
  }

  /** The contents of `rm_buf` for chunk `n`: `min(n, chunk_size)` positions
      of the chunk, every one of them different (so the assertion against a
      repeated position never fails). Below a whole chunk they are
      `start + j*stride` modulo the chunk size; at a whole chunk, every
      position. */
  function RemovedPositions(cs: Pos, n: nat, start: nat): (rm: seq<nat>)
    ensures |rm| == Min(n, cs)
    ensures forall j :: 0 <= j < |rm| ==> rm[j] < cs
    ensures Distinct(rm)
  {
    var m := Min(n, cs);
    if m >= cs then Upto(cs)
    else
      var x, st := start % cs, Stride(cs, m);
      var rm := StridedWalk(x, st, cs, m);
      assert forall j :: 0 <= j < m ==> rm[j] < cs by {
        forall j | 0 <= j < m ensures rm[j] < cs {
          StridedWalkAt(x, st, cs, m, j);
        }
      }
      assert Distinct(rm) by {
        forall i, j | 0 <= i < j < m ensures rm[i] != rm[j] {
          StridedWalkAt(x, st, cs, m, i);
          StridedWalkAt(x, st, cs, m, j);
          StrideOffsets(cs, m, i, j);
          ModDistinct(x, i * st, j * st, cs);
        }
      }
      rm
  }

  /** One step of the `rm_buf` loop: the next position of the walk has not
      been drawn yet, and drawing it leaves the rest of the walk. */
  lemma WalkStep(drawn: seq<nat>, x: nat, stride: nat, cs: Pos, count: nat, positions: seq<nat>)
    requires count > 0 && Distinct(positions)
    requires drawn + StridedWalk(x, stride, cs, count) == positions
    ensures x !in drawn
    ensures (drawn + [x]) + StridedWalk((x + stride) % cs, stride, cs, count - 1) == positions
  {
    var tail := StridedWalk((x + stride) % cs, stride, cs, count - 1);
    assert StridedWalk(x, stride, cs, count) == [x] + tail;
    assert positions[|drawn|] == x;
    forall i | 0 <= i < |drawn| ensures drawn[i] != x {
      assert positions[i] == drawn[i];
    }
  }

  /** The elements of `chunk` whose positions are not in `rm`, in order. */
  function Kept(chunk: seq<int>, rm: seq<nat>): (r: seq<int>)
    ensures |r| <= |chunk|
  {
    if chunk == [] then []
    else Kept(chunk[..|chunk| - 1], rm) + if |chunk| - 1 in rm then [] else [chunk[|chunk| - 1]]
  }

  /** The survivors of a chunk come from it. */
  lemma {:induction false} KeptFromChunk(chunk: seq<int>, rm: seq<nat>)
    ensures multiset(Kept(chunk, rm)) <= multiset(chunk)
  {
    if chunk != [] {
      var init := chunk[..|chunk| - 1];
      assert chunk == init + [chunk[|chunk| - 1]];
      KeptFromChunk(init, rm);
    }
  }

  /** A sorted chunk's survivors are sorted. */
  lemma {:induction false} KeptSorted(chunk: seq<int>, rm: seq<nat>)
    requires Sorted(chunk)
    ensures Sorted(Kept(chunk, rm))
  {
    if chunk != [] {
      var init := chunk[..|chunk| - 1];
      var last := chunk[|chunk| - 1];
      assert chunk == init + [last];
      KeptSorted(init, rm);
      KeptFromChunk(init, rm);
      var k := Kept(init, rm);
      forall i | 0 <= i < |k| ensures k[i] <= last {
        assert k[i] in multiset(init);
      }
    }
  }

  /** The positions of `rm` below `n`. */
  function Below(rm: seq<nat>, n: nat): set<nat> {
    set i: nat | i < n && i in rm
  }

  /** A chunk loses exactly the positions of `rm` that lie inside it. */
  lemma {:induction false} KeptCountBelow(chunk: seq<int>, rm: seq<nat>)
    ensures |Kept(chunk, rm)| + |Below(rm, |chunk|)| == |chunk|
  {
    if chunk != [] {
      var n := |chunk| - 1;
      KeptCountBelow(chunk[..n], rm);
      if n in rm {
        assert Below(rm, n + 1) == Below(rm, n) + {n};
      } else {
        assert Below(rm, n + 1) == Below(rm, n);
      }
    }
  }

  lemma {:induction false} DistinctCard(rm: seq<nat>)
    requires Distinct(rm)
    ensures |Elements(rm)| == |rm|
  {
    if rm == [] {
      assert Elements(rm) == {};
    } else {
      var init := rm[..|rm| - 1];
      var last := rm[|rm| - 1];
      assert Distinct(init) by {
        forall i, j | 0 <= i < j < |init| ensures init[i] != init[j] {
          assert init[i] == rm[i] && init[j] == rm[j];
        }
      }
      DistinctCard(init);
      assert last !in Elements(init) by {
        forall i | 0 <= i < |init| ensures init[i] != last {
          assert init[i] == rm[i];
        }
      }
      assert rm == init + [last];
      assert Elements(rm) == Elements(init) + {last};
    }
  }

  /** The positions held in `rm`. */
  function Elements(rm: seq<nat>): set<nat> {
    set x | x in rm
  }

  /** A whole chunk loses exactly `|rm|` elements when `rm` holds distinct
      positions of it. */
  lemma KeptCount(chunk: seq<int>, rm: seq<nat>)
    requires Distinct(rm)
    requires forall j :: 0 <= j < |rm| ==> rm[j] < |chunk|
    ensures |Kept(chunk, rm)| + |rm| == |chunk|
  {
    KeptCountBelow(chunk, rm);
    DistinctCard(rm);
    assert Below(rm, |chunk|) == Elements(rm);
  }

  /** Nothing is removed from a chunk when `rm` is empty (chunk 0). */
  lemma {:induction false} KeptAll(chunk: seq<int>)
    ensures Kept(chunk, []) == chunk
  {
    if chunk != [] {
      KeptAll(chunk[..|chunk| - 1]);
    }
  }

  /** The removal positions of chunks `0 .. nc-1`, one list per chunk,
      chunk `n` drawing its start from `starts[n]`. */
  function RemovalPlan(cs: Pos, nc: nat, starts: seq<nat>): (rms: seq<seq<nat>>)
    requires nc <= |starts|
    ensures |rms| == nc
    ensures forall n :: 0 <= n < nc ==> rms[n] == RemovedPositions(cs, n, starts[n])
  {
    seq(nc, n requires 0 <= n < nc => RemovedPositions(cs, n, starts[n]))
  }

  /** What `linear_relative_compact` pushes for chunks `n .. nc-1`, `b` being
      the sorted buffer from chunk `n` on and `rms[n]` the positions chunk
      `n` loses; it stops at an empty buffer. */
  function LinearKept(b: seq<int>, cs: Pos, nc: nat, n: nat, rms: seq<seq<nat>>): seq<int>
    requires n <= nc <= |rms|
    decreases nc - n
  {
    if n == nc || b == [] then []
    else
      var c := Min(cs, |b|);
      Kept(b[..c], rms[n]) + LinearKept(b[c..], cs, nc, n + 1, rms)
  }

  /** What `linear_relative_compact` leaves in the buffer after chunks
      `n .. nc-1`. */
  function LinearRest(b: seq<int>, cs: Pos, nc: nat, n: nat): seq<int>
    requires n <= nc
    decreases nc - n
  {
    if n == nc || b == [] then b
    else LinearRest(b[Min(cs, |b|)..], cs, nc, n + 1)
  }

  /** The chunks are drained from the front: what is left is a suffix of the
      buffer past `(nc - n)` whole chunks. */
  lemma {:induction false} LinearRestSuffix(b: seq<int>, cs: Pos, nc: nat, n: nat)
    requires n <= nc
    ensures LinearRest(b, cs, nc, n) == b[Min(|b|, (nc - n) * cs)..]
    decreases nc - n
  {
    if n < nc && b != [] {
      var c := Min(cs, |b|);
      LinearRestSuffix(b[c..], cs, nc, n + 1);
      SuffixShift(|b|, cs, nc - n);
      assert b[c..][Min(|b| - c, (nc - n - 1) * cs)..] == b[Min(|b|, (nc - n) * cs)..];
    } else if n == nc {
      assert (nc - n) * cs == 0;
    }
  }

  /** Skipping `r` chunks of `cs` is skipping one chunk, then `r - 1` more,
      or all of a buffer shorter than a chunk. */
  lemma SuffixShift(len: nat, cs: Pos, r: nat)
    requires r >= 1
    ensures len >= cs ==> Min(len, r * cs) == cs + Min(len - cs, (r - 1) * cs)
    ensures len < cs ==> Min(len, r * cs) == len && Min(0, (r - 1) * cs) == 0
  {
    MulStep(r - 1, cs);
  }

  /** The number of survivors of whole chunks `n .. nc-1`: chunk `n` keeps
      `cs - min(n, cs)` elements. */
  function WholeChunksKept(cs: Pos, nc: nat, n: nat): nat
    requires n <= nc
    decreases nc - n
  {
    if n == nc then 0 else (cs - Min(n, cs)) + WholeChunksKept(cs, nc, n + 1)
  }

  /** A buffer holding at least `nc - n` whole chunks pushes exactly
      `WholeChunksKept` survivors. */
  lemma {:induction false} LinearKeptCount(b: seq<int>, cs: Pos, nc: nat, n: nat, starts: seq<nat>)
    requires n <= nc <= |starts|
    requires |b| >= (nc - n) * cs
    ensures |LinearKept(b, cs, nc, n, RemovalPlan(cs, nc, starts))| == WholeChunksKept(cs, nc, n)
    decreases nc - n
  {
    if n < nc {
      assert (nc - n) * cs == cs + (nc - n - 1) * cs;
      MulBounds(nc - n - 1, cs);
      KeptCount(b[..cs], RemovedPositions(cs, n, starts[n]));
      LinearKeptCount(b[cs..], cs, nc, n + 1, starts);
    }
  }

  /** The closed form of the survivor count when no chunk is dropped whole:
      `nc*cs - nc*(nc-1)/2`. */
  lemma {:induction false} WholeChunksKeptClosed(cs: Pos, nc: nat, n: nat)
    requires n <= nc <= cs
    ensures 2 * WholeChunksKept(cs, nc, n) == (nc - n) * (2 * cs - nc - n + 1)
    decreases nc - n
  {
    if n < nc {
      WholeChunksKeptClosed(cs, nc, n + 1);
      assert (nc - n) * (2 * cs - nc - n + 1)
        == 2 * (cs - n) + (nc - n - 1) * (2 * cs - nc - n);
    }
  }

  /** `linear_relative_compact` on the buffer of a compactor of capacity
      `maxLen`: the pushed survivors. */
  function LinearOutput(buffer: seq<int>, maxLen: Pos, starts: seq<nat>): seq<int>
    requires |starts| >= ChunkCount(maxLen)
  {
    LinearKept(Sort(buffer), ChunkSize(maxLen), ChunkCount(maxLen), 0,
      RemovalPlan(ChunkSize(maxLen), ChunkCount(maxLen), starts))
  }

  /** `linear_relative_compact` on the buffer of a compactor of capacity
      `maxLen`: what stays in the buffer. */
  function LinearLeftover(buffer: seq<int>, maxLen: Pos): seq<int> {
    LinearRest(Sort(buffer), ChunkSize(maxLen), ChunkCount(maxLen), 0)
  }

  /** Within capacity, the leftover is what lies past the whole chunks: it
      is shorter than the capacity, and empty when the chunks cover it. */
  lemma LinearLeftoverSize(buffer: seq<int>, maxLen: Pos)
    requires |buffer| <= maxLen
    ensures |LinearLeftover(buffer, maxLen)| < maxLen
    ensures |LinearLeftover(buffer, maxLen)| + ChunkCount(maxLen) * ChunkSize(maxLen) <= maxLen
      || LinearLeftover(buffer, maxLen) == []
    ensures Exact(maxLen) ==> LinearLeftover(buffer, maxLen) == []
  {
    var cs, nc := ChunkSize(maxLen), ChunkCount(maxLen);
    LinearRestSuffix(Sort(buffer), cs, nc, 0);
    MulBounds(nc, cs);
    PastChunks(Sort(buffer), nc * cs, maxLen);
  }

  /** What lies past the first `t >= 1` elements of a buffer of at most
      `maxLen`. */
  lemma PastChunks(b: seq<int>, t: nat, maxLen: nat)
    requires 1 <= t <= maxLen && |b| <= maxLen
    ensures |b[Min(|b|, t)..]| < maxLen
    ensures |b[Min(|b|, t)..]| + t <= maxLen || b[Min(|b|, t)..] == []
    ensures t == maxLen ==> b[Min(|b|, t)..] == []
  {
  }

  /** The number of positions to remove, `min(n, chunk_size)`, is always
      below the chunk size: the branch that removes a whole chunk is never
      taken, because there are at most as many chunks as a chunk has
      elements. */
  lemma NoWholeChunkRemoved(maxLen: Pos, n: nat)
    requires n < ChunkCount(maxLen)
    ensures Min(n, ChunkSize(maxLen)) == n < ChunkSize(maxLen)
  {
  }

  /** Chunk 0 is kept whole. */
  lemma FirstChunkKept(cs: Pos, start: nat, chunk: seq<int>)
    ensures Kept(chunk, RemovedPositions(cs, 0, start)) == chunk
  {
    KeptAll(chunk);
  }

  /** A full buffer of `max_len` elements pushes `nc*cs - nc*(nc-1)/2`
      survivors. */
  lemma FullBufferOutput(buffer: seq<int>, maxLen: Pos, starts: seq<nat>)
    requires |buffer| == maxLen && |starts| >= ChunkCount(maxLen)
    ensures var nc, cs := ChunkCount(maxLen), ChunkSize(maxLen);
      2 * |LinearOutput(buffer, maxLen, starts)| == nc * (2 * cs - nc + 1)
  {
    FullChunksCount(Sort(buffer), ChunkSize(maxLen), ChunkCount(maxLen), starts);
  }

  /** `nc` whole chunks of `cs`, none dropped whole, keep
      `nc*cs - nc*(nc-1)/2` elements. */
  lemma FullChunksCount(b: seq<int>, cs: Pos, nc: nat, starts: seq<nat>)
    requires nc <= cs && nc <= |starts| && |b| >= nc * cs
    ensures 2 * |LinearKept(b, cs, nc, 0, RemovalPlan(cs, nc, starts))| == nc * (2 * cs - nc + 1)
  {
    LinearKeptCount(b, cs, nc, 0, starts);
    WholeChunksKeptClosed(cs, nc, 0);
  }

  /** The capacity 144 of the chained test: 12 chunks of 12, a full buffer
      keeps 78 elements and leaves nothing behind. */
  lemma Capacity144(buffer: seq<int>, starts: seq<nat>)
    requires |buffer| == 144 && |starts| >= 12
    ensures ChunkCount(144) == 12 && ChunkSize(144) == 12 && Exact(144)
    ensures |LinearOutput(buffer, 144, starts)| == 78
    ensures LinearLeftover(buffer, 144) == []
  {
    PerfectSquareExact(12);
    FullBufferOutput(buffer, 144, starts);
    LinearLeftoverSize(buffer, 144);
  }

  // ---------------------------------------------------------------------------
  // rank
  // ---------------------------------------------------------------------------

  /** `rank`: the index `binary_search` reports, found or not. On a
      duplicate-free sorted slice it is the number of elements below `v`. */
  function Rank(outputs: seq<int>, v: int): (i: nat)
    requires Sorted(outputs)
    ensures i <= |outputs|
    ensures StrictlySorted(outputs) ==> i == CountLess(outputs, v)
    ensures v !in outputs ==> i == CountLess(outputs, v)
  {
    BinarySearch(outputs, v).index
  }
}
