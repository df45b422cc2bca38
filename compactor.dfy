/**
  `Compactor<T>`: a buffer of at most `max_len` elements (the crate's `len`
  field) with three compaction policies, and `ChainedCompactors<T, N>`, a
  cascade in which the survivors of stage `idx` are added to stage `idx + 1`
  and the last stage's survivors go to an output vector. The random choices
  the crate draws from its global `rand()` are parameters here: the parity of
  `additive_compact`, the retained index of each slice of `relative_compact`,
  the start offset of each chunk of `linear_relative_compact`; the chain takes
  them from a `RandomSource`.
 */
module Compactors {
  import opened Arith
  import opened Ordering
  import opened CompactorSpec
  import opened LinearFacts

  class Compactor {
    const maxLen: Pos
    var buffer: seq<int>

    /** `new`: rejects a zero capacity; the buffer starts empty. */
    constructor (maxLen: nat)
      requires maxLen != 0
      ensures this.maxLen == maxLen && buffer == []
    {
      this.maxLen := maxLen;
      buffer := [];
    }

    /** Appends `t`; reports whether the buffer has just reached capacity. */
    method Add(t: int) returns (full: bool)
      modifies this
      ensures buffer == old(buffer) + [t]
      ensures full <==> |buffer| == maxLen
    {
      buffer := buffer + [t];
      full := |buffer| == maxLen;
    }

    /** `len()`: the number of elements buffered. */
    function Len(): (n: nat)
      reads this
      ensures n == |buffer|
    {
      |buffer|
    }

    function IsEmpty(): (r: bool)
      reads this
      ensures r <==> Len() == 0
    {
      buffer == []
    }

    /** Sorts the buffer, drains all of it and yields the elements at the
        positions of the drawn parity. */
    method AdditiveCompact(parity: Parity) returns (out: seq<int>)
      requires maxLen % 2 == 0
      modifies this
      ensures buffer == []
      ensures out == Alternate(Sort(old(buffer)), parity)
    {
      buffer := Sort(buffer);
      var drained := buffer;
      buffer := [];
      out := [];
      var i := 0;
      while i < |drained|
        invariant i <= |drained|
        invariant out == Alternate(drained[..i], parity)
      {
        assert drained[..i + 1][..i] == drained[..i];
        if i % 2 == parity {
          out := out + [drained[i]];
        }
        i := i + 1;
      }
      assert drained[..i] == drained;
    }

    /** Drains the first `max_len` elements in slices of `2^i` elements,
        `i < log2(max_len + 1)`, pushing onto `buf` the element at each
        slice's retained index (none when that index is the slice size). */
    method RelativeCompact(buf: seq<int>, retained: seq<nat>) returns (out: seq<int>)
      requires IsPowerOfTwo(maxLen + 1)
      requires |buffer| >= maxLen
      requires |retained| >= CheckedLog(maxLen + 1)
      modifies this
      ensures buffer == old(buffer)[maxLen..]
      ensures out == buf + RelativeOutput(old(buffer), maxLen, retained)
    {
      var k := CheckedLog(maxLen + 1);
      RelativeSlices(maxLen);
      out := DrainSlices(k, retained, buf);
    }

    /** The loop of `relative_compact` over the slices `0 .. k-1`. */
    method DrainSlices(k: nat, retained: seq<nat>, buf: seq<int>) returns (out: seq<int>)
      requires k <= |retained| && SliceTotal(k) <= |buffer|
      modifies this
      ensures buffer == old(buffer)[SliceTotal(k)..]
      ensures out == buf + RelativeKept(old(buffer), retained, 0, k)
    {
      ghost var b0 := buffer;
      ghost var y := buf + RelativeKept(b0, retained, 0, k);
      out := buf;
      var i := 0;
      while i < k
        invariant i <= k
        invariant SliceTotal(i) <= SliceTotal(k) <= |b0|
        invariant buffer == b0[SliceTotal(i)..]
        invariant out + RelativeKept(buffer, retained, i, k) == y
      {
        var next := i + 1;
        SliceAdvance(b0, buffer, i, next, k);
        ghost var drained, pushed := buffer, out;
        out := DrainSlice(Pow2(i), retained[i], out);
        RelativeStep(pushed, out, drained, retained, i, next, k, y);
        i := next;
      }
    }

    /** Drains the first `size` elements and pushes onto `out0` the one at
        the retained index, if it is one of them. */
    method DrainSlice(size: nat, retained: nat, out0: seq<int>) returns (out: seq<int>)
      requires size <= |buffer|
      modifies this
      ensures buffer == old(buffer)[size..]
      ensures out == out0 + Pick(old(buffer)[..size], retained)
    {
      var slice := buffer[..size];
      buffer := buffer[size..];
      out := PushRetained(out0, slice, retained);
    }

    /** Sorts the buffer, splits it into `floor(sqrt(max_len))` chunks of
        `max_len / num_chunks` elements and, from chunk `n`, drops
        `min(n, chunk_size)` strided positions, pushing the rest onto `buf`;
        elements past the last chunk stay in the buffer. */
    method LinearRelativeCompact(buf: seq<int>, starts: seq<nat>) returns (out: seq<int>)
      requires |buffer| <= maxLen
      requires |starts| >= ChunkCount(maxLen)
      modifies this
      ensures buffer == LinearLeftover(old(buffer), maxLen)
      ensures out == buf + LinearOutput(old(buffer), maxLen, starts)
    {
      buffer := Sort(buffer);
      ghost var sorted := buffer;
      var nc := ISqrt(maxLen);
      var cs: Pos := maxLen / nc;
      assert nc == ChunkCount(maxLen) && cs == ChunkSize(maxLen);
      ghost var plan := RemovalPlan(cs, nc, starts);
      out := buf;
      var n := 0;
      while n < nc
        invariant n <= nc
        invariant LinearRest(buffer, cs, nc, n) == LinearRest(sorted, cs, nc, 0)
        invariant out + LinearKept(buffer, cs, nc, n, plan) == buf + LinearKept(sorted, cs, nc, 0, plan)
      {
        if buffer == [] {
          break;
        }
        var rm := Removals(cs, n, starts[n]);
        var c := Min(cs, |buffer|);
        var chunk := buffer[..c];
        ghost var drained, pushed := buffer, out;
        buffer := buffer[c..];
        out := PushKept(out, chunk, rm);
        LinearStep(pushed, out, drained, cs, nc, n, plan,
          buf + LinearKept(sorted, cs, nc, 0, plan), LinearRest(sorted, cs, nc, 0));
        n := n + 1;
      }
    }
  }

  /** Slice `i` of `relative_compact` fits in what is left of the buffer,
      and draining it leaves the buffer from slice `i + 1` on. */
  lemma SliceAdvance(b0: seq<int>, buffer: seq<int>, i: nat, next: nat, k: nat)
    requires next == i + 1 <= k && SliceTotal(i) <= SliceTotal(k) <= |b0|
    requires buffer == b0[SliceTotal(i)..]
    ensures Pow2(i) <= |buffer|
    ensures SliceTotal(next) <= SliceTotal(k) <= |buffer| + SliceTotal(i)
    ensures buffer[Pow2(i)..] == b0[SliceTotal(next)..]
  {
    SliceTotalMonotone(next, k);
    assert SliceTotal(next) == SliceTotal(i) + Pow2(i);
  }

  /** The inner loop of `relative_compact`: walks a drained slice and pushes
      the element whose index is the retained one, if there is one. */
  method PushRetained(out0: seq<int>, slice: seq<int>, retained: nat) returns (out: seq<int>)
    ensures out == out0 + Pick(slice, retained)
  {
    out := out0;
    var j := 0;
    while j < |slice|
      invariant j <= |slice|
      invariant retained < j ==> out == out0 + [slice[retained]]
      invariant retained >= j ==> out == out0
    {
      if j == retained {
        out := out + [slice[j]];
      }
      j := j + 1;
    }
  }

  /** The `rm_buf` of chunk `n` of `linear_relative_compact`: all of the
      chunk's positions when `min(n, chunk_size)` reaches the chunk size,
      otherwise `min(n, chunk_size)` positions from `start % chunk_size` on,
      `chunk_size / min(n, chunk_size)` apart, wrapping around the chunk. The
      source asserts that no position is drawn twice; here it is proved. */
  method Removals(cs: Pos, n: nat, start: nat) returns (rm: seq<nat>)
    ensures rm == RemovedPositions(cs, n, start)
  {
    var m := Min(n, cs);
    ghost var positions := RemovedPositions(cs, n, start);
    if m >= cs {
      rm := Upto(cs);
      return;
    }
    rm := [];
    var stride := Stride(cs, m);
    var curr: nat := start % cs;
    while |rm| < m
      invariant |rm| <= m
      invariant rm + StridedWalk(curr, stride, cs, m - |rm|) == positions
    {
      WalkStep(rm, curr, stride, cs, m - |rm|, positions);
      assert curr !in rm;
      rm := rm + [curr];
      curr := (curr + stride) % cs;
    }
  }

  /** The drain of one chunk in `linear_relative_compact`: every element
      whose index is not in `rm` is pushed, in order. */
  method PushKept(out0: seq<int>, chunk: seq<int>, rm: seq<nat>) returns (out: seq<int>)
    ensures out == out0 + Kept(chunk, rm)
  {
    out := out0;
    var i := 0;
    while i < |chunk|
      invariant i <= |chunk|
      invariant out == out0 + Kept(chunk[..i], rm)
    {
      assert chunk[..i + 1][..i] == chunk[..i];
      if i !in rm {
        out := out + [chunk[i]];
      }
      i := i + 1;
    }
    assert chunk[..i] == chunk;
  }

  /** One input added to the compactor in the additive run: the elements
      still stay within the inputs seen so far. */
  lemma AddConserves(outputs: seq<int>, buffer: seq<int>, seen: seq<int>, x: int)
    requires multiset(outputs) + multiset(buffer) <= multiset(seen)
    ensures multiset(outputs) + multiset(buffer + [x]) <= multiset(seen + [x])
  {
  }

  /** One compaction of a full buffer in the additive run: half of it comes
      out, all of it from the buffer. */
  lemma CompactRound(outputs: seq<int>, out: seq<int>, full: seq<int>, p: Parity, seen: seq<int>)
    requires |full| % 2 == 0
    requires out == Alternate(Sort(full), p)
    requires multiset(outputs) + multiset(full) <= multiset(seen)
    ensures 2 * |out| == |full|
    ensures multiset(outputs + out) <= multiset(seen)
  {
    AlternateHalf(Sort(full), p);
    AlternateFromBuffer(Sort(full), p);
    SortSpec(full);
  }

  /** One compaction of the full buffer in the additive run, its survivors
      appended to `outputs`. */
  method CompactFull(c: Compactor, outputs: seq<int>, parity: Parity, ghost seen: seq<int>) returns (outputs': seq<int>)
    requires c.maxLen % 2 == 0 && |c.buffer| == c.maxLen
    requires multiset(outputs) + multiset(c.buffer) <= multiset(seen)
    modifies c
    ensures c.buffer == []
    ensures 2 * |outputs'| == 2 * |outputs| + c.maxLen
    ensures multiset(outputs') <= multiset(seen)
  {
    ghost var full := c.buffer;
    var out := c.AdditiveCompact(parity);
    CompactRound(outputs, out, full, parity, seen);
    outputs' := outputs + out;
  }

  /** When the inputs fill a whole number of buffers of even capacity, the
      outputs are exactly half of the inputs (5000 inputs at capacity 100
      give 2500). */
  lemma WholeRoundsHalve(n: nat, maxLen: nat)
    requires maxLen != 0 && maxLen % 2 == 0 && n % maxLen == 0
    ensures (n / maxLen) * (maxLen / 2) == n / 2
  {
    var q, h := n / maxLen, maxLen / 2;
    assert n == q * maxLen;
    assert maxLen == 2 * h;
    assert q * maxLen == (q * h) * 2;
    DivModUnique(n, 2, q * h, 0);
  }

  /** The counts at the end of the additive run, from the number of
      compactions and what is still buffered. */
  lemma RunShape(n: nat, maxLen: nat, rounds: nat, left: nat, outputs: nat)
    requires maxLen != 0 && maxLen % 2 == 0
    requires n == rounds * maxLen + left && left < maxLen
    requires 2 * outputs == rounds * maxLen
    ensures outputs == (n / maxLen) * (maxLen / 2)
    ensures left == n % maxLen
    ensures n % maxLen == 0 ==> outputs == n / 2
  {
    var h := maxLen / 2;
    assert rounds * maxLen == 2 * (rounds * h);
    DivModUnique(n, maxLen, rounds, left);
    if left == 0 {
      WholeRoundsHalve(n, maxLen);
    }
  }

  /** The single additive compactor run: every input is added, and each time
      the buffer fills up it is compacted with the next drawn parity. A full
      buffer gives exactly `max_len / 2` outputs, so `n` inputs give
      `(n / max_len) * (max_len / 2)` outputs and leave `n % max_len` behind;
      a whole number of buffers leaves the compactor empty and halves the
      input. */
  method AdditiveRun(maxLen: nat, inputs: seq<int>, parities: seq<Parity>) returns (outputs: seq<int>, left: nat)
    requires maxLen != 0 && maxLen % 2 == 0
    requires |parities| >= |inputs| / maxLen
    ensures |outputs| == (|inputs| / maxLen) * (maxLen / 2)
    ensures left == |inputs| % maxLen
    ensures multiset(outputs) <= multiset(inputs)
    ensures left == 0 <==> |inputs| % maxLen == 0
    ensures |inputs| % maxLen == 0 ==> |outputs| == |inputs| / 2
  {
    var c := new Compactor(maxLen);
    outputs := [];
    var rounds := 0;
    ghost var done := 0;
    var i := 0;
    while i < |inputs|
      invariant i <= |inputs|
      invariant c.maxLen == maxLen
      invariant i == done + |c.buffer| && |c.buffer| < maxLen
      invariant done == rounds * maxLen && 2 * |outputs| == done
      invariant multiset(outputs) + multiset(c.buffer) <= multiset(inputs[..i])
    {
      ghost var seen := inputs[..i + 1];
      assert seen == inputs[..i] + [inputs[i]];
      AddConserves(outputs, c.buffer, inputs[..i], inputs[i]);
      var full := c.Add(inputs[i]);
      if full {
        MulStep(rounds, maxLen);
        DivLowerBound(|inputs|, maxLen, rounds + 1);
        outputs := CompactFull(c, outputs, parities[rounds], seen);
        rounds := rounds + 1;
        done := done + maxLen;
      }
      i := i + 1;
    }
    assert inputs[..i] == inputs;
    left := c.Len();
    RunShape(|inputs|, maxLen, rounds, left, |outputs|);
  }

  /** The crate's `rand()`: a stream of draws that advances with every call.
      The draws themselves are arbitrary. */
  class RandomSource {
    const draw: nat -> nat
    var used: nat

    constructor (draw: nat -> nat)
      ensures this.draw == draw && used == 0
    {
      this.draw := draw;
      used := 0;
    }

    /** The next `k` draws. */
    method Take(k: nat) returns (s: seq<nat>)
      modifies this
      ensures used == old(used) + k
      ensures |s| == k && forall j :: 0 <= j < k ==> s[j] == draw(old(used) + j)
    {
      s := [];
      while |s| < k
        invariant |s| <= k && used == old(used) + |s|
        invariant forall j :: 0 <= j < |s| ==> s[j] == draw(old(used) + j)
      {
        s := s + [draw(used)];
        used := used + 1;
      }
    }
  }

  /** All elements of a sequence of buffers, stage by stage. */
  function Flat(bs: seq<seq<int>>): seq<int> {
    if bs == [] then [] else bs[0] + Flat(bs[1..])
  }

  /** The total of the buffer lengths (`len`): the number of elements the
      chain holds. */
  function SumLens(bs: seq<seq<int>>): (n: nat)
    ensures n == |Flat(bs)|
  {
    if bs == [] then 0 else |bs[0]| + SumLens(bs[1..])
  }

  /** The state the cascade works on: every stage's buffer, the output
      vector `into`, and how many random draws have been taken. */
  datatype ChainState = ChainState(bs: seq<seq<int>>, out: seq<int>, used: nat)

  /** The `k` draws after the first `used`. */
  function Draws(draw: nat -> nat, used: nat, k: nat): (s: seq<nat>)
    ensures |s| == k && forall j :: 0 <= j < k ==> s[j] == draw(used + j)
  {
    seq(k, j requires 0 <= j < k => draw(used + j))
  }

  /** `linear_rel_compact_idx(idx, into)` on the chain whose stage
      capacities are `caps`: stage `idx` is compacted with the next draws,
      its survivors go to the output at the last stage and are otherwise
      delivered one by one to stage `idx + 1`. */
  function Cascade(caps: seq<Pos>, draw: nat -> nat, idx: nat, st: ChainState): (r: ChainState)
    requires idx < |caps| == |st.bs|
    ensures |r.bs| == |caps|
    decreases |caps| - idx, 2
  {
    var nc := ChunkCount(caps[idx]);
    var buf := LinearOutput(st.bs[idx], caps[idx], Draws(draw, st.used, nc));
    var st1 := ChainState(st.bs[idx := LinearLeftover(st.bs[idx], caps[idx])], st.out, st.used + nc);
    if idx == |caps| - 1 then st1.(out := st1.out + buf)
    else ForwardAll(caps, draw, idx, buf, st1)
  }

  /** The `for v in buf.drain(..)` loop: the survivors of stage `idx`
      delivered to stage `idx + 1` in order. */
  function ForwardAll(caps: seq<Pos>, draw: nat -> nat, idx: nat, buf: seq<int>, st: ChainState): (r: ChainState)
    requires idx + 1 < |caps| == |st.bs|
    ensures |r.bs| == |caps|
    decreases |caps| - idx, 1, |buf|
  {
    if buf == [] then st
    else ForwardAll(caps, draw, idx, buf[1..], DeliverOne(caps, draw, idx, buf[0], st))
  }

  /** One survivor `x` added to stage `idx + 1`; when that fills the stage,
      the cascade continues from it. Without a fill nothing else changes. */
  function DeliverOne(caps: seq<Pos>, draw: nat -> nat, idx: nat, x: int, st: ChainState): (r: ChainState)
    requires idx + 1 < |caps| == |st.bs|
    ensures |r.bs| == |caps|
    ensures |st.bs[idx + 1]| + 1 != caps[idx + 1] ==>
      r == st.(bs := st.bs[idx + 1 := st.bs[idx + 1] + [x]])
    decreases |caps| - idx, 0
  {
    var st1 := st.(bs := st.bs[idx + 1 := st.bs[idx + 1] + [x]]);
    if |st1.bs[idx + 1]| == caps[idx + 1] then Cascade(caps, draw, idx + 1, st1) else st1
  }

  /** One unfolding of `DeliverOne`: `x` is appended to stage `idx + 1`,
      giving `st1`, which cascades on exactly when that stage is full. */
  lemma DeliverStep(caps: seq<Pos>, draw: nat -> nat, idx: nat, x: int, st: ChainState, st1: ChainState)
    requires idx + 1 < |caps| == |st.bs|
    requires st1 == st.(bs := st.bs[idx + 1 := st.bs[idx + 1] + [x]])
    ensures |st1.bs[idx + 1]| == caps[idx + 1] ==> DeliverOne(caps, draw, idx, x, st) == Cascade(caps, draw, idx + 1, st1)
    ensures |st1.bs[idx + 1]| != caps[idx + 1] ==> DeliverOne(caps, draw, idx, x, st) == st1
  {
  }

  /** One unfolding of `Cascade`: compacting stage `idx` yields `buf` and
      the state `st1`, which then go to the output or to the next stage. */
  lemma CascadeStep(caps: seq<Pos>, draw: nat -> nat, idx: nat, st: ChainState, buf: seq<int>, st1: ChainState)
    requires idx < |caps| == |st.bs|
    requires buf == LinearOutput(st.bs[idx], caps[idx], Draws(draw, st.used, ChunkCount(caps[idx])))
    requires st1 == ChainState(st.bs[idx := LinearLeftover(st.bs[idx], caps[idx])], st.out, st.used + ChunkCount(caps[idx]))
    ensures idx == |caps| - 1 ==> Cascade(caps, draw, idx, st) == st1.(out := st.out + buf)
    ensures idx < |caps| - 1 ==> Cascade(caps, draw, idx, st) == ForwardAll(caps, draw, idx, buf, st1)
  {
  }

  /** `linear_relative_compact_all`: the cascades from stages `0 .. n-1`,
      in that order. */
  function CascadeAll(caps: seq<Pos>, draw: nat -> nat, n: nat, st: ChainState): (r: ChainState)
    requires n <= |caps| == |st.bs|
    ensures |r.bs| == |caps|
    decreases n
  {
    if n == 0 then st
    else Cascade(caps, draw, n - 1, CascadeAll(caps, draw, n - 1, st))
  }

  /** One more round of `CascadeAll`: the cascade from stage `next - 1`
      applied to the chain after `next - 1` rounds gives the chain after
      `next`. */
  lemma CascadeAllNext(caps: seq<Pos>, draw: nat -> nat, st: ChainState, next: nat,
                       pre: ChainState, post: ChainState)
    requires 0 < next <= |caps| == |st.bs|
    requires pre == CascadeAll(caps, draw, next - 1, st)
    requires post == Cascade(caps, draw, next - 1, pre)
    ensures post == CascadeAll(caps, draw, next, st)
  {
  }

  lemma PrefixTrans(a: seq<int>, b: seq<int>, c: seq<int>)
    requires a <= b && b <= c
    ensures a <= c
  {
    assert c[..|a|] == b[..|b|][..|a|];
  }

  /** The cascade only appends to the output and only takes further draws. */
  lemma {:induction false} CascadeGrows(caps: seq<Pos>, draw: nat -> nat, idx: nat, st: ChainState)
    requires idx < |caps| == |st.bs|
    ensures st.out <= Cascade(caps, draw, idx, st).out
    ensures st.used <= Cascade(caps, draw, idx, st).used
    decreases |caps| - idx, 2
  {
    var nc := ChunkCount(caps[idx]);
    var buf := LinearOutput(st.bs[idx], caps[idx], Draws(draw, st.used, nc));
    var st1 := ChainState(st.bs[idx := LinearLeftover(st.bs[idx], caps[idx])], st.out, st.used + nc);
    if idx < |caps| - 1 {
      ForwardGrows(caps, draw, idx, buf, st1);
    }
  }

  lemma {:induction false} ForwardGrows(caps: seq<Pos>, draw: nat -> nat, idx: nat, buf: seq<int>, st: ChainState)
    requires idx + 1 < |caps| == |st.bs|
    ensures st.out <= ForwardAll(caps, draw, idx, buf, st).out
    ensures st.used <= ForwardAll(caps, draw, idx, buf, st).used
    decreases |caps| - idx, 1, |buf|
  {
    if buf != [] {
      var st1 := DeliverOne(caps, draw, idx, buf[0], st);
      DeliverGrows(caps, draw, idx, buf[0], st);
      ForwardGrows(caps, draw, idx, buf[1..], st1);
      PrefixTrans(st.out, st1.out, ForwardAll(caps, draw, idx, buf[1..], st1).out);
    }
  }

  lemma {:induction false} DeliverGrows(caps: seq<Pos>, draw: nat -> nat, idx: nat, x: int, st: ChainState)
    requires idx + 1 < |caps| == |st.bs|
    ensures st.out <= DeliverOne(caps, draw, idx, x, st).out
    ensures st.used <= DeliverOne(caps, draw, idx, x, st).used
    decreases |caps| - idx, 0
  {
    var st1 := st.(bs := st.bs[idx + 1 := st.bs[idx + 1] + [x]]);
    if |st1.bs[idx + 1]| == caps[idx + 1] {
      CascadeGrows(caps, draw, idx + 1, st1);
    }
  }

  /** A cascade from stage `idx` leaves the stages before it alone and
      stage `idx` holding what its compaction left over. */
  lemma {:induction false} CascadeFrame(caps: seq<Pos>, draw: nat -> nat, idx: nat, st: ChainState)
    requires idx < |caps| == |st.bs|
    ensures forall j :: 0 <= j < idx ==> Cascade(caps, draw, idx, st).bs[j] == st.bs[j]
    ensures Cascade(caps, draw, idx, st).bs[idx] == LinearLeftover(st.bs[idx], caps[idx])
    decreases |caps| - idx, 2
  {
    var nc := ChunkCount(caps[idx]);
    var buf := LinearOutput(st.bs[idx], caps[idx], Draws(draw, st.used, nc));
    var st1 := ChainState(st.bs[idx := LinearLeftover(st.bs[idx], caps[idx])], st.out, st.used + nc);
    if idx < |caps| - 1 {
      ForwardFrame(caps, draw, idx, buf, st1);
    }
  }

  lemma {:induction false} ForwardFrame(caps: seq<Pos>, draw: nat -> nat, idx: nat, buf: seq<int>, st: ChainState)
    requires idx + 1 < |caps| == |st.bs|
    ensures forall j :: 0 <= j <= idx ==> ForwardAll(caps, draw, idx, buf, st).bs[j] == st.bs[j]
    decreases |caps| - idx, 1, |buf|
  {
    if buf != [] {
      var st1 := DeliverOne(caps, draw, idx, buf[0], st);
      DeliverFrame(caps, draw, idx, buf[0], st);
      ForwardFrame(caps, draw, idx, buf[1..], st1);
    }
  }

  lemma {:induction false} DeliverFrame(caps: seq<Pos>, draw: nat -> nat, idx: nat, x: int, st: ChainState)
    requires idx + 1 < |caps| == |st.bs|
    ensures forall j :: 0 <= j <= idx ==> DeliverOne(caps, draw, idx, x, st).bs[j] == st.bs[j]
    decreases |caps| - idx, 0
  {
    var st1 := st.(bs := st.bs[idx + 1 := st.bs[idx + 1] + [x]]);
    if |st1.bs[idx + 1]| == caps[idx + 1] {
      CascadeFrame(caps, draw, idx + 1, st1);
    }
  }

  /** The stages a cascade from `idx` expects: stage `idx` at most full and
      every later stage short of full. */
  ghost predicate Fits(caps: seq<Pos>, st: ChainState, idx: nat)
    requires |caps| == |st.bs|
  {
    (idx < |caps| ==> |st.bs[idx]| <= caps[idx]) &&
    forall j :: idx < j < |caps| ==> |st.bs[j]| < caps[j]
  }

  /** A cascade from `idx` leaves stage `idx` and every later stage short of
      full. */
  lemma {:induction false} CascadeBounds(caps: seq<Pos>, draw: nat -> nat, idx: nat, st: ChainState)
    requires idx < |caps| == |st.bs| && Fits(caps, st, idx)
    ensures forall j :: idx <= j < |caps| ==> |Cascade(caps, draw, idx, st).bs[j]| < caps[j]
    decreases |caps| - idx, 2
  {
    var nc := ChunkCount(caps[idx]);
    var buf := LinearOutput(st.bs[idx], caps[idx], Draws(draw, st.used, nc));
    var st1 := ChainState(st.bs[idx := LinearLeftover(st.bs[idx], caps[idx])], st.out, st.used + nc);
    LinearLeftoverSize(st.bs[idx], caps[idx]);
    if idx < |caps| - 1 {
      ForwardBounds(caps, draw, idx, buf, st1);
      ForwardFrame(caps, draw, idx, buf, st1);
    }
  }

  lemma {:induction false} ForwardBounds(caps: seq<Pos>, draw: nat -> nat, idx: nat, buf: seq<int>, st: ChainState)
    requires idx + 1 < |caps| == |st.bs|
    requires forall j :: idx < j < |caps| ==> |st.bs[j]| < caps[j]
    ensures forall j :: idx < j < |caps| ==> |ForwardAll(caps, draw, idx, buf, st).bs[j]| < caps[j]
    decreases |caps| - idx, 1, |buf|
  {
    if buf != [] {
      var st1 := DeliverOne(caps, draw, idx, buf[0], st);
      DeliverBounds(caps, draw, idx, buf[0], st);
      ForwardBounds(caps, draw, idx, buf[1..], st1);
    }
  }

  lemma {:induction false} DeliverBounds(caps: seq<Pos>, draw: nat -> nat, idx: nat, x: int, st: ChainState)
    requires idx + 1 < |caps| == |st.bs|
    requires forall j :: idx < j < |caps| ==> |st.bs[j]| < caps[j]
    ensures forall j :: idx < j < |caps| ==> |DeliverOne(caps, draw, idx, x, st).bs[j]| < caps[j]
    decreases |caps| - idx, 0
  {
    var st1 := st.(bs := st.bs[idx + 1 := st.bs[idx + 1] + [x]]);
    if |st1.bs[idx + 1]| == caps[idx + 1] {
      CascadeBounds(caps, draw, idx + 1, st1);
    }
  }

  /** Round `next - 1` of the flush: afterwards the rounds from `next` on
      find the stages as they expect, stage `next - 1` is empty when its
      capacity is a whole number of chunks, and the earlier stages are as
      they were. */
  lemma FitsStep(caps: seq<Pos>, draw: nat -> nat, next: nat, pre: ChainState, post: ChainState)
    requires 0 < next <= |caps| == |pre.bs| && Fits(caps, pre, next - 1)
    requires post == Cascade(caps, draw, next - 1, pre)
    ensures |post.bs| == |caps| && Fits(caps, post, next)
    ensures Exact(caps[next - 1]) ==> post.bs[next - 1] == []
    ensures forall j :: 0 <= j < next - 1 ==> post.bs[j] == pre.bs[j]
  {
    CascadeBounds(caps, draw, next - 1, pre);
    CascadeFrame(caps, draw, next - 1, pre);
    LinearLeftoverSize(pre.bs[next - 1], caps[next - 1]);
  }

  /** After `n` rounds of the flush the remaining rounds still find the
      stages as they expect, and when every capacity is a whole number of
      chunks the stages already flushed are empty. */
  lemma {:induction false} CascadeAllFits(caps: seq<Pos>, draw: nat -> nat, n: nat, st: ChainState)
    requires n <= |caps| == |st.bs| && Fits(caps, st, 0)
    ensures Fits(caps, CascadeAll(caps, draw, n, st), n)
    ensures (forall j :: 0 <= j < |caps| ==> Exact(caps[j])) ==>
      forall j :: 0 <= j < n ==> CascadeAll(caps, draw, n, st).bs[j] == []
    decreases n
  {
    if n > 0 {
      var pre, post := CascadeAll(caps, draw, n - 1, st), CascadeAll(caps, draw, n, st);
      CascadeAllFits(caps, draw, n - 1, st);
      FitsStep(caps, draw, n, pre, post);
    }
  }

  /** When every capacity is a whole number of chunks, the flush leaves the
      chain empty. */
  lemma CascadeAllEmpties(caps: seq<Pos>, draw: nat -> nat, st: ChainState)
    requires |caps| == |st.bs| && Fits(caps, st, 0)
    ensures (forall j :: 0 <= j < |caps| ==> Exact(caps[j])) ==> Flat(CascadeAll(caps, draw, |caps|, st).bs) == []
  {
    CascadeAllFits(caps, draw, |caps|, st);
    FlatEmpty(CascadeAll(caps, draw, |caps|, st).bs);
  }

  /** Round `next - 1` of the flush keeps what the output and the draws
      had grown to since `st`. */
  lemma GrowsStep(caps: seq<Pos>, draw: nat -> nat, next: nat, st: ChainState, pre: ChainState, post: ChainState)
    requires 0 < next <= |caps| == |pre.bs|
    requires st.out <= pre.out && st.used <= pre.used
    requires post == Cascade(caps, draw, next - 1, pre)
    ensures st.out <= post.out && st.used <= post.used
  {
    CascadeGrows(caps, draw, next - 1, pre);
    PrefixTrans(st.out, pre.out, post.out);
  }

  /** The flush, too, only appends to the output. */
  lemma {:induction false} CascadeAllGrows(caps: seq<Pos>, draw: nat -> nat, n: nat, st: ChainState)
    requires n <= |caps| == |st.bs|
    ensures st.out <= CascadeAll(caps, draw, n, st).out
    ensures st.used <= CascadeAll(caps, draw, n, st).used
  {
    if n > 0 {
      var pre, post := CascadeAll(caps, draw, n - 1, st), CascadeAll(caps, draw, n, st);
      CascadeAllGrows(caps, draw, n - 1, st);
      GrowsStep(caps, draw, n, st, pre, post);
    }
  }

  /** Every buffer is empty exactly when the chain holds no element. */
  lemma {:induction false} FlatEmpty(bs: seq<seq<int>>)
    ensures Flat(bs) == [] <==> forall j :: 0 <= j < |bs| ==> bs[j] == []
  {
    if bs != [] {
      FlatEmpty(bs[1..]);
      assert forall j :: 1 <= j < |bs| ==> bs[j] == bs[1..][j - 1];
    }
  }

  /** Replacing one stage's buffer changes the chain's contents by exactly
      the difference. */
  lemma {:induction false} FlatUpdate(bs: seq<seq<int>>, j: nat, x: seq<int>)
    requires j < |bs|
    ensures multiset(Flat(bs[j := x])) + multiset(bs[j]) == multiset(Flat(bs)) + multiset(x)
  {
    var t := bs[1..];
    assert Flat(bs) == bs[0] + Flat(t);
    if j > 0 {
      FlatUpdate(t, j - 1, x);
      assert bs[j := x][1..] == t[j - 1 := x] && bs[j := x][0] == bs[0];
      assert Flat(bs[j := x]) == bs[0] + Flat(t[j - 1 := x]);
      assert bs[j] == t[j - 1];
      assert multiset(Flat(bs[j := x])) == multiset(bs[0]) + multiset(Flat(t[j - 1 := x]));
      assert multiset(Flat(bs)) == multiset(bs[0]) + multiset(Flat(t));
      calc {
        multiset(Flat(bs[j := x])) + multiset(bs[j]);
        multiset(bs[0]) + (multiset(Flat(t[j - 1 := x])) + multiset(t[j - 1]));
        multiset(bs[0]) + (multiset(Flat(t)) + multiset(x));
      }
    } else {
      assert bs[j := x][1..] == t;
      assert Flat(bs[j := x]) == x + Flat(t);
    }
  }

  /** No element is invented: what the chain holds, what it has emitted
      and what is still on its way to the next stage, together, stay within
      what the chain held before plus what was already emitted. */
  ghost predicate Conserved(now: seq<int>, emitted: seq<int>, pending: seq<int>, before: seq<int>, into: seq<int>) {
    multiset(now) + multiset(emitted) + multiset(pending) <= multiset(before) + multiset(into)
  }

  /** A stage's compaction: its survivors and its leftover come from its old
      buffer. */
  lemma StageCompacted(bs: seq<seq<int>>, j: nat, leftover: seq<int>, survivors: seq<int>)
    requires j < |bs| && multiset([] + survivors) + multiset(leftover) <= multiset(bs[j])
    ensures multiset(Flat(bs[j := leftover])) + multiset(survivors) <= multiset(Flat(bs))
  {
    FlatUpdate(bs, j, leftover);
    assert [] + survivors == survivors;
    var now, old_ := multiset(Flat(bs[j := leftover])), multiset(Flat(bs));
    forall e ensures (now + multiset(survivors))[e] <= old_[e] {
      assert (now + multiset(bs[j]))[e] == (old_ + multiset(leftover))[e];
      assert (multiset(survivors) + multiset(leftover))[e] <= multiset(bs[j])[e];
    }
  }

  /** The last stage's survivors are appended to the output. */
  lemma Emitted(now: seq<int>, into: seq<int>, survivors: seq<int>, before: seq<int>)
    requires multiset(now) + multiset(survivors) <= multiset(before)
    ensures Conserved(now, into + survivors, [], before, into)
  {
  }

  /** One survivor added to the next stage's buffer. */
  lemma Added(now: seq<int>, now': seq<int>, stage: seq<int>, x: int)
    requires multiset(now') + multiset(stage) == multiset(now) + multiset(stage + [x])
    ensures multiset(now') == multiset(now) + multiset{x}
  {
    assert multiset(stage + [x]) == multiset(stage) + multiset{x};
    forall e ensures multiset(now')[e] == (multiset(now) + multiset{x})[e] {
      assert (multiset(now') + multiset(stage))[e] == (multiset(now) + multiset(stage + [x]))[e];
    }
  }

  /** The next stage's cascade moves elements between the chain and the
      output without inventing any. */
  lemma Compacted(now: seq<int>, mid: seq<int>, now': seq<int>, into: seq<int>, r: seq<int>, x: int)
    requires multiset(mid) == multiset(now) + multiset{x}
    requires Conserved(now', r, [], mid, into)
    ensures multiset(now') + multiset(r) <= multiset(now) + multiset(into) + multiset{x}
  {
    var none: seq<int> := [];
    forall e ensures (multiset(now') + multiset(r))[e] <= (multiset(now) + multiset(into) + multiset{x})[e] {
      assert (multiset(now') + multiset(r) + multiset(none))[e] <= (multiset(mid) + multiset(into))[e];
    }
  }

  /** One delivered survivor is no longer pending. */
  lemma Delivered(now: seq<int>, now': seq<int>, emitted: seq<int>, emitted': seq<int>, pending: seq<int>, before: seq<int>, into: seq<int>)
    requires pending != []
    requires multiset(now') + multiset(emitted') <= multiset(now) + multiset(emitted) + multiset{pending[0]}
    requires Conserved(now, emitted, pending, before, into)
    ensures Conserved(now', emitted', pending[1..], before, into)
  {
    assert pending == [pending[0]] + pending[1..];
    assert multiset(pending) == multiset{pending[0]} + multiset(pending[1..]);
  }

  /** Compacting a stage and forwarding its survivors: the survivors pass
      through, nothing is invented. */
  lemma Chained(before: seq<int>, mid: seq<int>, after: seq<int>, survivors: seq<int>, into: seq<int>, r: seq<int>)
    requires multiset(mid) + multiset(survivors) <= multiset(before)
    requires Conserved(after, r, [], mid + survivors, into)
    ensures Conserved(after, r, [], before, into)
  {
    var m := multiset(mid + survivors);
    var none: seq<int> := [];
    assert m == multiset(mid) + multiset(survivors);
    forall e ensures (multiset(after) + multiset(r))[e] <= (multiset(before) + multiset(into))[e] {
      assert (multiset(after) + multiset(r) + multiset(none))[e] <= (m + multiset(into))[e];
    }
  }

  /** Two steps that invent nothing invent nothing together. */
  lemma ConservedTrans(before: seq<int>, into: seq<int>, mid: seq<int>, r0: seq<int>, now: seq<int>, r: seq<int>)
    requires Conserved(mid, r0, [], before, into)
    requires Conserved(now, r, [], mid, r0)
    ensures Conserved(now, r, [], before, into)
  {
  }

  /** At the end of the forwarding loop nothing is pending any more. */
  lemma Drained(now: seq<int>, r: seq<int>, buf: seq<int>, before: seq<int>, into: seq<int>)
    requires Conserved(now, r, buf[|buf|..], before, into)
    ensures Conserved(now, r, [], before, into)
  {
    assert buf[|buf|..] == [];
  }

  class ChainedCompactors {
    const stages: seq<Compactor>

    ghost function Repr(): set<object> {
      set j | 0 <= j < |stages| :: stages[j]
    }

    /** The stages are distinct objects (the chain owns its array of
        compactors). */
    predicate Valid() {
      forall i, j :: 0 <= i < j < |stages| ==> stages[i] != stages[j]
    }

    function Buffers(): (bs: seq<seq<int>>)
      reads Repr()
      ensures |bs| == |stages|
    {
      seq(|stages|, j requires 0 <= j < |stages| reads Repr() => stages[j].buffer)
    }

    /** The stage capacities, fixed at construction. */
    function Caps(): (caps: seq<Pos>)
      ensures |caps| == |stages|
      ensures forall j :: 0 <= j < |stages| ==> caps[j] == stages[j].maxLen
    {
      seq(|stages|, j requires 0 <= j < |stages| => stages[j].maxLen)
    }

    constructor (stages: seq<Compactor>)
      requires forall i, j :: 0 <= i < j < |stages| ==> stages[i] != stages[j]
      ensures Valid() && this.stages == stages
    {
      this.stages := stages;
    }

    /** `len`: the sum of the stage lengths, which is the number of elements
        the chain holds. */
    function Len(): (n: nat)
      reads Repr()
      ensures n == |Flat(Buffers())|
    {
      SumLens(Buffers())
    }

    /** `is_empty`: every stage is empty, exactly when the chain holds
        nothing. */
    function IsEmpty(): (r: bool)
      reads Repr()
      ensures r <==> Flat(Buffers()) == []
    {
      FlatEmpty(Buffers());
      assert forall j :: 0 <= j < |stages| ==> Buffers()[j] == stages[j].buffer;
      forall j | 0 <= j < |stages| :: stages[j].IsEmpty()
    }

    /** `add`: only the first stage changes. */
    method Add(t: int) returns (full: bool)
      requires Valid() && |stages| >= 1
      modifies stages[0]
      ensures Buffers() == old(Buffers())[0 := old(stages[0].buffer) + [t]]
      ensures full <==> |stages[0].buffer| == stages[0].maxLen
    {
      full := AddAt(0, t);
    }

    /** Adds `t` to stage `k`; no other stage changes. */
    method AddAt(k: nat, t: int) returns (full: bool)
      requires Valid() && k < |stages|
      modifies stages[k]
      ensures stages[k].buffer == old(stages[k].buffer) + [t]
      ensures forall j :: 0 <= j < |stages| && j != k ==> stages[j].buffer == old(stages[j].buffer)
      ensures Buffers() == old(Buffers())[k := old(Buffers())[k] + [t]]
      ensures full <==> |stages[k].buffer| == stages[k].maxLen
    {
      ghost var b1 := Buffers();
      full := stages[k].Add(t);
      forall j | 0 <= j < |stages| ensures Buffers()[j] == b1[k := stages[k].buffer][j] {
        if j != k {
          assert stages[j] != stages[k];
        }
      }
    }

    /** `linear_rel_compact_idx`: compacts stage `idx` and adds its survivors
        to stage `idx + 1`, cascading whenever that stage fills up; the last
        stage's survivors are appended to `into`. The recursion only goes to
        `idx + 1`, so it ends at the last stage. Stages below `idx` are left
        alone, stage `idx` keeps only its leftover, every later stage stays
        below capacity, `into` only grows, and no element is invented. */
    method LinRelCompactIdx(idx: nat, into: seq<int>, rng: RandomSource) returns (r: seq<int>)
      requires Valid() && idx < |stages|
      requires |stages[idx].buffer| <= stages[idx].maxLen
      requires forall j :: idx < j < |stages| ==> |stages[j].buffer| < stages[j].maxLen
      modifies Repr(), rng
      ensures forall j :: 0 <= j < idx ==> stages[j].buffer == old(stages[j].buffer)
      ensures stages[idx].buffer == LinearLeftover(old(stages[idx].buffer), stages[idx].maxLen)
      ensures forall j :: idx <= j < |stages| ==> |stages[j].buffer| < stages[j].maxLen
      ensures |into| <= |r| && r[..|into|] == into
      ensures Conserved(Flat(Buffers()), r, [], old(Flat(Buffers())), into)
      ensures ChainState(Buffers(), r, rng.used)
        == Cascade(Caps(), rng.draw, idx, ChainState(old(Buffers()), into, old(rng.used)))
      decreases |stages| - idx, 2
    {
      ghost var b0 := Flat(Buffers());
      ghost var st0, s0 := ChainState(Buffers(), into, rng.used), stages[idx].buffer;
      var buf := CompactStage(idx, rng);
      ghost var st1 := ChainState(Buffers(), into, rng.used);
      assert st1.bs == st0.bs[idx := LinearLeftover(s0, stages[idx].maxLen)];
      CascadeStep(Caps(), rng.draw, idx, st0, buf, st1);
      if idx == |stages| - 1 {
        r := into + buf;
        Emitted(Flat(Buffers()), into, buf, b0);
        assert r[..|into|] == into;
        return;
      }
      ghost var b1 := Flat(Buffers());
      r := Forward(idx, buf, into, rng);
      Chained(b0, b1, Flat(Buffers()), buf, into, r);
    }

    /** The first step of `linear_rel_compact_idx`: stage `idx` compacts
        itself into a fresh vector; only that stage changes. */
    method CompactStage(idx: nat, rng: RandomSource) returns (buf: seq<int>)
      requires Valid() && idx < |stages|
      requires |stages[idx].buffer| <= stages[idx].maxLen
      modifies stages[idx], rng
      ensures Buffers() == old(Buffers())[idx := stages[idx].buffer]
      ensures stages[idx].buffer == LinearLeftover(old(stages[idx].buffer), stages[idx].maxLen)
      ensures |stages[idx].buffer| < stages[idx].maxLen
      ensures multiset(Flat(Buffers())) + multiset(buf) <= old(multiset(Flat(Buffers())))
      ensures rng.used == old(rng.used) + ChunkCount(stages[idx].maxLen)
      ensures buf == LinearOutput(old(stages[idx].buffer), stages[idx].maxLen,
        Draws(rng.draw, old(rng.used), ChunkCount(stages[idx].maxLen)))
    {
      var s := stages[idx];
      ghost var b0 := Buffers();
      var starts := rng.Take(ChunkCount(s.maxLen));
      assert starts == Draws(rng.draw, old(rng.used), ChunkCount(s.maxLen));
      assert Buffers() == b0;
      ghost var start := s.buffer;
      buf := s.LinearRelativeCompact([], starts);
      assert buf == LinearOutput(start, s.maxLen, starts);
      LinearConserves(start, s.maxLen, starts);
      LinearLeftoverSize(start, s.maxLen);
      forall j | 0 <= j < |stages| ensures Buffers()[j] == b0[idx := s.buffer][j] {
        if j != idx {
          assert stages[j] != s;
        }
      }
      assert Buffers() == b0[idx := s.buffer];
      StageCompacted(b0, idx, s.buffer, buf);
    }

    /** The loop of `linear_rel_compact_idx` over the survivors of stage
        `idx`: each one is delivered to stage `idx + 1` in turn. */
    method Forward(idx: nat, buf: seq<int>, into: seq<int>, rng: RandomSource) returns (r: seq<int>)
      requires Valid() && idx + 1 < |stages|
      requires forall j :: idx < j < |stages| ==> |stages[j].buffer| < stages[j].maxLen
      modifies Repr(), rng
      ensures forall j :: 0 <= j <= idx ==> stages[j].buffer == old(stages[j].buffer)
      ensures forall j :: idx < j < |stages| ==> |stages[j].buffer| < stages[j].maxLen
      ensures |into| <= |r| && r[..|into|] == into
      ensures Conserved(Flat(Buffers()), r, [], old(Flat(Buffers())) + buf, into)
      ensures ChainState(Buffers(), r, rng.used)
        == ForwardAll(Caps(), rng.draw, idx, buf, ChainState(old(Buffers()), into, old(rng.used)))
      decreases |stages| - idx, 1
    {
      ghost var b0 := Flat(Buffers());
      r := into;
      var i := 0;
      assert buf[i..] == buf;
      while i < |buf|
        invariant i <= |buf|
        invariant forall j :: 0 <= j <= idx ==> stages[j].buffer == old(stages[j].buffer)
        invariant forall j :: idx < j < |stages| ==> |stages[j].buffer| < stages[j].maxLen
        invariant |into| <= |r| && r[..|into|] == into
        invariant Conserved(Flat(Buffers()), r, buf[i..], b0 + buf, into)
        invariant ForwardAll(Caps(), rng.draw, idx, buf[i..], ChainState(Buffers(), r, rng.used))
          == ForwardAll(Caps(), rng.draw, idx, buf, ChainState(old(Buffers()), into, old(rng.used)))
      {
        ghost var r0, b1 := r, Flat(Buffers());
        r := Deliver(idx, buf[i], r, rng);
        assert r[..|into|] == r[..|r0|][..|into|];
        Delivered(b1, Flat(Buffers()), r0, r, buf[i..], b0 + buf, into);
        assert buf[i..][1..] == buf[i + 1..];
        i := i + 1;
      }
      Drained(Flat(Buffers()), r, buf, b0 + buf, into);
    }

    /** One survivor of stage `idx` added to stage `idx + 1`, which is
        compacted in turn when that fills it up. */
    method Deliver(idx: nat, x: int, into: seq<int>, rng: RandomSource) returns (r: seq<int>)
      requires Valid() && idx + 1 < |stages|
      requires forall j :: idx < j < |stages| ==> |stages[j].buffer| < stages[j].maxLen
      modifies Repr(), rng
      ensures forall j :: 0 <= j <= idx ==> stages[j].buffer == old(stages[j].buffer)
      ensures forall j :: idx < j < |stages| ==> |stages[j].buffer| < stages[j].maxLen
      ensures |into| <= |r| && r[..|into|] == into
      ensures multiset(Flat(Buffers())) + multiset(r) <= old(multiset(Flat(Buffers()))) + multiset(into) + multiset{x}
      ensures ChainState(Buffers(), r, rng.used)
        == DeliverOne(Caps(), rng.draw, idx, x, ChainState(old(Buffers()), into, old(rng.used)))
      decreases |stages| - idx, 0
    {
      ghost var b1 := Buffers();
      ghost var st0 := ChainState(b1, into, rng.used);
      var full := AddAt(idx + 1, x);
      ghost var st1 := ChainState(Buffers(), into, rng.used);
      DeliverStep(Caps(), rng.draw, idx, x, st0, st1);
      FlatUpdate(b1, idx + 1, b1[idx + 1] + [x]);
      Added(Flat(b1), Flat(Buffers()), b1[idx + 1], x);
      r := into;
      if full {
        ghost var b2 := Flat(Buffers());
        r := LinRelCompactIdx(idx + 1, into, rng);
        Compacted(Flat(b1), b2, Flat(Buffers()), into, r, x);
      }
    }

    /** `linear_relative_compact`: the cascade from the first stage. */
    method LinearRelativeCompact(into: seq<int>, rng: RandomSource) returns (r: seq<int>)
      requires Valid() && |stages| >= 1
      requires |stages[0].buffer| <= stages[0].maxLen
      requires forall j :: 0 < j < |stages| ==> |stages[j].buffer| < stages[j].maxLen
      modifies Repr(), rng
      ensures stages[0].buffer == LinearLeftover(old(stages[0].buffer), stages[0].maxLen)
      ensures forall j :: 0 <= j < |stages| ==> |stages[j].buffer| < stages[j].maxLen
      ensures |into| <= |r| && r[..|into|] == into
      ensures Conserved(Flat(Buffers()), r, [], old(Flat(Buffers())), into)
      ensures ChainState(Buffers(), r, rng.used)
        == Cascade(Caps(), rng.draw, 0, ChainState(old(Buffers()), into, old(rng.used)))
    {
      r := LinRelCompactIdx(0, into, rng);
    }

    /** `linear_relative_compact_all`: the cascade from every stage in turn.
        When every capacity splits into whole chunks (a perfect square such
        as 144), the chain is empty afterwards. */
    method LinearRelativeCompactAll(into: seq<int>, rng: RandomSource) returns (r: seq<int>)
      requires Valid()
      requires |stages| >= 1 ==> |stages[0].buffer| <= stages[0].maxLen
      requires forall j :: 0 < j < |stages| ==> |stages[j].buffer| < stages[j].maxLen
      modifies Repr(), rng
      ensures forall j :: 0 <= j < |stages| ==> |stages[j].buffer| < stages[j].maxLen
      ensures |into| <= |r| && r[..|into|] == into
      ensures Conserved(Flat(Buffers()), r, [], old(Flat(Buffers())), into)
      ensures (forall j :: 0 <= j < |stages| ==> Exact(stages[j].maxLen)) ==> IsEmpty()
      ensures ChainState(Buffers(), r, rng.used)
        == CascadeAll(Caps(), rng.draw, |stages|, ChainState(old(Buffers()), into, old(rng.used)))
    {
      ghost var b0 := Flat(Buffers());
      ghost var caps := Caps();
      ghost var st0 := ChainState(Buffers(), into, rng.used);
      assert Fits(caps, st0, 0);
      r := into;
      var i := 0;
      while i < |stages|
        invariant i <= |stages|
        invariant i == 0 < |stages| ==> |stages[0].buffer| <= stages[0].maxLen
        invariant forall j :: 0 <= j < |stages| && (i > 0 || j > 0) ==> |stages[j].buffer| < stages[j].maxLen
        invariant |into| <= |r| && r[..|into|] == into
        invariant Conserved(Flat(Buffers()), r, [], b0, into)
        invariant ChainState(Buffers(), r, rng.used) == CascadeAll(caps, rng.draw, i, st0)
      {
        ghost var pre := ChainState(Buffers(), r, rng.used);
        var next := i + 1;
        r := FlushRound(i, r, rng, into, b0);
        assert i == next - 1;
        CascadeAllNext(caps, rng.draw, st0, next, pre, ChainState(Buffers(), r, rng.used));
        i := next;
      }
      CascadeAllEmpties(caps, rng.draw, st0);
    }

    /** Round `i` of `linear_relative_compact_all`: the cascade from stage
        `i`, which keeps every fact the flush carries from round to round. */
    method FlushRound(i: nat, r0: seq<int>, rng: RandomSource, ghost into: seq<int>, ghost b0: seq<int>)
      returns (r: seq<int>)
      requires Valid() && i < |stages|
      requires i == 0 ==> |stages[0].buffer| <= stages[0].maxLen
      requires forall j :: 0 <= j < |stages| && (i > 0 || j > 0) ==> |stages[j].buffer| < stages[j].maxLen
      requires |into| <= |r0| && r0[..|into|] == into
      requires Conserved(Flat(Buffers()), r0, [], b0, into)
      modifies Repr(), rng
      ensures forall j :: 0 <= j < |stages| ==> |stages[j].buffer| < stages[j].maxLen
      ensures |into| <= |r| && r[..|into|] == into
      ensures Conserved(Flat(Buffers()), r, [], b0, into)
      ensures ChainState(Buffers(), r, rng.used)
        == Cascade(Caps(), rng.draw, i, ChainState(old(Buffers()), r0, old(rng.used)))
    {
      ghost var b1 := Flat(Buffers());
      r := LinRelCompactIdx(i, r0, rng);
      assert r[..|into|] == r[..|r0|][..|into|];
      ConservedTrans(b0, into, b1, r0, Flat(Buffers()), r);
    }
  }
}
