# streamo in Dafny

This is a model of the sketches in the Rust crate `streamo`. Each sketch follows the
crate's `StreamProcessor` shape: `new`, then `process` on every element of a stream,
then `query`. The model covers these parts of the crate:

- **Compactors.** `Compactor<T>` is a bounded buffer with three compaction policies:
  `additive_compact`, `relative_compact` and `linear_relative_compact`.
  `ChainedCompactors<T, N>` is a cascade of compactors, and `rank` is a binary-search
  rank.
- **`Bitmap<B>`.** A byte array read as bits.
- **Counters.** `ExactCounter` and `MorrisCounter`.
- **`BloomFilter`.** A set-membership sketch.
- **`FlajoletMartin`.** A distinct-count sketch.
- **Frequency sketches.** `MisraGries` (and `Majority`) and `CountMin`.
- **`Quantile`.** A sorted sample vector with an owned counter.
- **Adapters.** `BoolGroup` and `MedianOfMeans`.

Where the crate changes state in place, the model does too. Structs whose methods
mutate fields are classes. Fixed arrays are `array`/`array2`, and `Vec`s the code
pushes to or drains are `seq` fields that the methods reassign. Loops are `while`/`for`
loops carrying invariants.

Each method is proved against a pure specification function. For the chain's cascade
these are ghost functions over a `ChainState` value (every stage's buffer, the output
and the draws taken): `Cascade`, `ForwardAll`, `DeliverOne` and `CascadeAll`. The
properties the crate relies on are proved about those functions:

- survivors are never invented;
- survivors keep ascending order;
- survivor counts are exact;
- sketches have no false negatives;
- heavy hitters are kept;
- the rank estimate is bounded and monotone.

Element types are `int`, and the crate's `T: Ord` order is integer order. A sub-sketch
of an adapter is a state value with its `process` and `query` given as functions.

Randomness is always supplied by the caller. The crate's global `rand()` becomes these
parameters:

- the parity of `additive_compact`;
- the retained index of each slice;
- the start offset of each chunk;
- the `Quantile` accept flag;
- the Morris coin.

The chain draws its offsets from a `RandomSource`, which is an arbitrary stream of
draws. Hashers are functions fixed at construction. The states that `S::new()` produces
for the adapters are also supplied by the caller.

An `assert!` in the crate becomes a precondition. Examples are a non-zero compactor
capacity, an even capacity for `additive_compact`, and `max_len + 1` a power of two for
`relative_compact`. The same goes for the out-of-range panic of `drain(..slice_size)`
in `relative_compact` (src/compactor.rs:72): a buffer holding fewer than `max_len`
elements panics there, so `Compactors.Compactor.RelativeCompact` requires at least
`max_len` elements and `Compactors.Compactor.DrainSlices` at least the slices' total.
Likewise `ChainedCompactors::add` and `linear_relative_compact` index `compactors[0]`
(src/compactor.rs:153, 165), which panics on a chain of no stages, so
`Compactors.ChainedCompactors.Add` and `Compactors.ChainedCompactors.LinearRelativeCompact`
require at least one stage. `linear_relative_compact_all` on such a chain does nothing,
and `Compactors.ChainedCompactors.LinearRelativeCompactAll` allows it.

Three behaviours of the crate are easy to misread:

- `relative_compact` does not always keep one element per slice. The retained index
  `round(rand() * 2^i)` can equal the slice size, and then that slice keeps nothing
  (`CompactorSpec.RelativeKeptCount` states both extremes).
- Flushing with `linear_relative_compact_all` empties every stage when each capacity
  is a whole number of chunks (`CompactorSpec.LinearLeftoverSize`,
  `Compactors.CascadeAllEmpties`). Otherwise a stage holding more than
  `num_chunks*chunk_size` elements keeps those past its last whole chunk.
- `BloomFilter::new` asserts a non-zero byte count, not a non-zero hasher count.

Two facts about `linear_relative_compact` are proved rather than assumed:

- its branch `num_to_remove >= chunk_size` can never be reached
  (`CompactorSpec.NoWholeChunkRemoved`), but it is still modelled as written;
- the `assert!` in its removal loop always holds (`CompactorSpec.WalkStep`).

## Model

| member | source | states |
|---|---|---|
| Arith.CheckedLog | src/compactor.rs:122-127 | the result `k` is the least exponent with `2^k >= n` (log2 of `next_power_of_two`) |
| Arith.LogOfPow2 | src/compactor.rs:63-67 | on `2^k` the logarithm is exactly `k`, and `2^k` passes the power-of-two check |
| Arith.Pow2Sum | src/compactor.rs:67-72 | slices of sizes `1, 2, ..., 2^(k-1)` total `2^k - 1` elements |
| Arith.ISqrt | src/compactor.rs:83-86 | `r*r <= n < (r+1)*(r+1)`: the truncated square root giving `num_chunks` |
| Arith.ISqrtUnique | src/compactor.rs:83-86 | any `s` with `s*s <= n < (s+1)^2` is that square root, so `num_chunks` is well defined |
| Arith.ChunkShape | src/compactor.rs:85-87 | for `len >= 1` there is at least one chunk, and `len / num_chunks >= num_chunks` |
| Ordering.CountLessAt | src/compactor.rs:22-27 | in a sorted sequence whose first `k` elements are below `v` and the rest are not, exactly `k` elements are below `v` |
| Ordering.BinarySearch | src/quantile.rs:34-37 | slice `binary_search`: `Found(i)` holds `v` at `i`; `Missing(i)` means `v` is absent and `i` is the insertion point (everything before is smaller, everything after is larger); on a duplicate-free slice `i` is the number of elements below `v` |
| Ordering.SortSpec | src/compactor.rs:53 | `sort_unstable` yields an ascending permutation of the buffer |
| Bitmaps.SetBit | src/lib.rs:69-74 | as bits, `set(i)` turns on bit `i` and leaves every other bit unchanged |
| Bitmaps.SaturatedIndex | src/lib.rs:75-83 | the bit `set_or_max` targets: `i` inside the bitmap, the top bit `8*B - 1` past it |
| Bitmaps.SetOrMaxBit | src/lib.rs:75-83 | as bits, `set_or_max(i)` turns on exactly the saturated index |
| Bitmaps.ByteBitOr | src/lib.rs:73 | or-ing `1 << k` into a byte sets bit `k` and keeps every other bit |
| Bitmaps.SetBitIdempotent | src/lib.rs:69-74 | setting the same bit twice is setting it once |
| Bitmaps.SetOrMaxMonotone | src/lib.rs:75-83 | `set_or_max` never clears a set bit |
| Bitmaps.Bitmap.constructor | src/lib.rs:65-68 | `new`: `B` zero bytes, every bit clear |
| Bitmaps.Bitmap.Set | src/lib.rs:69-74 | the bytes become `SetBit` of the old bytes; the bit view gains bit `i` |
| Bitmaps.Bitmap.SetOrMax | src/lib.rs:75-83 | the bytes become `SetOrMaxBit` of the old bytes; the bit view gains the saturated index |
| Bitmaps.Bitmap.Get | src/lib.rs:84-89 | `get(i)` is bit `i` of the bit view |
| Bloom.Insert | src/bloom.rs:25-29 | after inserting `v` with the first `n` hashers, a bit is set iff it was set before or some such hasher maps `v` to it |
| Bloom.NoFalseNegative | src/bloom.rs:25-37 | right after `process(v)`, `query(v)` is true |
| Bloom.MemberStable | src/bloom.rs:25-37 | an element that was reported present stays present after any later `process` |
| Bloom.BloomFilter.constructor | src/bloom.rs:17-24 | `new` (non-zero byte count): an all-clear bitmap of that many bytes and the given hashers |
| Bloom.BloomFilter.Process | src/bloom.rs:25-29 | the bits become `Insert` of the old bits with every hasher |
| Bloom.BloomFilter.Query | src/bloom.rs:33-37 | true iff every hasher's bit for `t` is set |
| Bloom.BloomFilter.Apply | src/lib.rs:46-55 | `apply` on a Bloom filter is true iff every hasher's bit for `t` is hit by some stream element; in particular it is true for every element of the stream |
| Count.ExactCounter.constructor | src/count.rs:33-35 | `new`: count 0 |
| Count.ExactCounter.Process | src/count.rs:36-38 | the count goes up by exactly one |
| Count.ExactCounter.Query | src/count.rs:40-42 | `query()` is the number of `process` calls since `new`; `Count.ExactCounter.Apply` proves it is the stream's length |
| Count.ExactCounter.Apply | src/lib.rs:46-55 | `apply` with an exact counter returns the stream's length |
| Count.MorrisCounter.constructor | src/count.rs:11-13 | `new`: count 0 |
| Count.MorrisCounter.Process | src/count.rs:14-19 | the count goes up by one when the coin accepts and is unchanged otherwise |
| Count.MorrisCounter.Run | src/count.rs:14-19 | after a stream, the count is the number of accepting coins, so never more than the stream's length |
| Distinct.TrailingZeros | src/distinct.rs:29 | the `z` low bits of the hash are zero, and bit `z` is one unless `z` is the full width |
| Distinct.Slot | src/distinct.rs:28-29 | the bit `process` sets always lies inside the bitmap |
| Distinct.TrailingOnesFrom | src/distinct.rs:43 | the bits from `j` up to the result are set, and the bit at the result is clear unless the result is 8 |
| Distinct.FullByte | src/distinct.rs:39-41 | a byte other than `u8::MAX` has a clear bit, so the scan stops at it |
| Distinct.ScanFrom | src/distinct.rs:37-45 | scanning from a byte before which every bit is set finds the first clear bit, or `8*N` |
| Distinct.QueryIndex | src/distinct.rs:37-45 | the index `query` feeds to its estimate is the first clear bit of the bitmap (or `8*N` when every bit is set) |
| Distinct.EmptyIndex | src/distinct.rs:53-59 | on a fresh bitmap the index is 0, the value behind the empty-stream estimate of 0 |
| Distinct.IndexMonotone | src/distinct.rs:26-45 | `process` never lowers the query index |
| Distinct.ProcessIdempotent | src/distinct.rs:26-30 | processing the same hash twice leaves the bytes as processing it once |
| Distinct.FlajoletMartin.constructor | src/distinct.rs:18-25 | `new` (non-zero `N`): an all-clear bitmap of `N` bytes |
| Distinct.FlajoletMartin.Process | src/distinct.rs:26-30 | the bytes become `set_or_max(trailing_zeros(hash(v)))` of the old bytes; the bit view gains that slot |
| Distinct.FlajoletMartin.Index | src/distinct.rs:33-46 | `query`'s index is the first clear bit, at most `8*N` |
| Distinct.FlajoletMartin.Apply | src/lib.rs:46-55 | after a stream, every bit below the index was selected by some element, the bit at the index by none, and an empty stream gives index 0 |
| HighFreq.SumDecrementAll | src/high_freq.rs:31-34 | decrementing every counter of a map with positive counters lowers their total by the number of keys |
| HighFreq.DecrementAllSize | src/high_freq.rs:31-34 | the eviction never adds keys |
| HighFreq.StepSum | src/high_freq.rs:21-37 | `process` keeps at most `K` keys with positive counters; an eviction round lowers the counter total by `K`, any other step raises it by one |
| HighFreq.StepCount | src/high_freq.rs:21-37 | a step lowers any key's counter by at most one; without eviction it raises only `v`'s counter, by one |
| HighFreq.RunSum | src/high_freq.rs:21-37 | after a stream, the counter total plus `(K+1)` times the number of eviction rounds equals the stream's length |
| HighFreq.RunCount | src/high_freq.rs:21-37 | a key's counter plus the number of eviction rounds is at least its frequency |
| HighFreq.HeavyHitterTracked | src/high_freq.rs:21-44 | an element occurring in more than `1/(K+1)` of the stream is among the tracked keys |
| HighFreq.MajorityTracked | src/high_freq.rs:12-13 | `Majority` (`K = 1`) tracks any element occurring in more than half the stream |
| HighFreq.MisraGries.constructor | src/high_freq.rs:16-20 | `new` (non-zero `K`): no keys |
| HighFreq.MisraGries.Process | src/high_freq.rs:21-37 | the three branches: a tracked `v` is incremented; an untracked `v` is inserted with 1 while fewer than `K` keys are tracked; otherwise `v` stays out and every counter drops by one, and keys reaching zero are evicted |
| HighFreq.MisraGries.Query | src/high_freq.rs:42-44 | `query()` is the set of tracked keys: at most `K` of them, each with a positive counter |
| HighFreq.MisraGries.Apply | src/lib.rs:46-55 | `apply` returns the keys of the run: at most `K`, and including every element above the `1/(K+1)` threshold |
| HighFreq.HitsCoverFrequency | src/high_freq.rs:65-71 | the counter an element hashes to in a row has been bumped at least as often as the element occurred |
| HighFreq.CountMin.constructor | src/high_freq.rs:56-64 | `new` (non-zero `H` and `B`): `H` rows of `B` zero counters |
| HighFreq.CountMin.Process | src/high_freq.rs:65-71 | in each row exactly the counter selected by the row's hasher goes up by one, and nothing else changes |
| HighFreq.CountMin.RowMin | src/high_freq.rs:78-82 | the minimum over the first `n` rows is one of the element's counters and below all of them |
| HighFreq.CountMin.Query | src/high_freq.rs:75-83 | `query` is the least of the element's counters and never below the element's true frequency |
| HighFreq.CountMin.Apply | src/lib.rs:46-55 | `apply` never underestimates the frequency of `t` |
| CompactorSpec.Alternate | src/compactor.rs:55-59 | the drained elements at the positions of the drawn parity, in order: element `j` is `s[2j + p]` and there are `(len + 1 - p) / 2` of them |
| CompactorSpec.AlternateFromBuffer | src/compactor.rs:51-60 | `additive_compact` yields a sub-multiset of the buffer, ascending when the buffer is sorted |
| CompactorSpec.AlternateHalf | src/compactor.rs:51-60 | a buffer of even length yields exactly half its elements |
| CompactorSpec.Pick | src/compactor.rs:72-76 | a drained slice pushes one element when the retained index lies inside it, and none otherwise |
| CompactorSpec.PickWithin | src/compactor.rs:72-76 | the pushed element comes from the slice |
| CompactorSpec.RelativeKept | src/compactor.rs:67-77 | slices `i .. k-1` push at most `k - i` elements |
| CompactorSpec.RelativeConserves | src/compactor.rs:62-78 | what `relative_compact` pushes is a sub-multiset of the drained prefix |
| CompactorSpec.RelativeSlices | src/compactor.rs:63-72 | with `max_len + 1` a power of two, the slices drain exactly `max_len` elements |
| CompactorSpec.RelativeKeptCount | src/compactor.rs:69-76 | exactly one survivor per slice when every retained index lies inside its slice; none when every index falls outside |
| CompactorSpec.ChunkCount | src/compactor.rs:85-86 | `num_chunks` is at least 1 and at most `max_len / num_chunks` |
| CompactorSpec.ChunkSize | src/compactor.rs:87 | `chunk_size >= num_chunks >= 1`, and the chunks fit in `max_len` |
| CompactorSpec.PerfectSquareExact | src/compactor.rs:85-87 | a capacity `r*r` is `r` chunks of `r` with nothing left over |
| CompactorSpec.Upto | src/compactor.rs:99 | `0 .. chunk_size`, in order |
| CompactorSpec.StridedWalk | src/compactor.rs:102-107 | the `rm_buf` walk has exactly `count` positions |
| CompactorSpec.StridedWalkAt | src/compactor.rs:102-107 | position `j` of the walk is `(start + j*stride) mod chunk_size` |
| CompactorSpec.RemovedPositions | src/compactor.rs:97-108 | chunk `n`'s `rm_buf` holds `min(n, chunk_size)` distinct positions, all inside the chunk |
| CompactorSpec.WalkStep | src/compactor.rs:103-106 | the position about to be pushed is never already in `rm_buf` (the loop's `assert!` holds) |
| CompactorSpec.Kept | src/compactor.rs:109-117 | a chunk's survivors are no more than the chunk |
| CompactorSpec.KeptFromChunk | src/compactor.rs:109-117 | a chunk's survivors are a sub-multiset of the chunk |
| CompactorSpec.KeptSorted | src/compactor.rs:109-117 | a sorted chunk's survivors are sorted |
| CompactorSpec.KeptCountBelow | src/compactor.rs:109-117 | a chunk loses exactly the removal positions lying inside it |
| CompactorSpec.KeptCount | src/compactor.rs:109-117 | with distinct in-chunk positions, a whole chunk loses exactly `rm_buf.len()` elements |
| CompactorSpec.KeptAll | src/compactor.rs:109-117 | an empty `rm_buf` keeps the chunk whole |
| CompactorSpec.LinearRestSuffix | src/compactor.rs:91-118 | after the chunk loop the buffer is the sorted buffer minus its first `num_chunks * chunk_size` elements |
| CompactorSpec.LinearKeptCount | src/compactor.rs:91-118 | a buffer holding the remaining whole chunks pushes exactly the closed-form survivor count |
| CompactorSpec.WholeChunksKeptClosed | src/compactor.rs:97 | chunks `n .. nc-1`, chunk `m` losing `m`, keep `(nc-n)(2cs-nc-n+1)/2` elements |
| CompactorSpec.LinearLeftoverSize | src/compactor.rs:80-119 | within capacity, the leftover is shorter than `max_len` and lies past the whole chunks; it is empty when `max_len` is a whole number of chunks |
| CompactorSpec.NoWholeChunkRemoved | src/compactor.rs:97-99 | `num_to_remove` is always below `chunk_size`, so the whole-chunk branch is never taken |
| CompactorSpec.FirstChunkKept | src/compactor.rs:97-117 | chunk 0 removes nothing and is kept whole |
| CompactorSpec.FullBufferOutput | src/compactor.rs:80-119 | a full buffer pushes exactly `nc*(2cs - nc + 1)/2` elements |
| CompactorSpec.Capacity144 | src/compactor.rs:216-232 | capacity 144 (the chained test) is 12 chunks of 12; a full buffer pushes 78 elements and leaves nothing |
| CompactorSpec.Rank | src/compactor.rs:22-27 | `rank` is within the slice, and it is the number of smaller outputs when `v` is absent or the outputs are duplicate-free |
| LinearFacts.LinearKeptFromBuffer | src/compactor.rs:109-117 | survivors and leftover together are a sub-multiset of the buffer |
| LinearFacts.LinearKeptSorted | src/compactor.rs:80-119 | the survivors of a sorted buffer are pushed in ascending order |
| LinearFacts.LinearConserves | src/compactor.rs:80-119 | `linear_relative_compact` invents nothing: output plus leftover stay within the buffer, and the output ascends |
| Compactors.Compactor.constructor | src/compactor.rs:31-37 | `new` (non-zero capacity): an empty buffer with that capacity |
| Compactors.Compactor.Add | src/compactor.rs:40-43 | `t` is appended, and the result says whether the buffer has just reached capacity |
| Compactors.Compactor.Len | src/compactor.rs:44-46 | `len()` is the number of buffered elements |
| Compactors.Compactor.IsEmpty | src/compactor.rs:47-49 | true iff `len()` is 0 |
| Compactors.Compactor.AdditiveCompact | src/compactor.rs:51-60 | the buffer is emptied and the result is the parity-`p` positions of the sorted buffer |
| Compactors.Compactor.RelativeCompact | src/compactor.rs:62-78 | the first `max_len` elements are drained, and the retained element of each slice is pushed onto `buf` |
| Compactors.Compactor.DrainSlices | src/compactor.rs:67-77 | draining slices `0 .. k-1` removes their `2^k - 1` elements and pushes their picks in order |
| Compactors.Compactor.DrainSlice | src/compactor.rs:68-76 | one slice is drained and its retained element, if any, pushed |
| Compactors.Compactor.LinearRelativeCompact | src/compactor.rs:80-119 | the buffer becomes the leftover past the whole chunks of the sorted buffer, and each chunk's survivors are pushed onto `buf` |
| Compactors.PushRetained | src/compactor.rs:72-76 | the enumerate-and-match loop pushes exactly the pick of the slice |
| Compactors.Removals | src/compactor.rs:95-108 | the `rm_buf` loop builds exactly `RemovedPositions` |
| Compactors.PushKept | src/compactor.rs:109-117 | the drain loop pushes exactly the elements whose positions are not in `rm_buf` |
| Compactors.CompactFull | src/compactor.rs:184-186 | compacting a full buffer empties it and adds half of it to the outputs, all drawn from the inputs |
| Compactors.WholeRoundsHalve | src/compactor.rs:182-189 | when the inputs fill whole even-capacity buffers, the rounds keep exactly half of them |
| Compactors.RunShape | src/compactor.rs:179-191 | the output count is `(n / max_len) * (max_len / 2)` and the buffer keeps `n mod max_len` |
| Compactors.AdditiveRun | src/compactor.rs:179-191 | the additive test as a run over any input: half of every full buffer is output, the remainder stays buffered, and the outputs are drawn from the inputs; 5000 inputs at capacity 100 give 2500 outputs and an empty compactor |
| Compactors.RandomSource.constructor | src/compactor.rs:5-11 | a fresh draw stream at position 0 |
| Compactors.RandomSource.Take | src/compactor.rs:5-11 | the next `k` draws, advancing the stream by `k` |
| Compactors.SumLens | src/compactor.rs:147-149 | the sum of the stage lengths is the number of elements the chain holds |
| Compactors.FlatEmpty | src/compactor.rs:144-146 | every stage is empty iff the chain holds nothing |
| Compactors.ChainedCompactors.constructor | src/compactor.rs:141-143 | `new` takes ownership of distinct stages |
| Compactors.ChainedCompactors.Len | src/compactor.rs:147-149 | `len` is the number of elements held across the stages |
| Compactors.ChainedCompactors.IsEmpty | src/compactor.rs:144-146 | `is_empty` iff the chain holds no element |
| Compactors.ChainedCompactors.Add | src/compactor.rs:152-154 | only stage 0 gains `t`; the result is stage 0's fullness |
| Compactors.ChainedCompactors.AddAt | src/compactor.rs:171 | adding to stage `k` appends to it and changes no other stage |
| Compactors.ChainedCompactors.CompactStage | src/compactor.rs:164-165 | only stage `idx` changes: it keeps `LinearLeftover` of its old buffer and falls below capacity; `buf` is `LinearOutput` of the old buffer with the next `num_chunks` draws, and survivors plus the chain stay within the old chain |
| Compactors.Draws | src/compactor.rs:5-11 | the `k` draws after the first `used`, in order |
| Compactors.Cascade | src/compactor.rs:163-175 | the value-level `linear_rel_compact_idx`: the chain keeps as many stages as it has capacities |
| Compactors.ForwardAll | src/compactor.rs:170-174 | the value-level `for v in buf.drain(..)` loop: the chain keeps its number of stages |
| Compactors.DeliverOne | src/compactor.rs:171-173 | one survivor appended to stage `idx + 1`; when that does not fill the stage, that append is the whole change |
| Compactors.DeliverStep | src/compactor.rs:171-173 | appending `x` cascades from stage `idx + 1` exactly when the stage becomes full, and otherwise is the whole step |
| Compactors.CascadeStep | src/compactor.rs:164-175 | compacting stage `idx` and then appending the survivors to `into` (last stage) or forwarding them (any other stage) is the cascade from `idx` |
| Compactors.CascadeAll | src/compactor.rs:158-162 | the value-level flush: cascades from stages `0 .. n-1` in turn, keeping the number of stages |
| Compactors.CascadeAllNext | src/compactor.rs:159-161 | one more round of the flush is the cascade from the next stage |
| Compactors.CascadeGrows | src/compactor.rs:163-175 | a cascade only appends to the output and only takes further draws |
| Compactors.ForwardGrows | src/compactor.rs:170-174 | forwarding survivors only appends to the output and only takes further draws |
| Compactors.DeliverGrows | src/compactor.rs:171-173 | delivering one survivor only appends to the output and only takes further draws |
| Compactors.GrowsStep | src/compactor.rs:159-161 | one round of the flush keeps the growth of output and draws since the start |
| Compactors.CascadeAllGrows | src/compactor.rs:158-162 | the flush only appends to the output and only takes further draws |
| Compactors.CascadeFrame | src/compactor.rs:163-175 | a cascade from `idx` leaves earlier stages alone and stage `idx` holding its leftover |
| Compactors.ForwardFrame | src/compactor.rs:170-174 | forwarding from stage `idx` leaves stages `0 .. idx` alone |
| Compactors.DeliverFrame | src/compactor.rs:171-173 | delivering a survivor leaves stages `0 .. idx` alone |
| Compactors.CascadeBounds | src/compactor.rs:163-175 | from a stage at most full and later stages below capacity, a cascade leaves that stage and every later one below capacity |
| Compactors.ForwardBounds | src/compactor.rs:170-174 | forwarding keeps every later stage below capacity |
| Compactors.DeliverBounds | src/compactor.rs:171-173 | delivering a survivor keeps every later stage below capacity |
| Compactors.FitsStep | src/compactor.rs:159-161 | one flush round leaves its stage and the later ones below capacity, empties its stage when its capacity is a whole number of chunks, and leaves earlier stages alone |
| Compactors.CascadeAllFits | src/compactor.rs:158-162 | after `n` flush rounds the later stages are below capacity, and with whole-chunk capacities the flushed stages are empty |
| Compactors.CascadeAllEmpties | src/compactor.rs:158-162 | when every capacity is a whole number of chunks, the flush leaves the chain holding nothing |
| Compactors.ChainedCompactors.LinRelCompactIdx | src/compactor.rs:163-175 | the stages, output and draws become exactly `Cascade` from `idx` of the old ones; also stated directly: earlier stages untouched, stage `idx` keeps its leftover, later stages below capacity, output only appended, nothing invented |
| Compactors.ChainedCompactors.Forward | src/compactor.rs:170-174 | the stages, output and draws become exactly `ForwardAll` of the old ones; stages up to `idx` untouched, later stages below capacity, nothing invented |
| Compactors.ChainedCompactors.Deliver | src/compactor.rs:171-173 | the stages, output and draws become exactly `DeliverOne` of the old ones, so without a fill `x` is appended to stage `idx + 1` and nothing else changes; at most `x` is added to chain plus output |
| Compactors.ChainedCompactors.LinearRelativeCompact | src/compactor.rs:155-157 | the stages, output and draws become exactly `Cascade` from stage 0; stage 0 keeps its leftover, every stage ends below capacity, output only appended, nothing invented |
| Compactors.ChainedCompactors.LinearRelativeCompactAll | src/compactor.rs:158-162 | the stages, output and draws become exactly `CascadeAll` over every stage; nothing invented, output only appended, every stage below capacity, and the chain empty when every capacity is a whole number of chunks |
| Compactors.ChainedCompactors.FlushRound | src/compactor.rs:159-161 | one iteration of the flush loop: the state becomes `Cascade` from stage `i`, with the bounds, output prefix and conservation kept |
| Quantiles.ScaledRank | src/quantile.rs:42-51 | `count * i / sampled` truncated toward zero: `r*sampled <= count*i < (r+1)*sampled`, at most `count`, and 0 when nothing was sampled |
| Quantiles.ScaledRankMonotone | src/quantile.rs:50 | more samples below the value never give a smaller rank |
| Quantiles.InsertAtPoint | src/quantile.rs:34-37 | inserting at the insertion point keeps the samples strictly increasing and adds exactly `t` |
| Quantiles.Quantile.constructor | src/quantile.rs:23-28 | `new`: no samples and a fresh counter at 0 |
| Quantiles.Quantile.Process | src/quantile.rs:29-38 | the counter advances once whatever the draw; a rejected draw leaves the samples unchanged; the samples stay strictly increasing; an accepted `t` makes the sample set the old set plus `t`, growing by at most one |
| Quantiles.Quantile.Query | src/quantile.rs:42-51 | `query(a)` scales the number of samples strictly below `a` to the count; at most the count, and 0 with no samples |
| Quantiles.Quantile.Run | src/quantile.rs:29-38 | after a stream, every element is counted and the samples are exactly the accepted elements, strictly increasing |
| Quantiles.QueryMonotone | src/quantile.rs:42-51 | the estimated rank never decreases as the queried value grows |
| Adapters.AllTrue | src/adapters.rs:52-54 | the `all` combination is true iff every sub-sketch answers true, so it is vacuously true for none |
| Adapters.StepAll | src/adapters.rs:45-49 | every sub-sketch's state advances by the same element |
| Adapters.RunGroup | src/adapters.rs:45-49 | running the group on a stream runs every member on that same stream |
| Adapters.GroupNoFalseNegatives | src/adapters.rs:45-54 | if no member has false negatives, the group has none either |
| Adapters.BoolGroup.constructor | src/adapters.rs:41-44 | `new`: a fresh array of `N` sub-sketches, one per initial state |
| Adapters.BoolGroup.Process | src/adapters.rs:45-49 | every sub-sketch processes the same `v` |
| Adapters.BoolGroup.Query | src/adapters.rs:52-54 | true iff every sub-sketch answers true; true when `N = 0` |
| Adapters.BoolGroup.Apply | src/lib.rs:46-55 | `apply` on a group is the conjunction of what each member answers after the same stream, and is true for an element of the stream when no member has false negatives |
| Adapters.MedianOfMeans.constructor | src/adapters.rs:13-16 | `new`: a fresh `M` by `N` grid of sub-sketches |
| Adapters.MedianOfMeans.Process | src/adapters.rs:17-23 | every one of the `M*N` sub-sketches processes the same `v` |
| Adapters.MedianOfMeans.Feed | src/adapters.rs:17-23 | after a stream, every sub-sketch is in the state it would reach processing that stream alone |

## Left out

- Quantiles.Quantile: only the default counter `C = ExactCounter` is modelled (src/quantile.rs:9). The crate accepts any `StreamProcessor<(), Result = usize>` there, such as `MorrisCounter`, whose count would make `query` an estimate of an estimate.

- Floating point. Several estimates are `f32` expressions and are not modelled; the model stops at the integer quantity they are computed from:
  - `MorrisCounter::query`'s `((1 + ALPHA)^count - 1) / ALPHA` (the model stops at `count`);
  - `FlajoletMartin::query`'s `2^z / PHI - 1` (the model stops at the index `z`);
  - the error measures of the compactor tests (`comp_rel_rank`, `compute_errors`, the plotting).
- The `rand()` generator (a sine of a static counter) is not modelled. Every draw is a caller-supplied value, and the chain takes an arbitrary stream of them. The probabilities involved are not modelled either: `CHANCE` in `Quantile` and `(1+ALPHA)^-count` in `MorrisCounter`.
- Quantiles.Quantile.Query: the `f32` products and quotient are computed exactly in integers and then truncated. `f32` rounding of large counts is not modelled.
- Hashing (`RandomState`, `hash_one`) is not modelled, and neither is the unused `HashFunction` trait. Hashers are arbitrary functions, and the 64-bit hash width appears only in `Distinct.TrailingZeros`.
- Fixed-width integers are unbounded here. `usize` overflow of `ExactCounter`, of `MisraGries` counters and of `Compactor` lengths is not modelled, and neither is `u32` overflow of `CountMin` counters.
- `MedianOfMeans::query` is `todo!()` in the crate and has nothing to model.
- `MisraGries::query` collects the keys of a hash map. The model returns them as a set, because their order is unspecified.
- Ordering.BinarySearch: on a slice with duplicates, `binary_search` may report any matching index. The model fixes one choice, and its contracts say only what holds for every choice.
- `StreamProcessor::apply` is modelled once per sketch as a static method. `Quantile.Run` and `MedianOfMeans.Feed` stop before the final `query`, because `Quantile::query` takes an argument and `MedianOfMeans::query` is `todo!()`.
- Draw timing: the chain takes every draw from a `RandomSource` object. The model does not capture when the crate's `rand()` is called relative to other work, which cannot be observed.
- The stages of `ChainedCompactors` are a sequence of distinct `Compactor` objects with a fixed length, rather than an owned array of values. The precondition that later stages are below capacity is the invariant that `add` and the cascade keep.
- `linear_relative_compact`'s integer square root stands for `(len as f32).sqrt() as usize`. The two agree for every capacity below `2^22`, which covers the capacities the crate's tests use. For larger capacities, `f32` rounding can make the crate's chunk count one larger; that case is not modelled.
