/**
  The frequency sketches. `MisraGries<T, K>` keeps at most `K` keys with
  positive counters: a tracked element's counter goes up by one; an untracked
  one is inserted with counter 1 while fewer than `K` keys are tracked, and
  otherwise every counter goes down by one, the keys reaching zero are evicted
  and the element is dropped. `query` returns the tracked keys, which include
  every element occurring in more than `1/(K+1)` of the stream; `Majority` is
  `K = 1`. `CountMin<T, S, B, H>` keeps `H` rows of `B` counters; `process`
  bumps, in every row, the counter its row hasher selects, and `query` is the
  smallest of the element's counters, never below its true frequency.
 */
module HighFreq {

  // ---------------------------------------------------------------------------
  // Misra-Gries
  // ---------------------------------------------------------------------------

  /** The counter of `x`, zero when `x` is untracked. */
  function Count<T>(m: map<T, nat>, x: T): nat {
    if x in m then m[x] else 0
  }

  /** The invariant of the counter map: at most `k` keys, all positive. */
  predicate Bounded<T>(m: map<T, nat>, k: nat) {
    |m| <= k && forall x :: x in m ==> m[x] >= 1
  }

  /** The `drain_filter` branch: every counter decremented, keys that reach
      zero evicted. */
  function DecrementAll<T>(m: map<T, nat>): map<T, nat> {
    map x | x in m && m[x] > 1 :: m[x] - 1
  }

  /** Whether `process(v)` takes the decrement-all branch. */
  predicate Evicts<T>(m: map<T, nat>, k: nat, v: T) {
    v !in m && |m| >= k
  }

  /** One `process(v)` step on the counter map. */
  function Step<T>(m: map<T, nat>, k: nat, v: T): map<T, nat> {
    if v in m then m[v := m[v] + 1]
    else if |m| < k then m[v := 1]
    else DecrementAll(m)
  }

  /** The counter map after processing a whole stream from `new`. */
  function Run<T>(k: nat, stream: seq<T>): map<T, nat>
    decreases |stream|
  {
    if stream == [] then map[]
    else Step(Run(k, stream[..|stream| - 1]), k, stream[|stream| - 1])
  }

  /** The number of decrement-all rounds while processing `stream`. */
  ghost function Rounds<T>(k: nat, stream: seq<T>): nat
    decreases |stream|
  {
    if stream == [] then 0
    else
      var init := stream[..|stream| - 1];
      Rounds(k, init) + if Evicts(Run(k, init), k, stream[|stream| - 1]) then 1 else 0
  }

  /** The sum of all counters. */
  ghost function Sum<T>(m: map<T, nat>): nat
    decreases |m|
  {
    if m == map[] then 0
    else
      var x :| x in m.Keys;
      assert (m - {x}).Keys == m.Keys - {x};
      m[x] + Sum(m - {x})
  }

  /** The sum does not depend on the order keys are taken in. */
  lemma {:induction false} SumRemove<T>(m: map<T, nat>, y: T)
    requires y in m
    ensures Sum(m) == m[y] + Sum(m - {y})
    decreases |m|
  {
    var x :| x in m.Keys && Sum(m) == m[x] + Sum(m - {x});
    if x != y {
      assert (m - {y}).Keys == m.Keys - {y};
      assert (m - {x}).Keys == m.Keys - {x};
      SumRemove(m - {x}, y);
      SumRemove(m - {y}, x);
      assert m - {x} - {y} == m - {y} - {x};
    }
  }

  /** Decrementing every positive counter lowers the sum by the key count. */
  lemma {:induction false} SumDecrementAll<T>(m: map<T, nat>)
    requires forall x :: x in m ==> m[x] >= 1
    ensures Sum(DecrementAll(m)) + |m| == Sum(m)
    decreases |m|
  {
    if m != map[] {
      var x :| x in m.Keys;
      var rest := m - {x};
      assert rest.Keys == m.Keys - {x};
      SumRemove(m, x);
      SumDecrementAll(rest);
      if m[x] > 1 {
        SumRemove(DecrementAll(m), x);
        assert DecrementAll(m) - {x} == DecrementAll(rest);
      } else {
        assert DecrementAll(m) == DecrementAll(rest);
      }
    }
  }

  /** Fewer keys after an eviction round. */
  lemma DecrementAllSize<T>(m: map<T, nat>)
    ensures |DecrementAll(m)| <= |m|
  {
    var r := DecrementAll(m);
    assert r.Keys <= m.Keys;
    SubsetSize(r.Keys, m.Keys);
  }

  lemma {:induction false} SubsetSize<T>(a: set<T>, b: set<T>)
    requires a <= b
    ensures |a| <= |b|
    decreases |b|
  {
    if a != {} {
      var x :| x in a;
      SubsetSize(a - {x}, b - {x});
    }
  }

  /** A tracked element's counter goes up: the sum grows by one. */
  lemma SumIncrement<T>(m: map<T, nat>, v: T)
    requires v in m
    ensures Sum(m[v := m[v] + 1]) == Sum(m) + 1
  {
    var r := m[v := m[v] + 1];
    SumRemove(m, v);
    SumRemove(r, v);
    assert r - {v} == m - {v};
  }

  /** A new key with counter 1: the sum grows by one. */
  lemma SumInsert<T>(m: map<T, nat>, v: T)
    requires v !in m
    ensures Sum(m[v := 1]) == Sum(m) + 1
  {
    var r := m[v := 1];
    SumRemove(r, v);
    assert r - {v} == m;
  }

  /** One step keeps the map bounded, adds one to the sum unless it is an
      eviction round (which removes `k`). */
  lemma StepSum<T>(m: map<T, nat>, k: nat, v: T)
    requires k >= 1 && Bounded(m, k)
    ensures Bounded(Step(m, k, v), k)
    ensures Evicts(m, k, v) ==> Sum(Step(m, k, v)) + k == Sum(m)
    ensures !Evicts(m, k, v) ==> Sum(Step(m, k, v)) == Sum(m) + 1
  {
    if v in m {
      SumIncrement(m, v);
    } else if |m| < k {
      SumInsert(m, v);
    } else {
      DecrementAllSize(m);
      SumDecrementAll(m);
    }
  }

  /** One step lowers no counter by more than one, and raises the processed
      element's counter unless it is an eviction round. */
  lemma StepCount<T>(m: map<T, nat>, k: nat, v: T, x: T)
    ensures Count(Step(m, k, v), x) + 1 >= Count(m, x)
    ensures !Evicts(m, k, v) && x == v ==> Count(Step(m, k, v), x) == Count(m, x) + 1
    ensures !Evicts(m, k, v) && x != v ==> Count(Step(m, k, v), x) == Count(m, x)
  {
  }

  /** Unfolds `Run` and `Rounds` on a non-empty stream. */
  lemma RunLast<T>(k: nat, stream: seq<T>)
    requires stream != []
    ensures Run(k, stream) == Step(Run(k, stream[..|stream| - 1]), k, stream[|stream| - 1])
    ensures Rounds(k, stream) == Rounds(k, stream[..|stream| - 1])
      + if Evicts(Run(k, stream[..|stream| - 1]), k, stream[|stream| - 1]) then 1 else 0
  {
  }

  lemma MulSucc(k: nat, d: nat)
    ensures (k + 1) * (d + 1) == (k + 1) * d + k + 1
  {
  }

  /** The Misra-Gries invariant of a run, first half: the map stays bounded,
      and every processed element is either counted or paid for by an
      eviction round (which discards `k + 1` occurrences). */
  lemma {:induction false} RunSum<T>(k: nat, stream: seq<T>)
    requires k >= 1
    ensures Bounded(Run(k, stream), k)
    ensures Sum(Run(k, stream)) + (k + 1) * Rounds(k, stream) == |stream|
    decreases |stream|
  {
    if stream != [] {
      var init := stream[..|stream| - 1];
      var v := stream[|stream| - 1];
      RunSum(k, init);
      RunLast(k, stream);
      var m := Run(k, init);
      StepSum(m, k, v);
      MulSucc(k, Rounds(k, init));
    }
  }

  /** The Misra-Gries invariant of a run, second half: each element's
      counter is below its frequency by at most the number of rounds. */
  lemma {:induction false} RunCount<T>(k: nat, stream: seq<T>, x: T)
    ensures Count(Run(k, stream), x) + Rounds(k, stream) >= multiset(stream)[x]
    decreases |stream|
  {
    if stream != [] {
      var init := stream[..|stream| - 1];
      var v := stream[|stream| - 1];
      assert stream == init + [v];
      assert multiset(stream)[x] == multiset(init)[x] + if x == v then 1 else 0;
      RunCount(k, init, x);
      RunLast(k, stream);
      StepCount(Run(k, init), k, v, x);
    }
  }

  lemma MulCancel(k: nat, d: nat, f: nat)
    ensures (k + 1) * d < (k + 1) * f ==> d < f
  {
    if d >= f {
      assert (k + 1) * d == (k + 1) * f + (k + 1) * (d - f);
    }
  }

  /** Heavy hitters are never lost: an element making up more than a
      `1/(k+1)` share of the stream is tracked at the end. */
  lemma HeavyHitterTracked<T>(k: nat, stream: seq<T>, x: T)
    requires k >= 1
    requires (k + 1) * multiset(stream)[x] > |stream|
    ensures x in Run(k, stream)
  {
    RunSum(k, stream);
    RunCount(k, stream, x);
    MulCancel(k, Rounds(k, stream), multiset(stream)[x]);
  }

  /** `Majority` (`K = 1`): an element in a strict majority of the stream is
      in the query result. */
  lemma MajorityTracked<T>(stream: seq<T>, x: T)
    requires 2 * multiset(stream)[x] > |stream|
    ensures x in Run(1, stream)
  {
    HeavyHitterTracked(1, stream, x);
  }

  class MisraGries<T(==)> {
    const k: nat
    var counts: map<T, nat>

    ghost predicate Valid()
      reads this
    {
      k >= 1 && Bounded(counts, k)
    }

    /** `new`: asserts `K != 0`; no key tracked. */
    constructor (k: nat)
      requires k != 0
      ensures Valid() && this.k == k && counts == map[]
    {
      this.k := k;
      counts := map[];
    }

    method Process(v: T)
      requires Valid()
      modifies this
      ensures Valid()
      ensures counts == Step(old(counts), k, v)
      ensures v in old(counts) ==> counts == old(counts)[v := old(counts)[v] + 1]
      ensures v !in old(counts) && |old(counts)| < k ==> counts == old(counts)[v := 1]
      ensures v !in old(counts) && |old(counts)| >= k ==>
        v !in counts && forall x :: Count(counts, x) + 1 == Count(old(counts), x) || (x !in old(counts) && x !in counts)
    {
      StepSum(counts, k, v);
      var size := |counts|;
      if v in counts {
        counts := counts[v := counts[v] + 1];
      } else if size < k {
        counts := counts[v := 1];
      } else {
        counts := map x | x in counts && counts[x] > 1 :: counts[x] - 1;
      }
    }

    /** The tracked keys (the crate returns them as a vector in map order). */
    function Query(): (r: set<T>)
      reads this
      ensures r == counts.Keys
      ensures Valid() ==> |r| <= k
      ensures Valid() ==> forall x :: x in r ==> counts[x] >= 1
    {
      counts.Keys
    }

    /** `StreamProcessor::apply`: the keys tracked after the whole stream; at
        most `k` of them, and every heavy hitter among them. */
    static method Apply(k: nat, stream: seq<T>) returns (keys: set<T>)
      requires k != 0
      ensures keys == Run(k, stream).Keys
      ensures |keys| <= k
      ensures forall x :: (k + 1) * multiset(stream)[x] > |stream| ==> x in keys
    {
      var g := new MisraGries(k);
      var n := 0;
      while n < |stream|
        invariant n <= |stream|
        invariant g.Valid() && g.k == k
        invariant g.counts == Run(k, stream[..n])
      {
        g.Process(stream[n]);
        assert stream[..n + 1][..n] == stream[..n];
        n := n + 1;
      }
      assert stream[..n] == stream;
      keys := g.Query();
      assert |keys| <= |g.counts|;
      forall x | (k + 1) * multiset(stream)[x] > |stream|
        ensures x in keys
      {
        HeavyHitterTracked(k, stream, x);
      }
    }
  }

  // ---------------------------------------------------------------------------
  // Count-min
  // ---------------------------------------------------------------------------

  /** The number of elements of `stream` that `hash` sends to bucket `c` of a
      row of `width` counters. */
  function Hits<T>(stream: seq<T>, hash: T -> nat, width: nat, c: nat): nat
    requires width > 0
    decreases |stream|
  {
    if stream == [] then 0
    else
      Hits(stream[..|stream| - 1], hash, width, c)
      + if hash(stream[|stream| - 1]) % width == c then 1 else 0
  }

  /** Every occurrence of `t` lands in `t`'s own bucket, so that bucket is at
      least `t`'s frequency. */
  lemma {:induction false} HitsCoverFrequency<T>(stream: seq<T>, hash: T -> nat, width: nat, t: T)
    requires width > 0
    ensures Hits(stream, hash, width, hash(t) % width) >= multiset(stream)[t]
    decreases |stream|
  {
    if stream != [] {
      var init := stream[..|stream| - 1];
      assert stream == init + [stream[|stream| - 1]];
      HitsCoverFrequency(init, hash, width, t);
    }
  }

  class CountMin<T> {
    const hashers: seq<T -> nat>
    const width: nat
    const buckets: array2<nat>
    /** The elements processed so far. */
    ghost var seen: seq<T>

    /** Every counter counts the processed elements its row sends to it. */
    ghost predicate Valid()
      reads this, buckets
    {
      && |hashers| >= 1 && width >= 1
      && buckets.Length0 == |hashers| && buckets.Length1 == width
      && forall r, c :: 0 <= r < |hashers| && 0 <= c < width ==>
           buckets[r, c] == Hits(seen, hashers[r], width, c)
    }

    /** `new`: asserts `H != 0` and `B != 0`; all counters zero. */
    constructor (width: nat, hashers: seq<T -> nat>)
      requires |hashers| != 0 && width != 0
      ensures Valid() && fresh(buckets) && seen == []
      ensures this.width == width && this.hashers == hashers
      ensures forall r, c :: 0 <= r < |hashers| && 0 <= c < width ==> buckets[r, c] == 0
    {
      this.hashers := hashers;
      this.width := width;
      buckets := new nat[|hashers|, width]((_, _) => 0);
      seen := [];
    }

    method Process(t: T)
      requires Valid()
      modifies this, buckets
      ensures Valid() && seen == old(seen) + [t]
      ensures forall r, c :: 0 <= r < |hashers| && 0 <= c < width ==>
        buckets[r, c] == old(buckets[r, c]) + if c == hashers[r](t) % width then 1 else 0
    {
      var r := 0;
      while r < |hashers|
        modifies buckets
        invariant r <= |hashers|
        invariant forall i, c :: 0 <= i < |hashers| && 0 <= c < width ==>
          buckets[i, c] == old(buckets[i, c]) + if i < r && c == hashers[i](t) % width then 1 else 0
      {
        var c := hashers[r](t) % width;
        buckets[r, c] := buckets[r, c] + 1;
        r := r + 1;
      }
      seen := seen + [t];
      assert seen[..|seen| - 1] == old(seen);
    }

    /** The smallest of `t`'s counters over the first `n` rows. */
    function RowMin(t: T, n: nat): (m: nat)
      requires Valid() && 1 <= n <= |hashers|
      reads this, buckets
      ensures exists r :: 0 <= r < n && m == buckets[r, hashers[r](t) % width]
      ensures forall r :: 0 <= r < n ==> m <= buckets[r, hashers[r](t) % width]
    {
      var here := buckets[n - 1, hashers[n - 1](t) % width];
      if n == 1 then here
      else
        var rest := RowMin(t, n - 1);
        if here < rest then here else rest
    }

    /** `query`: the minimum over rows; never below the true frequency. */
    function Query(t: T): (m: nat)
      requires Valid()
      reads this, buckets
      ensures exists r :: 0 <= r < |hashers| && m == buckets[r, hashers[r](t) % width]
      ensures forall r :: 0 <= r < |hashers| ==> m <= buckets[r, hashers[r](t) % width]
      ensures m >= multiset(seen)[t]
    {
      var m := RowMin(t, |hashers|);
      var r :| 0 <= r < |hashers| && m == buckets[r, hashers[r](t) % width];
      HitsCoverFrequency(seen, hashers[r], width, t);
      m
    }

    /** `StreamProcessor::apply`: the estimate for `t` after the whole stream
        is at least `t`'s frequency in it. */
    static method Apply(width: nat, hashers: seq<T -> nat>, stream: seq<T>, t: T) returns (m: nat)
      requires |hashers| != 0 && width != 0
      ensures m >= multiset(stream)[t]
    {
      var s := new CountMin(width, hashers);
      var n := 0;
      while n < |stream|
        invariant n <= |stream|
        invariant s.Valid() && s.seen == stream[..n]
      {
        s.Process(stream[n]);
        assert stream[..n + 1] == stream[..n] + [stream[n]];
        n := n + 1;
      }
      assert stream[..n] == stream;
      m := s.Query(t);
    }
  }
}
