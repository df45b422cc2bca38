/**
  The quantile sketch: a duplicate-free, ascending vector of sampled elements
  together with an owned exact counter of everything seen. `process` counts
  the element and, when the sampling draw accepts it, inserts it at its
  binary-search insertion point; `query(a)` scales the number of samples
  below `a` to the count. The draw `rand() > CHANCE` is the caller's
  `accept` flag here, and the `f32` arithmetic of `query` is integer
  division truncated like the final `as usize`.
 */
module Quantiles {
  import opened Arith
  import opened Ordering
  import opened Count

  /** `count * below / sampled` truncated toward zero, and 0 when nothing
      was sampled (the `f32` quotient is then NaN, which `as usize` turns
      into 0). */
  function ScaledRank(count: nat, below: nat, sampled: nat): (r: nat)
    requires below <= sampled
    ensures sampled == 0 ==> r == 0
    ensures sampled > 0 ==> r * sampled <= count * below < (r + 1) * sampled
    ensures r <= count
  {
    if sampled == 0 then 0
    else
      ScaleBound(count, below, sampled);
      MulStep(count * below / sampled, sampled);
      count * below / sampled
  }

  /** Multiplying by the same factor keeps the order. */
  lemma MulMonotone(x: nat, y: nat, c: nat)
    requires x <= y
    ensures x * c <= y * c
  {
    MulBounds(y - x, c);
    assert y * c == x * c + (y - x) * c;
  }

  /** A fraction of at most one keeps the scaled value within the count. */
  lemma ScaleBound(c: nat, i: nat, n: nat)
    requires 0 < n && i <= n
    ensures c * i / n <= c
  {
    var q := c * i / n;
    assert q * n <= c * i;
    MulMonotone(i, n, c);
    assert c * i == i * c && c * n == n * c;
    if q > c {
      MulMonotone(c + 1, q, n);
      MulStep(c, n);
    }
  }

  /** More samples below the queried value never give a smaller rank. */
  lemma ScaledRankMonotone(count: nat, b1: nat, b2: nat, sampled: nat)
    requires b1 <= b2 <= sampled
    ensures ScaledRank(count, b1, sampled) <= ScaledRank(count, b2, sampled)
  {
    if sampled > 0 {
      var r1, r2 := ScaledRank(count, b1, sampled), ScaledRank(count, b2, sampled);
      MulMonotone(b1, b2, count);
      assert count * b1 == b1 * count && count * b2 == b2 * count;
      if r1 > r2 {
        MulMonotone(r2 + 1, r1, sampled);
      }
    }
  }

  /** Inserting `t` at its insertion point into an increasing sequence
      keeps it increasing and adds exactly `t`. */
  lemma InsertAtPoint(s: seq<int>, idx: nat, t: int)
    requires StrictlySorted(s) && idx <= |s|
    requires forall i :: 0 <= i < idx ==> s[i] < t
    requires forall i :: idx <= i < |s| ==> s[i] > t
    ensures StrictlySorted(s[..idx] + [t] + s[idx..])
    ensures forall x :: x in s[..idx] + [t] + s[idx..] <==> x in s || x == t
  {
    var r := s[..idx] + [t] + s[idx..];
    assert s == s[..idx] + s[idx..];
    forall i, j | 0 <= i < j < |r| ensures r[i] < r[j] {
      if j < idx || i > idx {
      } else if i == idx {
        assert r[j] == s[j - 1];
      } else if j == idx {
        assert r[i] == s[i];
      } else {
        assert r[i] == s[i] && r[j] == s[j - 1];
      }
    }
  }

  /** The number of elements below a value grows with the value. */
  lemma {:induction false} CountLessMonotone(s: seq<int>, v: int, w: int)
    requires v <= w
    ensures CountLess(s, v) <= CountLess(s, w)
  {
    if s != [] {
      CountLessMonotone(s[..|s| - 1], v, w);
    }
  }

  class Quantile {
    var samples: seq<int>
    /** The owned counter of every element seen. */
    const counter: ExactCounter

    /** The samples ascend with no duplicates. */
    ghost predicate Valid()
      reads this
    {
      StrictlySorted(samples)
    }

    /** `new`: no samples and a fresh counter at zero. */
    constructor ()
      ensures Valid() && samples == []
      ensures fresh(counter) && counter.count == 0
    {
      samples := [];
      counter := new ExactCounter();
    }

    /** `process`: the counter always advances; an accepted element not yet
        sampled is inserted where it keeps the samples increasing. */
    method Process(t: int, accept: bool)
      requires Valid()
      modifies this, counter
      ensures Valid()
      ensures counter.count == old(counter.count) + 1
      ensures !accept ==> samples == old(samples)
      ensures accept ==> forall x :: x in samples <==> x in old(samples) || x == t
      ensures |old(samples)| <= |samples| <= |old(samples)| + 1
    {
      counter.Process();
      if !accept {
        return;
      }
      var r := BinarySearch(samples, t);
      if r.Missing? {
        InsertAtPoint(samples, r.index, t);
        samples := samples[..r.index] + [t] + samples[r.index..];
      }
    }

    /** `query(a)`: the rank of `a` estimated from the samples, in units of
        the elements counted. */
    function Query(a: int): (r: nat)
      reads this, counter
      requires Valid()
      ensures r == ScaledRank(counter.count, CountLess(samples, a), |samples|)
      ensures r <= counter.count
      ensures samples == [] ==> r == 0
    {
      var count := counter.Query();
      var i := BinarySearch(samples, a).index;
      ScaledRank(count, i, |samples|)
    }

    /** `StreamProcessor::apply` without the final query: a fresh sketch
        processes `stream` in order, `accepts[k]` being the draw for
        `stream[k]`. Every element is counted and the samples are exactly the
        accepted elements, in increasing order. */
    static method Run(stream: seq<int>, accepts: seq<bool>) returns (q: Quantile)
      requires |accepts| == |stream|
      ensures fresh(q) && fresh(q.counter) && q.Valid()
      ensures q.counter.count == |stream|
      ensures forall x :: x in q.samples <==> x in Accepted(stream, accepts)
      ensures |q.samples| <= |stream|
    {
      q := new Quantile();
      var k := 0;
      while k < |stream|
        invariant k <= |stream| && q.Valid() && fresh(q.counter)
        invariant q.counter.count == k && |q.samples| <= k
        invariant forall x :: x in q.samples <==> x in Accepted(stream[..k], accepts[..k])
      {
        AcceptedStep(stream, accepts, k);
        q.Process(stream[k], accepts[k]);
        k := k + 1;
      }
      assert stream[..k] == stream && accepts[..k] == accepts;
    }
  }

  /** The elements whose draw accepted them. */
  function Accepted(stream: seq<int>, accepts: seq<bool>): set<int>
    requires |accepts| == |stream|
  {
    set k | 0 <= k < |stream| && accepts[k] :: stream[k]
  }

  /** One more element adds itself to the accepted ones exactly when its
      draw accepts it. */
  lemma AcceptedStep(stream: seq<int>, accepts: seq<bool>, k: nat)
    requires k < |stream| == |accepts|
    ensures Accepted(stream[..k + 1], accepts[..k + 1])
      == Accepted(stream[..k], accepts[..k]) + (if accepts[k] then {stream[k]} else {})
  {
    var s, a := stream[..k + 1], accepts[..k + 1];
    assert s[..k] == stream[..k] && a[..k] == accepts[..k];
    assert s[k] == stream[k] && a[k] == accepts[k];
  }

  /** The estimated rank never decreases with the queried value. */
  lemma QueryMonotone(q: Quantile, a: int, b: int)
    requires q.Valid() && a <= b
    ensures q.Query(a) <= q.Query(b)
  {
    CountLessMonotone(q.samples, a, b);
    ScaledRankMonotone(q.counter.count, CountLess(q.samples, a), CountLess(q.samples, b), |q.samples|);
  }
}
