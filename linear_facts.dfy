/**
  The survivor facts of `linear_relative_compact`: what it pushes and what it
  leaves in the buffer together never exceed the buffer, and the survivors of
  the sorted buffer come out in ascending order.
 */
module LinearFacts {
  import opened Arith
  import opened Ordering
  import opened CompactorSpec

  /** One chunk of `LinearKept` and `LinearRest`. */
  lemma LinearUnfold(b: seq<int>, cs: Pos, nc: nat, n: nat, rms: seq<seq<nat>>)
    requires n < nc <= |rms| && b != []
    ensures LinearKept(b, cs, nc, n, rms)
      == Kept(b[..Min(cs, |b|)], rms[n])
         + LinearKept(b[Min(cs, |b|)..], cs, nc, n + 1, rms)
    ensures LinearRest(b, cs, nc, n) == LinearRest(b[Min(cs, |b|)..], cs, nc, n + 1)
  {
  }

  /** One chunk of `linear_relative_compact`: after pushing the chunk's
      kept elements onto `x` and draining the chunk, the remaining chunks
      complete the same output and leave the same leftover. */
  lemma LinearStep(x: seq<int>, x': seq<int>, b: seq<int>, cs: Pos, nc: nat, n: nat, rms: seq<seq<nat>>,
                   y: seq<int>, left: seq<int>)
    requires n < nc <= |rms| && b != []
    requires x + LinearKept(b, cs, nc, n, rms) == y
    requires LinearRest(b, cs, nc, n) == left
    requires x' == x + Kept(b[..Min(cs, |b|)], rms[n])
    ensures x' + LinearKept(b[Min(cs, |b|)..], cs, nc, n + 1, rms) == y
    ensures LinearRest(b[Min(cs, |b|)..], cs, nc, n + 1) == left
  {
    var c := Min(cs, |b|);
    LinearUnfold(b, cs, nc, n, rms);
    Regroup(x, Kept(b[..c], rms[n]), LinearKept(b[c..], cs, nc, n + 1, rms));
  }

  /** Pieces drawn from the two sides of a cut stay within the whole. */
  lemma SplitConserves(b: seq<int>, c: nat, k: seq<int>, r: seq<int>, rest: seq<int>)
    requires c <= |b|
    requires multiset(k) <= multiset(b[..c])
    requires multiset(r) + multiset(rest) <= multiset(b[c..])
    ensures multiset(k + r) + multiset(rest) <= multiset(b)
  {
    assert b == b[..c] + b[c..];
  }

  /** Sorted pieces drawn from the two sides of a cut of a sorted sequence
      concatenate to a sorted sequence. */
  lemma SortedSplit(b: seq<int>, c: nat, k: seq<int>, r: seq<int>)
    requires Sorted(b) && c <= |b|
    requires Sorted(k) && multiset(k) <= multiset(b[..c])
    requires Sorted(r) && multiset(r) <= multiset(b[c..])
    ensures Sorted(k + r)
  {
    forall i, j | 0 <= i < |k| && 0 <= j < |r| ensures k[i] <= r[j] {
      assert k[i] in multiset(b[..c]);
      assert r[j] in multiset(b[c..]);
      var x :| 0 <= x < c && b[..c][x] == k[i];
      var y :| 0 <= y < |b| - c && b[c..][y] == r[j];
      assert b[x] == k[i] && b[c + y] == r[j];
    }
  }

  lemma SortedPrefixKept(b: seq<int>, c: nat, rm: seq<nat>)
    requires Sorted(b) && c <= |b|
    ensures Sorted(Kept(b[..c], rm)) && multiset(Kept(b[..c], rm)) <= multiset(b[..c])
  {
    assert Sorted(b[..c]);
    KeptSorted(b[..c], rm);
    KeptFromChunk(b[..c], rm);
  }

  /** The survivors of the first chunk of a sorted buffer, followed by
      survivors drawn from the rest of it, are in ascending order. */
  lemma SortedJoin(b: seq<int>, c: nat, rm: seq<nat>, tail: seq<int>, rest: seq<int>)
    requires c <= |b|
    requires multiset(tail) + multiset(rest) <= multiset(b[c..])
    requires Sorted(b[c..]) ==> Sorted(tail)
    ensures Sorted(b) ==> Sorted(Kept(b[..c], rm) + tail)
  {
    if Sorted(b) {
      assert Sorted(b[c..]);
      SortedPrefixKept(b, c, rm);
      forall e ensures multiset(tail)[e] <= multiset(b[c..])[e] {
        assert (multiset(tail) + multiset(rest))[e] <= multiset(b[c..])[e];
      }
      SortedSplit(b, c, Kept(b[..c], rm), tail);
    }
  }

  /** `LinearKept` computed chunk by chunk together with its survivor facts:
      the contract of each recursive call is the induction hypothesis for
      the chunks after the first. */
  ghost function KeptInduction(b: seq<int>, cs: Pos, nc: nat, n: nat, rms: seq<seq<nat>>): (r: seq<int>)
    requires n <= nc <= |rms|
    ensures r == LinearKept(b, cs, nc, n, rms)
    ensures multiset(r) + multiset(LinearRest(b, cs, nc, n)) <= multiset(b)
    ensures Sorted(b) ==> Sorted(r)
    decreases nc - n
  {
    if n == nc || b == [] then []
    else
      var c := Min(cs, |b|);
      var tail := KeptInduction(b[c..], cs, nc, n + 1, rms);
      var rest := LinearRest(b[c..], cs, nc, n + 1);
      KeptFromChunk(b[..c], rms[n]);
      LinearUnfold(b, cs, nc, n, rms);
      SplitConserves(b, c, Kept(b[..c], rms[n]), tail, rest);
      SortedJoin(b, c, rms[n], tail, rest);
      Kept(b[..c], rms[n]) + tail
  }

  /** Survivors come from the drained part of the buffer, never invented:
      together with what is left they make a sub-multiset of the buffer. */
  lemma LinearKeptFromBuffer(b: seq<int>, cs: Pos, nc: nat, n: nat, rms: seq<seq<nat>>)
    requires n <= nc <= |rms|
    ensures multiset(LinearKept(b, cs, nc, n, rms)) + multiset(LinearRest(b, cs, nc, n)) <= multiset(b)
  {
    var r := KeptInduction(b, cs, nc, n, rms);
  }

  /** Survivors of a sorted buffer are pushed in ascending order. */
  lemma LinearKeptSorted(b: seq<int>, cs: Pos, nc: nat, n: nat, rms: seq<seq<nat>>)
    requires n <= nc <= |rms|
    requires Sorted(b)
    ensures Sorted(LinearKept(b, cs, nc, n, rms))
  {
    var r := KeptInduction(b, cs, nc, n, rms);
  }

  /** Survivors and leftover together never exceed the buffer, and the
      survivors are in ascending order. */
  lemma LinearConserves(buffer: seq<int>, maxLen: Pos, starts: seq<nat>)
    requires |starts| >= ChunkCount(maxLen)
    ensures multiset(LinearOutput(buffer, maxLen, starts)) + multiset(LinearLeftover(buffer, maxLen))
      <= multiset(buffer)
    ensures Sorted(LinearOutput(buffer, maxLen, starts))
  {
    var cs, nc := ChunkSize(maxLen), ChunkCount(maxLen);
    var rms := RemovalPlan(cs, nc, starts);
    SortSpec(buffer);
    LinearKeptFromBuffer(Sort(buffer), cs, nc, 0, rms);
    LinearKeptSorted(Sort(buffer), cs, nc, 0, rms);
  }
}
