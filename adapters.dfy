/**
  The adapters that bundle several copies of one sketch: `BoolGroup` feeds
  every element to `N` boolean sketches and answers with their conjunction,
  `MedianOfMeans` feeds every element to an `M` by `N` grid of sketches.
  A sub-sketch is given by its state type `St`, its `process` as `step` and
  (for `BoolGroup`) its `query` as `ask`; the states produced by the `N`
  calls of `S::new()` are the caller's `inits`, since they may draw
  randomness (such as a Bloom filter's hash seeds).
 */
module Adapters {

  /** The state of a sub-sketch after processing `stream` in order. */
  function Run<T, St>(step: (St, T) -> St, s: St, stream: seq<T>): St
    decreases |stream|
  {
    if stream == [] then s
    else step(Run(step, s, stream[..|stream| - 1]), stream[|stream| - 1])
  }

  /** Processing one more element is one more `step`. */
  lemma RunStep<T, St>(step: (St, T) -> St, s: St, stream: seq<T>, k: nat)
    requires k < |stream|
    ensures Run(step, s, stream[..k + 1]) == step(Run(step, s, stream[..k]), stream[k])
  {
    assert stream[..k + 1][..k] == stream[..k];
  }

  /** A boolean sketch has no false negatives when, from `init`, it answers
      true for every element it has processed. */
  ghost predicate NoFalseNegatives<T(!new), St>(step: (St, T) -> St, ask: (St, T) -> bool, init: St) {
    forall stream: seq<T>, x: T :: x in stream ==> ask(Run(step, init, stream), x)
  }

  /** `iter().all(...)`: every state answers true. */
  function AllTrue<T, St>(ask: (St, T) -> bool, subs: seq<St>, a: T): (r: bool)
    ensures r <==> forall j :: 0 <= j < |subs| ==> ask(subs[j], a)
    ensures subs == [] ==> r
  {
    subs == [] || (ask(subs[0], a) && AllTrue(ask, subs[1..], a))
  }

  /** Every state advanced by the same element. */
  function StepAll<T, St>(step: (St, T) -> St, subs: seq<St>, v: T): (r: seq<St>)
    ensures |r| == |subs|
    ensures forall j :: 0 <= j < |subs| ==> r[j] == step(subs[j], v)
  {
    if subs == [] then [] else [step(subs[0], v)] + StepAll(step, subs[1..], v)
  }

  /** Each sub-sketch's state after the whole stream. */
  function RunEach<T, St>(step: (St, T) -> St, inits: seq<St>, stream: seq<T>): (r: seq<St>)
    ensures |r| == |inits|
    ensures forall j :: 0 <= j < |inits| ==> r[j] == Run(step, inits[j], stream)
  {
    if inits == [] then [] else [Run(step, inits[0], stream)] + RunEach(step, inits[1..], stream)
  }

  /** The group is itself a sketch whose state is the sequence of its
      members' states: running the group runs every member on the same
      stream. */
  lemma {:induction false} RunGroup<T, St>(step: (St, T) -> St, inits: seq<St>, stream: seq<T>)
    ensures Run((subs, v) => StepAll(step, subs, v), inits, stream) == RunEach(step, inits, stream)
    decreases |stream|
  {
    if stream != [] {
      var init := stream[..|stream| - 1];
      RunGroup(step, inits, init);
    }
  }

  /** No false negatives carries over from the members to the group. */
  lemma GroupNoFalseNegatives<T(!new), St>(step: (St, T) -> St, ask: (St, T) -> bool, inits: seq<St>)
    requires forall j :: 0 <= j < |inits| ==> NoFalseNegatives(step, ask, inits[j])
    ensures NoFalseNegatives((subs, v) => StepAll(step, subs, v), (subs, a) => AllTrue(ask, subs, a), inits)
  {
    forall stream: seq<T>, x: T | x in stream
      ensures AllTrue(ask, Run((subs, v) => StepAll(step, subs, v), inits, stream), x)
    {
      RunGroup(step, inits, stream);
      forall j | 0 <= j < |inits| ensures ask(Run(step, inits[j], stream), x) {
        assert NoFalseNegatives(step, ask, inits[j]);
      }
    }
  }

  class BoolGroup<T(!new), St> {
    const step: (St, T) -> St
    const ask: (St, T) -> bool
    const subs: array<St>

    /** `new`: one freshly created sub-sketch per initial state. */
    constructor (inits: seq<St>, step: (St, T) -> St, ask: (St, T) -> bool)
      ensures fresh(subs) && subs[..] == inits
      ensures this.step == step && this.ask == ask
    {
      this.step, this.ask := step, ask;
      subs := new St[|inits|](j requires 0 <= j < |inits| => inits[j]);
    }

    /** `process(v)`: every sub-sketch processes the same `v`. */
    method Process(v: T)
      modifies subs
      ensures subs[..] == StepAll(step, old(subs[..]), v)
    {
      for j := 0 to subs.Length
        invariant forall i :: 0 <= i < j ==> subs[i] == step(old(subs[i]), v)
        invariant forall i :: j <= i < subs.Length ==> subs[i] == old(subs[i])
      {
        subs[j] := step(subs[j], v);
      }
    }

    /** `query(a)`: true exactly when every sub-sketch answers true, so
        vacuously true for an empty group. */
    function Query(a: T): (r: bool)
      reads subs
      ensures r <==> forall j :: 0 <= j < subs.Length ==> ask(subs[j], a)
      ensures subs.Length == 0 ==> r
    {
      AllTrue(ask, subs[..], a)
    }

    /** `StreamProcessor::apply`: a fresh group processes `stream`, then
        answers `query(a)`. The answer is the conjunction of what each member
        would answer on its own after the same stream, and it is true for an
        element of the stream when no member has false negatives. */
    static method Apply(inits: seq<St>, step: (St, T) -> St, ask: (St, T) -> bool, stream: seq<T>, a: T)
      returns (r: bool)
      ensures r == AllTrue(ask, RunEach(step, inits, stream), a)
      ensures a in stream && (forall j :: 0 <= j < |inits| ==> NoFalseNegatives(step, ask, inits[j])) ==> r
    {
      var g := new BoolGroup(inits, step, ask);
      var k := 0;
      while k < |stream|
        invariant k <= |stream| && fresh(g.subs) && g.step == step && g.ask == ask
        invariant g.subs[..] == RunEach(step, inits, stream[..k])
      {
        forall j | 0 <= j < |inits| {
          RunStep(step, inits[j], stream, k);
        }
        g.Process(stream[k]);
        k := k + 1;
      }
      assert stream[..k] == stream;
      r := g.Query(a);
      if a in stream && forall j :: 0 <= j < |inits| ==> NoFalseNegatives(step, ask, inits[j]) {
        GroupNoFalseNegatives(step, ask, inits);
        RunGroup(step, inits, stream);
        assert NoFalseNegatives((subs, v) => StepAll(step, subs, v), (subs, a) => AllTrue(ask, subs, a), inits);
      }
    }
  }

  class MedianOfMeans<T, St> {
    const step: (St, T) -> St
    /** `groups[i, j]` is sub-sketch `j` of group `i`. */
    const groups: array2<St>

    /** `new`: `M` groups of `N` freshly created sub-sketches. */
    constructor (inits: seq<seq<St>>, n: nat, step: (St, T) -> St)
      requires forall i :: 0 <= i < |inits| ==> |inits[i]| == n
      ensures fresh(groups) && groups.Length0 == |inits| && groups.Length1 == n
      ensures forall i, j :: 0 <= i < |inits| && 0 <= j < n ==> groups[i, j] == inits[i][j]
      ensures this.step == step
    {
      this.step := step;
      groups := new St[|inits|, n]((i, j) requires 0 <= i < |inits| && 0 <= j < n => inits[i][j]);
    }

    /** `process(v)`: every sub-sketch of every group processes `v`. */
    method Process(v: T)
      modifies groups
      ensures forall i, j :: 0 <= i < groups.Length0 && 0 <= j < groups.Length1 ==>
        groups[i, j] == step(old(groups[i, j]), v)
    {
      for i := 0 to groups.Length0
        invariant forall p, q :: 0 <= p < i && 0 <= q < groups.Length1 ==>
          groups[p, q] == step(old(groups[p, q]), v)
        invariant forall p, q :: i <= p < groups.Length0 && 0 <= q < groups.Length1 ==>
          groups[p, q] == old(groups[p, q])
      {
        for j := 0 to groups.Length1
          invariant forall p, q :: 0 <= p < i && 0 <= q < groups.Length1 ==>
            groups[p, q] == step(old(groups[p, q]), v)
          invariant forall q :: 0 <= q < j ==> groups[i, q] == step(old(groups[i, q]), v)
          invariant forall p, q :: i <= p < groups.Length0 && 0 <= q < groups.Length1 && (p > i || q >= j) ==>
            groups[p, q] == old(groups[p, q])
        {
          groups[i, j] := step(groups[i, j], v);
        }
      }
    }

    /** A fresh grid processes `stream`: every sub-sketch ends in the state
        it would reach processing the stream alone. */
    static method Feed(inits: seq<seq<St>>, n: nat, step: (St, T) -> St, stream: seq<T>)
      returns (m: MedianOfMeans<T, St>)
      requires forall i :: 0 <= i < |inits| ==> |inits[i]| == n
      ensures fresh(m.groups) && m.groups.Length0 == |inits| && m.groups.Length1 == n
      ensures forall i, j :: 0 <= i < |inits| && 0 <= j < n ==>
        m.groups[i, j] == Run(step, inits[i][j], stream)
    {
      m := new MedianOfMeans(inits, n, step);
      var k := 0;
      while k < |stream|
        invariant k <= |stream| && fresh(m.groups) && m.step == step
        invariant m.groups.Length0 == |inits| && m.groups.Length1 == n
        invariant forall i, j :: 0 <= i < |inits| && 0 <= j < n ==>
          m.groups[i, j] == Run(step, inits[i][j], stream[..k])
      {
        forall i, j | 0 <= i < |inits| && 0 <= j < n {
          RunStep(step, inits[i][j], stream, k);
        }
        m.Process(stream[k]);
        k := k + 1;
      }
      assert stream[..k] == stream;
    }
  }
}
