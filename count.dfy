/**
  The counting sketches: `ExactCounter` counts every element, and
  `MorrisCounter` advances its counter only when a coin, drawn with
  probability `(1 + ALPHA)^-count`, comes up. The elements themselves are
  ignored, so `process` takes none here.
 */
module Count {

  class ExactCounter {
    var count: nat

    /** `new`: nothing counted yet. */
    constructor ()
      ensures count == 0
    {
      count := 0;
    }

    method Process()
      modifies this
      ensures count == old(count) + 1
    {
      count := count + 1;
    }

    /** `query()`: the number of `process` calls since `new`. */
    function Query(): (r: nat)
      reads this
      ensures r == count
    {
      count
    }

    /** `StreamProcessor::apply`: a fresh counter, `process` on every element
        in order, then `query`; the result is the stream's length. */
    static method Apply<T>(stream: seq<T>) returns (r: nat)
      ensures r == |stream|
    {
      var c := new ExactCounter();
      var i := 0;
      while i < |stream|
        invariant i <= |stream|
        invariant c.count == i
      {
        c.Process();
        i := i + 1;
      }
      r := c.Query();
    }
  }

  class MorrisCounter {
    var count: nat

    constructor ()
      ensures count == 0
    {
      count := 0;
    }

    /** `accept` is the outcome of the draw `r < (1 + ALPHA)^-count`. */
    method Process(accept: bool)
      modifies this
      ensures count == if accept then old(count) + 1 else old(count)
      ensures old(count) <= count <= old(count) + 1
    {
      if accept {
        count := count + 1;
      }
    }

    /** The counter after a run of draws: it counts the accepted ones. */
    static method Run(draws: seq<bool>) returns (r: nat)
      ensures r == multiset(draws)[true]
      ensures r <= |draws|
    {
      var c := new MorrisCounter();
      var i := 0;
      while i < |draws|
        invariant i <= |draws|
        invariant c.count == multiset(draws[..i])[true]
      {
        assert draws[..i + 1] == draws[..i] + [draws[i]];
        c.Process(draws[i]);
        i := i + 1;
      }
      assert draws[..i] == draws;
      r := c.count;
    }
  }
}
