/**
  Ordering helpers shared by the compactor and the quantile sketch: sortedness,
  the number of elements below a value, the slice binary search the crate calls
  (`binary_search`), and the sort it calls (`sort_unstable`), all over `int`
  elements (the crate's `T: Ord`).
 */
module Ordering {

  /** Non-decreasing order. */
  predicate Sorted(s: seq<int>) {
    forall i, j :: 0 <= i < j < |s| ==> s[i] <= s[j]
  }

  /** Increasing order: sorted and free of duplicates. */
  predicate StrictlySorted(s: seq<int>) {
    forall i, j :: 0 <= i < j < |s| ==> s[i] < s[j]
  }

  /** The number of elements of `s` that are strictly less than `v`. */
  function CountLess(s: seq<int>, v: int): (n: nat)
    ensures n <= |s|
  {
    if s == [] then 0
    else CountLess(s[..|s| - 1], v) + (if s[|s| - 1] < v then 1 else 0)
  }

  /** In a sorted sequence, `CountLess` is the boundary between the elements
      below `v` and the others. */
  lemma {:induction false} CountLessAt(s: seq<int>, v: int, k: nat)
    requires k <= |s|
    requires forall i :: 0 <= i < k ==> s[i] < v
    requires forall i :: k <= i < |s| ==> s[i] >= v
    ensures CountLess(s, v) == k
  {
    if s != [] {
      var init := s[..|s| - 1];
      if k == |s| {
        CountLessAt(init, v, k - 1);
      } else {
        CountLessAt(init, v, k);
      }
    }
  }

  /** The outcome of a slice binary search: `Found` is Rust's `Ok(i)`,
      `Missing` is `Err(i)` with `i` the insertion point. */
  datatype Search = Found(index: nat) | Missing(index: nat)

  function Bisect(s: seq<int>, v: int, lo: nat, hi: nat): (r: Search)
    requires Sorted(s) && lo <= hi <= |s|
    requires forall i :: 0 <= i < lo ==> s[i] < v
    requires forall i :: hi <= i < |s| ==> s[i] > v
    ensures r.Found? ==> lo <= r.index < hi && s[r.index] == v
    ensures r.Missing? ==> v !in s && r.index == CountLess(s, v)
    ensures r.Missing? ==> r.index <= |s|
    ensures r.Missing? ==> forall i :: 0 <= i < r.index ==> s[i] < v
    ensures r.Missing? ==> forall i :: r.index <= i < |s| ==> s[i] > v
    decreases hi - lo
  {
    if lo == hi then
      CountLessAt(s, v, lo);
      Missing(lo)
    else
      var mid := lo + (hi - lo) / 2;
      if s[mid] < v then Bisect(s, v, mid + 1, hi)
      else if s[mid] > v then Bisect(s, v, lo, mid)
      else Found(mid)
  }

  /** Slice `binary_search`: on a hit the index holds `v`; on a miss the index
      is where `v` would be inserted to keep the order. On a duplicate-free
      slice the index is in both cases the number of elements below `v`. */
  function BinarySearch(s: seq<int>, v: int): (r: Search)
    requires Sorted(s)
    ensures r.Found? ==> r.index < |s| && s[r.index] == v
    ensures r.Missing? ==> v !in s && r.index == CountLess(s, v)
    ensures r.Missing? ==> r.index <= |s|
    ensures r.Missing? ==> forall i :: 0 <= i < r.index ==> s[i] < v
    ensures r.Missing? ==> forall i :: r.index <= i < |s| ==> s[i] > v
    ensures StrictlySorted(s) ==> r.index == CountLess(s, v)
  {
    var r := Bisect(s, v, 0, |s|);
    if r.Found? && StrictlySorted(s) then
      CountLessAt(s, v, r.index);
      r
    else r
  }

  /** Inserts `x` in front of the first element not below it. */
  function Insert(x: int, s: seq<int>): (r: seq<int>)
    ensures |r| == |s| + 1
    decreases s
  {
    if s == [] || x <= s[0] then [x] + s
    else [s[0]] + Insert(x, s[1..])
  }

  /** Inserting into a sorted sequence keeps it sorted and adds exactly `x`. */
  ghost function InsertInduction(x: int, s: seq<int>): (r: seq<int>)
    requires Sorted(s)
    ensures r == Insert(x, s)
    ensures Sorted(r) && multiset(r) == multiset(s) + multiset{x}
    decreases s
  {
    if s == [] || x <= s[0] then [x] + s
    else
      var t := InsertInduction(x, s[1..]);
      InsertJoin(x, s, t);
      [s[0]] + t
  }

  /** Putting the head of `s` back in front of `x` inserted into the rest of
      `s` keeps the order, `x` being above the head. */
  lemma InsertJoin(x: int, s: seq<int>, t: seq<int>)
    requires Sorted(s) && s != [] && s[0] < x
    requires Sorted(t) && multiset(t) == multiset(s[1..]) + multiset{x}
    ensures Sorted([s[0]] + t) && multiset([s[0]] + t) == multiset(s) + multiset{x}
  {
    assert s == [s[0]] + s[1..];
    forall j | 0 <= j < |t| ensures s[0] <= t[j] {
      assert t[j] in multiset(t);
      if t[j] != x {
        assert t[j] in multiset(s[1..]);
        var y :| 0 <= y < |s[1..]| && s[1..][y] == t[j];
        assert s[1 + y] == t[j];
      }
    }
  }

  /** The ascending sort of `s` (`sort_unstable`: for integers every sorted
      permutation is the same sequence), by insertion. */
  function Sort(s: seq<int>): (r: seq<int>)
    ensures |r| == |s|
    decreases s
  {
    if s == [] then [] else Insert(s[0], Sort(s[1..]))
  }

  /** `Sort` together with the proof that it sorts and permutes. */
  ghost function SortInduction(s: seq<int>): (r: seq<int>)
    ensures r == Sort(s)
    ensures Sorted(r) && multiset(r) == multiset(s)
    decreases s
  {
    if s == [] then []
    else
      var t := SortInduction(s[1..]);
      var r := InsertInduction(s[0], t);
      ConsMultiset(s);
      r
  }

  /** A non-empty sequence is its head and its tail. */
  lemma ConsMultiset(s: seq<int>)
    requires s != []
    ensures multiset(s) == multiset(s[1..]) + multiset{s[0]}
  {
    assert s == [s[0]] + s[1..];
  }

  /** The sort is sorted and a permutation of its input. */
  lemma SortSpec(s: seq<int>)
    ensures Sorted(Sort(s)) && multiset(Sort(s)) == multiset(s)
  {
    var r := SortInduction(s);
  }
}
