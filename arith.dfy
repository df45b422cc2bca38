/**
  Integer arithmetic the compactor relies on: powers of two and their
  logarithm (`is_power_of_two`, `next_power_of_two`, `checked_log2`), the
  integer square root standing for `(len as f32).sqrt() as usize`, and the
  modular facts behind the strided removal positions.
 */
module Arith {

  function Min(a: nat, b: nat): nat {
    if a <= b then a else b
  }

  function Pow2(k: nat): (p: nat)
    ensures p >= 1
  {
    if k == 0 then 1 else 2 * Pow2(k - 1)
  }

  /** `1 + 2 + ... + 2^(k-1) == 2^k - 1`: the slices of sizes `2^i`, `i < k`,
      cover `2^k - 1` elements. */
  lemma {:induction false} Pow2Sum(k: nat)
    ensures SliceTotal(k) + 1 == Pow2(k)
  {
    if k > 0 {
      Pow2Sum(k - 1);
    }
  }

  /** The slice totals grow with the number of slices. */
  lemma {:induction false} SliceTotalMonotone(i: nat, k: nat)
    requires i <= k
    ensures SliceTotal(i) <= SliceTotal(k)
    decreases k
  {
    if i < k {
      SliceTotalMonotone(i, k - 1);
    }
  }

  /** The total size of the slices `2^0, ..., 2^(k-1)`. */
  function SliceTotal(k: nat): nat {
    if k == 0 then 0 else SliceTotal(k - 1) + Pow2(k - 1)
  }

  /** `checked_log`: the exponent of the least power of two that is at least
      `n` (`n.next_power_of_two().checked_log2()`, with `0` sent to `2^0`). */
  function CheckedLog(n: nat): (k: nat)
    ensures Pow2(k) >= n
    ensures k > 0 ==> Pow2(k - 1) < n
    decreases n
  {
    if n <= 1 then 0
    else
      var k := 1 + CheckedLog((n + 1) / 2);
      assert Pow2(k) == 2 * Pow2(k - 1);
      k
  }

  predicate IsPowerOfTwo(n: nat) {
    Pow2(CheckedLog(n)) == n
  }

  /** On an exact power of two the logarithm is the exponent. */
  lemma {:induction false} LogOfPow2(k: nat)
    ensures CheckedLog(Pow2(k)) == k
    ensures IsPowerOfTwo(Pow2(k))
  {
    var c := CheckedLog(Pow2(k));
    if c < k {
      Pow2Monotone(c, k);
    } else if c > k {
      Pow2Monotone(k, c - 1);
    }
  }

  lemma {:induction false} Pow2Monotone(a: nat, b: nat)
    requires a <= b
    ensures Pow2(a) <= Pow2(b)
    ensures a < b ==> Pow2(a) < Pow2(b)
    decreases b
  {
    if a < b {
      Pow2Monotone(a, b - 1);
    }
  }

  lemma SquareMonotone(a: nat, b: nat)
    requires a <= b
    ensures a * a <= b * b
  {
    assert a * a <= a * b <= b * b;
  }

  function ISqrtFrom(n: nat, r: nat): (s: nat)
    requires r * r <= n
    ensures s * s <= n < (s + 1) * (s + 1)
    decreases n - r
  {
    if (r + 1) * (r + 1) > n then r
    else
      assert r < n by {
        assert r <= r * r + 2 * r;
      }
      ISqrtFrom(n, r + 1)
  }

  /** `floor(sqrt(n))`, the number of chunks of `linear_relative_compact`. */
  function ISqrt(n: nat): (r: nat)
    ensures r * r <= n < (r + 1) * (r + 1)
  {
    ISqrtFrom(n, 0)
  }

  /** The integer square root is the only `r` with `r*r <= n < (r+1)*(r+1)`. */
  lemma ISqrtUnique(n: nat, s: nat)
    requires s * s <= n < (s + 1) * (s + 1)
    ensures ISqrt(n) == s
  {
    var r := ISqrt(n);
    if r < s {
      SquareMonotone(r + 1, s);
    } else if r > s {
      SquareMonotone(s + 1, r);
    }
  }

  /** A positive `n` has at least one chunk, and a chunk of `n / ISqrt(n)`
      elements is never shorter than the chunk count. */
  lemma ChunkShape(n: nat)
    requires n >= 1
    ensures ISqrt(n) >= 1
    ensures n / ISqrt(n) >= ISqrt(n)
  {
    var r := ISqrt(n);
    DivLowerBound(n, r, r);
  }

  lemma DivLowerBound(n: nat, d: nat, q: nat)
    requires d >= 1 && q * d <= n
    ensures n / d >= q
  {
    MulBounds(q - n / d, d);
  }

  /** The sign facts about a product with a positive factor. */
  lemma MulBounds(x: int, c: nat)
    ensures x <= 0 ==> x * c <= 0
    ensures x >= 1 ==> x * c >= c
  {
    if x >= 1 {
      assert x * c == (x - 1) * c + c;
    }
  }

  /** Adding the offsets `a < b < c` to a common start lands on distinct
      residues modulo `c`. */
  lemma ModDistinct(s: nat, a: nat, b: nat, c: nat)
    requires a < b < c
    ensures (s + a) % c != (s + b) % c
  {
    var qa, qb := (s + a) / c, (s + b) / c;
    var ra, rb := (s + a) % c, (s + b) % c;
    assert b - a == (qb - qa) * c + (rb - ra);
    MulBounds(qb - qa, c);
  }

  /** Reducing before adding does not change a residue. */
  lemma ModAdd(x: nat, y: nat, c: nat)
    requires c >= 1
    ensures (x % c + y) % c == (x + y) % c
  {
    var z := x % c + y;
    var w := z / c;
    assert x + y == (x / c + w) * c + z % c;
    DivModUnique(x + y, c, x / c + w, z % c);
  }

  /** Euclidean division is determined by its quotient and remainder. */
  lemma DivModUnique(x: int, c: nat, q: int, r: int)
    requires c >= 1 && 0 <= r < c && x == q * c + r
    ensures x / c == q && x % c == r
  {
    var q0, r0 := x / c, x % c;
    assert (q - q0) * c == r0 - r;
    MulBounds(q - q0, c);
    MulBounds(q0 - q, c);
  }

  /** Strided offsets: with `m < c` steps of `c / m`, every offset `j*(c/m)`,
      `j < m`, stays below `c`, and distinct steps give distinct offsets. */
  lemma StrideOffsets(c: nat, m: nat, i: nat, j: nat)
    requires 1 <= m < c && i < j < m
    ensures i * (c / m) < j * (c / m) < c
  {
    var st := c / m;
    assert st >= 1 by {
      DivLowerBound(c, m, 1);
    }
    assert i * st < j * st;
    assert m * st <= c by {
      assert c == st * m + c % m;
    }
    assert j * st < m * st;
  }

  /** One more copy of `b`. */
  lemma MulStep(a: nat, b: nat)
    ensures (a + 1) * b == a * b + b
  {
  }

  /** One more element: the remainder grows by one, or wraps to zero and
      the quotient grows by one. */
  lemma DivModStep(i: nat, m: nat)
    requires m >= 1
    ensures i % m + 1 == m ==> (i + 1) / m == i / m + 1 && (i + 1) % m == 0
    ensures i % m + 1 < m ==> (i + 1) / m == i / m && (i + 1) % m == i % m + 1
  {
    if i % m + 1 == m {
      DivModUnique(i + 1, m, i / m + 1, 0);
    } else {
      DivModUnique(i + 1, m, i / m, i % m + 1);
    }
  }
}
