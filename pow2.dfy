/** Buffer capacity: buffers are sized to a power of two at least as
    large as the number of cells or characters they must hold, and grow
    by moving their contents to a larger allocation. */
module Pow2 {

  predicate IsPow2(n: nat)
    decreases n
  {
    n == 1 || (n >= 2 && n % 2 == 0 && IsPow2(n / 2))
  }

  /** Doubling from the power of two `p` until `n` fits. */
  function Grow(p: nat, n: nat): (r: nat)
    requires IsPow2(p)
    ensures IsPow2(r) && r >= n && r >= p
    ensures p >= n ==> r == p
    ensures p < n ==> r < 2 * n
    decreases n - p
  {
    if p >= n then p
    else
      assert (2 * p) / 2 == p;
      Grow(2 * p, n)
  }

  /** The least power of two that is at least `n` (and at least 1). */
  function RoundUp2Pow(n: nat): (r: nat)
    ensures IsPow2(r) && r >= n && r >= 1
    ensures n >= 1 ==> r < 2 * n
  {
    Grow(1, n)
  }

  /** A buffer moved to a larger allocation: a fresh array of `n` cells
      whose prefix is the old contents. */
  method Reallocate<T>(a: array<T>, n: nat, filler: T) returns (b: array<T>)
    requires a.Length <= n
    ensures fresh(b) && b.Length == n
    ensures b[..a.Length] == a[..]
  {
    b := new T[n](_ => filler);
    forall k | 0 <= k < a.Length {
      b[k] := a[k];
    }
  }
}
