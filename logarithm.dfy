/**
 * The size-based height measure of src/lib.rs: `Tree::floor_log2`, which counts
 * how many right shifts empty its argument.
 */
module Logarithm {

  function Pow2(e: nat): (p: nat)
    ensures p >= 1
  {
    if e == 0 then 1 else 2 * Pow2(e - 1)
  }

  lemma {:induction false} Pow2Monotone(a: nat, b: nat)
    requires a <= b
    ensures Pow2(a) <= Pow2(b)
  {
    if a < b {
      Pow2Monotone(a, b - 1);
    }
  }

  /** floor(log2(n)) for n >= 1, and 0 for n == 0. */
  function Log2(n: nat): (r: nat)
    ensures n >= 1 ==> Pow2(r) <= n < Pow2(r + 1)
  {
    if n <= 1 then 0 else 1 + Log2(n / 2)
  }

  /** Tree::floor_log2: shift `n` right until it is zero, counting the shifts. */
  method FloorLog2(n: nat) returns (r: nat)
    ensures r == Log2(n)
    ensures n == 0 ==> r == 0
    ensures n >= 1 ==> Pow2(r) <= n < Pow2(r + 1)
  {
    if n != 0 {
      var m := n;
      var c := 0;
      while m != 0
        invariant m != 0 ==> c + Log2(m) == Log2(n)
        invariant m == 0 ==> c == Log2(n) + 1
        decreases m
      {
        m := m / 2;
        c := c + 1;
      }
      r := c - 1;
    } else {
      r := 0;
    }
  }
}
