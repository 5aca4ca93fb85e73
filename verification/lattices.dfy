/** Multiples of a real step written as repeated addition. The grid's
    lattice of origins and the shuffle's index draw are products of a count
    and a real; stating them as repeated steps keeps the proofs about them in
    linear arithmetic, and `LatticeIsProduct` ties them back to the product. */
module Lattices {

  /** `off + k·step`, as `k` steps of `step` from `off`. */
  function Lattice(off: real, k: nat, step: real): real
  {
    if k == 0 then off else Lattice(off, k - 1, step) + step
  }

  /** The repeated-step position is the product position. */
  lemma {:induction false} LatticeIsProduct(off: real, k: nat, step: real)
    ensures Lattice(off, k, step) == off + (k as real) * step
  {
    if k > 0 {
      LatticeIsProduct(off, k - 1, step);
      assert (k as real) * step == ((k - 1) as real) * step + step;
    }
  }

  /** Positions with different indices are at least one step apart. */
  lemma {:induction false} LatticeGap(off: real, a: nat, b: nat, step: real)
    requires a > b && step >= 0.0
    ensures Lattice(off, a, step) - Lattice(off, b, step) >= step
  {
    if a > b + 1 {
      LatticeGap(off, a - 1, b, step);
    }
  }

  /** `k` fractions `r ∈ [0, 1)` add up to something in `[0, k)` (for `k > 0`). */
  lemma {:induction false} FractionSumBelow(r: real, k: nat)
    requires 0.0 <= r < 1.0
    ensures 0.0 <= Lattice(0.0, k, r) <= k as real
    ensures k > 0 ==> Lattice(0.0, k, r) < k as real
  {
    if k > 0 {
      FractionSumBelow(r, k - 1);
    }
  }
}
