/** One-step facts of natural-number multiplication shared by the byte-cast
    and buffer-layout proofs, each stated for `count * unit`. */
module Arithmetic {

  lemma MulMonotone(b: nat, c: nat, a: nat)
    requires b <= c
    ensures b * a <= c * a
  {
  }

  lemma MulSucc(k: nat, a: nat)
    ensures (k + 1) * a == k * a + a
  {
  }
}
