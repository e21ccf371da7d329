/** Facts about products that the solver needs to be told. */
module Arithmetic {

  lemma MulMono(x: nat, y: nat, p: nat)
    requires x <= y
    ensures x * p <= y * p
  {
  }
}
