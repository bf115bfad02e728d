/** Facts about numbers. */
module Arithmetic {

  lemma Scaled(i: nat, width: nat)
    requires i > 0
    ensures width + (i - 1) * width == i * width
  {
  }
}
