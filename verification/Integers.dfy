/** Integer arithmetic shared by the modules. */
module Integers {
  function Min(x: int, y: int): int {
    if y < x then y else x
  }

  function Max(x: int, y: int): int {
    if x < y then y else x
  }

  function Power(base: nat, n: nat): nat {
    if n == 0 then 1 else base * Power(base, n - 1)
  }

  lemma PowerStep(base: nat, i: nat)
    ensures Power(base, 0) == 1
    ensures Power(base, i + 1) == base * Power(base, i)
  {
  }
}
