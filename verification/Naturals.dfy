/** Minimum, maximum and cut-off subtraction. */
module Naturals {
  function Min(a: nat, b: nat): nat { if a <= b then a else b }

  function Max(a: nat, b: nat): nat { if a >= b then a else b }

  function Monus(a: nat, b: nat): nat { if a <= b then 0 else a - b }
}
