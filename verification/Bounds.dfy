/** The smaller and the larger of two numbers, and a number cut off at zero. */
module Bounds {
  function Min(a: nat, b: nat): nat { if a <= b then a else b }

  function Max(a: nat, b: nat): nat { if a <= b then b else a }

  function FromZero(a: int): nat { if a >= 0 then a else 0 }
}
