/** Options, and arithmetic of unsigned numbers. */
module Options {
  datatype Option<+T> = None | Some(value: T)
}

module Arith {
  function Max(a: int, b: int): int { if a < b then b else a }

  function Min(a: nat, b: nat): nat { if a < b then a else b }

  /** Subtraction that stops at zero. */
  function SatSub(a: nat, b: nat): nat { if a < b then 0 else a - b }
}
