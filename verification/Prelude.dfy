/** What several of the models share. */
module Prelude {

  datatype Option<T> = None | Some(value: T)

  function Min(a: nat, b: nat): nat {
    if a < b then a else b
  }

  ghost predicate NoRepeats<T>(s: seq<T>) {
    forall i, j | 0 <= i < j < |s| :: s[i] != s[j]
  }

  const NUL: char := '\0'

  const INT_LIMIT: int := 0x8000_0000
  const UINT_LIMIT: int := 0x1_0000_0000

  /** Conversion to a 32-bit int: the low 32 bits in two's complement. */
  function ToInt32(d: int): (r: int)
    ensures -INT_LIMIT <= r < INT_LIMIT && (r - d) % UINT_LIMIT == 0
  {
    var m := d % UINT_LIMIT;
    if m < INT_LIMIT then m else m - UINT_LIMIT
  }

  /** Integer division toward zero. */
  function Quotient(a: int, d: int): int
    requires d > 0
  {
    if a >= 0 then a / d else -(-a / d)
  }
}
