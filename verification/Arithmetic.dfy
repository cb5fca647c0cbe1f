/** Integer helpers. */
module Arithmetic {

  function Min(a: int, b: int): int {
    if a < b then a else b
  }

  function Max(a: int, b: int): int {
    if a > b then a else b
  }

  lemma MultiplyMonotone(a: int, b: int, m: nat)
    ensures a <= b ==> a * m <= b * m
  {
  }
}
