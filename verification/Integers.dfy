/** Integer functions that several tools use. */
module Integers {

  function Abs(v: int): nat { if v < 0 then -v else v }

  function Max(a: int, b: int): int { if a < b then b else a }

  function Min(a: int, b: int): int { if a < b then a else b }

  /** No multiple of n but 0 lies within n of 0. */
  lemma Multiple(n: int, d: int)
    requires n > 0
    ensures d >= 1 ==> n * d >= n
    ensures d >= 0 ==> n * d >= 0
    ensures d <= -1 ==> n * d <= -n
  {
  }
}
