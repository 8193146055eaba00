/** What several of the models share. */
module Common {

  datatype Option<+T> = None | Some(value: T)

  type byte = n: nat | n < 256

  function Min(a: int, b: int): int { if a <= b then a else b }

  lemma OneMore(k: nat, m: nat)
    ensures (k + 1) * m == k * m + m
  {
  }
}
