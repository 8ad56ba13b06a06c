/** Repeated addition and multiplication. */
module Counting {

  /** `n` added `times` times. */
  function Repeated(n: nat, times: nat): nat {
    if times == 0 then 0 else n + Repeated(n, times - 1)
  }

  lemma {:induction false} RepeatedMonotone(n: nat, i: nat, j: nat)
    requires i <= j
    ensures Repeated(n, i) <= Repeated(n, j)
  {
    if i < j {
      RepeatedMonotone(n, i, j - 1);
    }
  }

  lemma {:induction false} RepeatedIsProduct(n: nat, times: nat)
    ensures Repeated(n, times) == n * times
  {
    if times > 0 {
      RepeatedIsProduct(n, times - 1);
    }
  }

  /** `x` to the power `n`. */
  function Pow(x: int, n: nat): int {
    if n == 0 then 1 else x * Pow(x, n - 1)
  }

  lemma {:induction false} PowOfNat(x: nat, n: nat)
    ensures Pow(x, n) >= 0
  {
    if n > 0 {
      PowOfNat(x, n - 1);
    }
  }
}
