/** Finite sums of reals. */
module Sums {

  /** f(0) + f(1) + ... + f(n - 1). */
  function Sigma(n: nat, f: nat -> real): real { if n == 0 then 0.0 else Sigma(n - 1, f) + f(n - 1) }

  lemma {:induction false} SigmaEqual(n: nat, f: nat -> real, g: nat -> real)
    requires forall i :: 0 <= i < n ==> f(i) == g(i)
    ensures Sigma(n, f) == Sigma(n, g)
  {
    if n > 0 { SigmaEqual(n - 1, f, g); }
  }
}
