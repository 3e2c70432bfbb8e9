/** Positions that advance in equal steps, as the pointers of the signal code do. */
module Stride {

  /** The position after k steps. */
  function Pos(k: nat, step: nat): nat { if k == 0 then 0 else Pos(k - 1, step) + step }

  lemma {:induction false} PosIs(k: nat, step: nat)
    ensures Pos(k, step) == k * step
  {
    if k > 0 { PosIs(k - 1, step); }
  }

  lemma {:induction false} PosMonotone(j: nat, k: nat, step: nat)
    requires j <= k
    ensures Pos(j, step) <= Pos(k, step)
  {
    if j < k { PosMonotone(j, k - 1, step); }
  }

  lemma {:induction false} PosAdd(j: nat, k: nat, step: nat)
    ensures Pos(j + k, step) == Pos(j, step) + Pos(k, step)
  {
    if k > 0 { PosAdd(j, k - 1, step); }
  }

  lemma PosBounds(d: nat, step: nat)
    requires step > 0
    ensures Pos(d / step, step) <= d < Pos(d / step + 1, step)
  {
    PosIs(d / step, step);
  }

  /** How many whole steps fit into n. */
  function Steps(n: nat, step: nat): nat
    requires step > 0
  {
    if n < step then 0 else Steps(n - step, step) + 1
  }

  lemma {:induction false} StepsAre(k: nat, step: nat, r: nat)
    requires r < step
    ensures Steps(Pos(k, step) + r, step) == k
  {
    if k > 0 { StepsAre(k - 1, step, r); }
  }

  lemma StepsIs(n: nat, step: nat)
    requires step > 0
    ensures Steps(n, step) == n / step
  {
    PosBounds(n, step);
    PosMonotone(n / step, n / step + 1, step);
    StepsAre(n / step, step, n - Pos(n / step, step));
  }
}
