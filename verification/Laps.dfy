/**
 Positions on a ring of `n` slots: the k-th entry ever written goes to slot `Slot(k)`, and `Phase(k)`
 is the cycle bit of its lap, true in the first.
*/
module Laps {

  function Slot(k: nat, n: nat): (s: nat)
    requires n > 0
    ensures s < n
  {
    if k < n then k else Slot(k - n, n)
  }

  predicate Phase(k: nat, n: nat)
    requires n > 0
  {
    if k < n then true else !Phase(k - n, n)
  }

  lemma {:induction false} NextSlot(k: nat, n: nat)
    requires n > 0
    ensures Slot(k + 1, n) == if Slot(k, n) + 1 == n then 0 else Slot(k, n) + 1
    ensures Phase(k + 1, n) == if Slot(k, n) + 1 == n then !Phase(k, n) else Phase(k, n)
  {
    if k >= n {
      NextSlot(k - n, n);
    } else if k + 1 == n {
      assert Slot(0, n) == 0;
    }
  }

  /** Position `r` of lap `q`: the slot is `r`, and every second lap writes ones. */
  lemma {:induction false} LapAndSlot(q: nat, r: nat, n: nat)
    requires r < n
    ensures q * n + r >= 0 && Slot(q * n + r, n) == r
    ensures Phase(q * n + r, n) <==> q % 2 == 0
  {
    if q > 0 {
      assert q * n == (q - 1) * n + n;
      LapAndSlot(q - 1, r, n);
    }
  }

  /** Two entries share a slot only if they are at least a whole lap apart. */
  lemma {:induction false} SlotsDiffer(j: nat, k: nat, n: nat)
    requires j < k < j + n
    ensures Slot(j, n) != Slot(k, n)
  {
    if j >= n {
      SlotsDiffer(j - n, k - n, n);
    } else if k >= n {
      assert Slot(k, n) == k - n;
    }
  }

  /** The first `d < n` entries after the start of a lap lie in that lap. */
  lemma {:induction false} WithinLap(c: nat, d: nat, n: nat)
    requires d < n && Slot(c, n) == 0
    ensures Phase(c + d, n) == Phase(c, n) && Slot(c + d, n) == d
  {
    if c >= n {
      WithinLap(c - n, d, n);
    }
  }

  /** Advancing modulo the size is wrapping at the end. */
  lemma WrapIsModulo(x: nat, n: nat)
    requires x < n
    ensures (x + 1) % n == if x + 1 == n then 0 else x + 1
  {
  }
}
