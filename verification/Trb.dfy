/** Transfer request blocks of kernel/src/xhci/trb.rs, with bit operations on the control word as arithmetic. */
module Trbs {

  datatype Trb = Trb(parameter: int, status: int, control: nat)

  const ZERO_TRB := Trb(0, 0, 0)

  const TRB_TC := 2
  const TRB_TYPE_LINK := 6 * 1024

  /** TRB_CYCLE is bit 0 of the control word. */
  predicate Bit(t: Trb) { t.control % 2 == 1 }

  /** `x` is `t` with bit 0 of the control word, the cycle bit, as given. */
  predicate Carries(x: Trb, t: Trb, cycle: bool) {
    x.parameter == t.parameter && x.status == t.status && x.control / 2 == t.control / 2 && (x.control % 2 == 1) == cycle
  }

  /** `control | cycle` */
  function Stamped(t: Trb, cycle: bool): (x: Trb)
    ensures Carries(x, t, cycle || t.control % 2 == 1)
  {
    if cycle && !Bit(t) then t.(control := t.control + 1) else t
  }

  /** `control & !TRB_CYCLE` */
  function Masked(t: Trb): (x: Trb)
    ensures Carries(x, t, false)
  {
    if Bit(t) then t.(control := t.control - 1) else t
  }

  /** Bits 10 to 15 hold the type, bit 1 of a Link the toggle-cycle flag. */
  predicate IsLink(t: Trb) { t.control / 1024 % 64 == 6 }

  predicate TogglesCycle(t: Trb) { t.control / 2 % 2 == 1 }

  function LinkTrb(next: int, cycle: bool): Trb { Trb(next, 0, TRB_TYPE_LINK + TRB_TC + if cycle then 1 else 0) }
}
