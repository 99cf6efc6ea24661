/**
 The producer rings of kernel/src/xhci/controller.rs: usable slots and then a Link TRB, which the
 driver rewrites with the toggled cycle bit whenever it wraps.  The controller that consumes them
 follows a Link only if its cycle bit is the one it expects.
*/
module LinkRings {
  import opened Laps
  import opened Trbs

  /**
   Memory, everything submitted (stamped), and how many submissions the driver has stepped past.
   A submission that the driver has not stepped past may be replaced by another in the same slot.
  */
  datatype View = View(mem: seq<Trb>, submitted: seq<Trb>, advanced: nat, size: nat, base: int)
  {
    ghost predicate Fine() {
      && size > 0 && |mem| == size + 1
      && advanced <= |submitted| <= advanced + 1
      && mem[size] == LinkTrb(base, Phase(advanced, size))
      && (forall k: nat :: k < |submitted| ==> InPlace(k))
      && (forall s: nat :: |submitted| <= s < size ==> mem[s] == ZERO_TRB)
    }

    /** An entry carries the bit of its lap and is no Link; until overwritten it is in its slot. */
    ghost predicate InPlace(k: nat)
      requires k < |submitted| && size > 0 && |mem| == size + 1
    {
      && Bit(submitted[k]) == Phase(k, size) && !IsLink(submitted[k])
      && (|submitted| <= k + size ==> mem[Slot(k, size)] == submitted[k])
    }
  }

  /** The TRB as the driver writes it into its current slot. */
  function Current(v: View, t: Trb): Trb
    requires v.size > 0
  {
    Stamped(Masked(t), Phase(v.advanced, v.size))
  }

  /** The driver writes a TRB into its current slot, over one that is there already if it gave up on that. */
  function Written(v: View, t: Trb): View
    requires v.size > 0 && |v.mem| == v.size + 1 && v.advanced <= |v.submitted|
  {
    v.(mem := v.mem[Slot(v.advanced, v.size) := Current(v, t)], submitted := v.submitted[..v.advanced] + [Current(v, t)])
  }

  /** The driver steps to the next slot; at the end it toggles its cycle and rewrites the Link. */
  function Advanced(v: View): View
    requires v.size > 0 && |v.mem| == v.size + 1
  {
    var next := v.(advanced := v.advanced + 1);
    if Slot(v.advanced + 1, v.size) == 0
    then next.(mem := v.mem[v.size := LinkTrb(v.base, Phase(v.advanced + 1, v.size))]) else next
  }

  lemma StampKeepsType(t: Trb, cycle: bool)
    requires !IsLink(t)
    ensures !IsLink(Stamped(Masked(t), cycle)) && Bit(Stamped(Masked(t), cycle)) == cycle
  {
    HalfThenRest(t.control);
    HalfThenRest(Stamped(Masked(t), cycle).control);
  }

  /** The type does not depend on bit 0. */
  lemma HalfThenRest(n: nat)
    ensures n / 1024 == n / 2 / 512
  {
  }

  lemma WrittenFine(v: View, t: Trb)
    requires v.Fine() && !IsLink(t)
    ensures Written(v, t).Fine() && Written(v, t).advanced + 1 == |Written(v, t).submitted|
  {
    var v' := Written(v, t);
    var p := v.advanced;
    StampKeepsType(t, Phase(p, v.size));
    forall k: nat | k <= p
      ensures v'.InPlace(k)
    {
      if k < p {
        assert v.InPlace(k);
        if p < k + v.size {
          SlotsDiffer(k, p, v.size);
        }
      }
    }
    forall s: nat | p + 1 <= s < v.size
      ensures v'.mem[s] == ZERO_TRB
    {
      assert Slot(p, v.size) == p;
    }
  }

  lemma AdvancedFine(v: View)
    requires v.Fine() && v.advanced + 1 == |v.submitted|
    ensures Advanced(v).Fine() && Advanced(v).advanced == |Advanced(v).submitted|
  {
    NextSlot(v.advanced, v.size);
    forall k: nat | k < |v.submitted|
      ensures Advanced(v).InPlace(k)
    {
      assert v.InPlace(k);
    }
  }

  /**
   The driver's ring.  Commands and interrupt transfers step on right after the doorbell; a bulk
   transfer steps on only when it is completed, so that after a time-out the next one is written
   into the same slot.
  */
  class LinkRing {
    const mem: array<Trb>
    const base: int
    var producer: nat
    var cycle: bool
    ghost var submitted: seq<Trb>
    ghost var advanced: nat

    ghost function V(): View
      reads this, mem
    {
      View(mem[..], submitted, advanced, if mem.Length > 0 then mem.Length - 1 else 0, base)
    }

    ghost predicate Valid()
      reads this, mem
    {
      && V().Fine()
      && producer == Slot(advanced, mem.Length - 1) && cycle == Phase(advanced, mem.Length - 1)
    }

    constructor (size: nat, base: int)
      requires size > 0
      ensures Valid() && fresh(mem)
      ensures V() == View(seq(size, _ => ZERO_TRB) + [LinkTrb(base, true)], [], 0, size, base)
      ensures cycle && producer == 0 && mem.Length == size + 1 && mem[size] == Trb(base, 0, 6 * 1024 + 3)
      ensures forall i :: 0 <= i < size ==> mem[i] == Trb(0, 0, 0)
    {
      mem := new Trb[size + 1](_ => ZERO_TRB);
      this.base := base;
      producer := 0;
      cycle := true;
      submitted := [];
      advanced := 0;
      new;
      mem[size] := LinkTrb(base, true);
      assert mem[..] == seq(size, _ => ZERO_TRB) + [LinkTrb(base, true)];
    }

    /** The first half of a submission, up to the doorbell. */
    method Write(t: Trb) returns (index: nat)
      requires Valid() && !IsLink(t)
      modifies mem, this`submitted
      ensures Valid() && V() == Written(old(V()), t) && advanced + 1 == |submitted|
      ensures index == producer == old(producer) && index < mem.Length - 1 && Carries(mem[index], t, old(cycle))
      ensures submitted != [] && Carries(submitted[|submitted| - 1], t, old(cycle))
      ensures forall i :: 0 <= i < mem.Length && i != index ==> mem[i] == old(mem[i])
    {
      ghost var v := V();
      WrittenFine(v, t);
      index := producer;
      var stamped := Stamped(Masked(t), cycle);
      mem[index] := stamped;
      submitted := submitted[..advanced] + [stamped];
      assert mem[..] == v.mem[index := stamped];
    }

    /** The second half: the producer index moves on, and at the end of the ring the Link is rewritten. */
    method Advance()
      requires Valid() && advanced + 1 == |submitted|
      modifies this`producer, this`cycle, this`advanced, mem
      ensures Valid() && V() == Advanced(old(V())) && submitted == old(submitted)
      ensures var last := mem.Length - 1;
        && producer == (if old(producer) + 1 == last then 0 else old(producer) + 1)
        && cycle == (if old(producer) + 1 == last then !old(cycle) else old(cycle))
        && mem[last] == (if old(producer) + 1 == last then Trb(base, 0, 6 * 1024 + 2 + if cycle then 1 else 0) else old(mem[last]))
        && forall i :: 0 <= i < last ==> mem[i] == old(mem[i])
    {
      ghost var v := V();
      AdvancedFine(v);
      NextSlot(advanced, mem.Length - 1);
      producer := producer + 1;
      advanced := advanced + 1;
      if producer == mem.Length - 1 {
        producer := 0;
        cycle := !cycle;
        mem[mem.Length - 1] := LinkTrb(base, cycle);
        assert mem[..] == v.mem[v.size := LinkTrb(base, cycle)];
      }
    }

    /** Commands and interrupt transfers: the Link is rewritten right after the doorbell. */
    method Submit(t: Trb) returns (index: nat)
      requires Valid() && !IsLink(t)
      modifies this, mem
      ensures Valid() && V() == Advanced(Written(old(V()), t)) && advanced == |submitted|
      ensures index == old(producer) && index < mem.Length - 1 && Carries(mem[index], t, old(cycle))
      ensures submitted != [] && Carries(submitted[|submitted| - 1], t, old(cycle))
    {
      index := Write(t);
      Advance();
    }

    /** A bulk transfer: when no completion is seen in time the producer stays where it is. */
    method Transfer(t: Trb, completed: bool) returns (index: nat)
      requires Valid() && !IsLink(t)
      modifies this, mem
      ensures Valid() && V() == if completed then Advanced(Written(old(V()), t)) else Written(old(V()), t)
      ensures index == old(producer) && (!completed ==> producer == index)
      ensures index < mem.Length - 1 && Carries(mem[index], t, old(cycle))
      ensures submitted != [] && Carries(submitted[|submitted| - 1], t, old(cycle))
    {
      index := Write(t);
      if completed {
        Advance();
      }
    }
  }

  // ---- the controller as consumer ----

  datatype Device = Device(index: nat, ccs: bool)

  datatype Seen = Idle | Follows | Takes(trb: Trb)

  /** What the consumer finds at its dequeue position. */
  function Sees(mem: seq<Trb>, d: Device): Seen {
    if d.index >= |mem| || Bit(mem[d.index]) != d.ccs then Idle
    else if IsLink(mem[d.index]) then Follows
    else Takes(mem[d.index])
  }

  function Moved(mem: seq<Trb>, d: Device): Device {
    match Sees(mem, d)
    case Idle => d
    case Follows => Device(0, if TogglesCycle(mem[d.index]) then !d.ccs else d.ccs)
    case Takes(_) => d.(index := d.index + 1)
  }

  /** The consumer is about to read entry `c`. */
  predicate Reading(d: Device, c: nat, n: nat)
    requires n > 0
  {
    d.index == Slot(c, n) && d.ccs == Phase(c, n)
  }

  /** The consumer has taken the last entry of a lap and not yet followed the Link. */
  predicate AtLink(d: Device, c: nat, n: nat)
    requires n > 0
  {
    c > 0 && Slot(c, n) == 0 && d.index == n && d.ccs == !Phase(c, n)
  }

  /** Never a stale entry, never one out of order. */
  lemma ReaderSees(v: View, d: Device, c: nat)
    requires v.Fine() && Reading(d, c, v.size) && c <= |v.submitted| <= c + v.size
    ensures Sees(v.mem, d) == if c < |v.submitted| then Takes(v.submitted[c]) else Idle
    ensures c < |v.submitted| && Slot(c + 1, v.size) == 0 ==> AtLink(Moved(v.mem, d), c + 1, v.size)
    ensures c < |v.submitted| && Slot(c + 1, v.size) != 0 ==> Reading(Moved(v.mem, d), c + 1, v.size)
  {
    NextSlot(c, v.size);
    if c < |v.submitted| {
      assert v.InPlace(c);
    } else if c < v.size {
      assert v.mem[c] == ZERO_TRB;
    } else {
      assert v.InPlace(c - v.size);
    }
  }

  /** A Link can be followed only before the driver has stepped past the entry before it, or a whole lap later. */
  lemma LinkSeen(v: View, d: Device, c: nat)
    requires v.Fine() && AtLink(d, c, v.size) && c <= |v.submitted| <= c + v.size
    ensures Sees(v.mem, d) == if v.advanced + 1 == c || v.advanced == c + v.size then Follows else Idle
    ensures Sees(v.mem, d).Follows? ==> Reading(Moved(v.mem, d), c, v.size)
  {
    var n := v.size;
    if v.advanced + 1 == c {
      NextSlot(v.advanced, n);
    } else if v.advanced < c + n {
      WithinLap(c, v.advanced - c, n);
    } else {
      assert v.advanced == c + n;
      assert Phase(c + n, n) == !Phase(c, n);
    }
    LinkBits(v.base, Phase(v.advanced, n));
  }

  lemma LinkBits(base: int, cycle: bool)
    ensures IsLink(LinkTrb(base, cycle)) && TogglesCycle(LinkTrb(base, cycle)) && Bit(LinkTrb(base, cycle)) == cycle
  {
  }

  // ---- driver and controller together ----

  /** `taken` is what the controller has executed. */
  datatype Sys = Sys(view: View, dev: Device, taken: seq<Trb>)

  datatype Event = Write(trb: Trb) | Advance | Work

  ghost predicate Next(a: Sys, b: Sys, ev: Event)
    requires a.view.size > 0 && |a.view.mem| == a.view.size + 1
  {
    match ev
    case Write(t) =>
      && a.view.advanced <= |a.view.submitted| && !IsLink(t)
      && b == a.(view := Written(a.view, t))
    case Advance =>
      && a.view.advanced + 1 == |a.view.submitted|
      && b == a.(view := Advanced(a.view))
    case Work =>
      var seen := Sees(a.view.mem, a.dev);
      b == a.(dev := Moved(a.view.mem, a.dev), taken := if seen.Takes? then a.taken + [seen.trb] else a.taken)
  }

  /** At most `limit` entries are in flight after the event. */
  ghost predicate Room(a: Sys, ev: Event, limit: nat) { ev.Write? ==> a.view.advanced < |a.taken| + limit }

  /** The driver writes into a slot it has written already, as a bulk transfer does after a time-out. */
  ghost predicate Again(a: Sys, ev: Event) { ev.Write? && a.view.advanced + 1 == |a.view.submitted| }

  /** The controller stands behind what it has executed, at most `limit` entries behind the driver. */
  ghost predicate Aligned(s: Sys, limit: nat) {
    var v := s.view; var c := |s.taken|;
    && v.Fine() && c <= |v.submitted| <= c + limit && limit <= v.size
    && (Reading(s.dev, c, v.size) || AtLink(s.dev, c, v.size))
  }

  /** What the controller has executed is the beginning of what was submitted. */
  ghost predicate InOrder(s: Sys) { s.taken <= s.view.submitted }

  ghost predicate Lockstep(s: Sys, limit: nat) { Aligned(s, limit) && InOrder(s) }

  lemma NextAligned(a: Sys, b: Sys, ev: Event, limit: nat)
    requires Aligned(a, limit) && Next(a, b, ev) && Room(a, ev, limit)
    ensures Aligned(b, limit) && a.taken <= b.taken && b.view.size == a.view.size
  {
    match ev
    case Write(t) => WrittenFine(a.view, t);
    case Advance => AdvancedFine(a.view);
    case Work =>
      if Reading(a.dev, |a.taken|, a.view.size) {
        ReaderSees(a.view, a.dev, |a.taken|);
      } else {
        LinkSeen(a.view, a.dev, |a.taken|);
      }
  }

  /** The write changes nothing that has been executed. */
  ghost predicate Harmless(a: Sys, ev: Event)
    requires a.view.size > 0
  {
    Again(a, ev) ==> |a.taken| <= a.view.advanced || Current(a.view, ev.trb) == a.view.submitted[a.view.advanced]
  }

  /** Order survives a step exactly if the step replaces nothing that has been executed. */
  lemma NextInOrder(a: Sys, b: Sys, ev: Event, limit: nat)
    requires Lockstep(a, limit) && Next(a, b, ev) && Room(a, ev, limit)
    ensures InOrder(b) <==> Harmless(a, ev)
  {
    match ev
    case Write(t) =>
      var p := a.view.advanced;
      if Again(a, ev) && |a.taken| > p {
        assert a.taken[p] == a.view.submitted[p] && b.view.submitted[p] == Current(a.view, t);
      } else {
        assert a.taken <= a.view.submitted[..p];
      }
    case Advance =>
    case Work =>
      if Reading(a.dev, |a.taken|, a.view.size) {
        ReaderSees(a.view, a.dev, |a.taken|);
      } else {
        LinkSeen(a.view, a.dev, |a.taken|);
      }
  }

  /** A run in which at most `limit` entries are in flight. */
  ghost predicate IsRun(run: seq<Sys>, evs: seq<Event>, limit: nat) {
    && |run| == |evs| + 1 && Aligned(run[0], limit)
    && (forall i :: 0 <= i < |run| ==> run[i].view.size > 0 && |run[i].view.mem| == run[i].view.size + 1)
    && forall i :: 0 <= i < |evs| ==> Next(run[i], run[i + 1], evs[i]) && Room(run[i], evs[i], limit)
  }

  /** However slowly the controller works, and whatever times out, it never loses its place. */
  lemma {:induction false} AlwaysAligned(run: seq<Sys>, evs: seq<Event>, limit: nat, i: nat)
    requires IsRun(run, evs, limit) && i < |run|
    ensures Aligned(run[i], limit) && run[i].view.size == run[0].view.size && run[0].taken <= run[i].taken
  {
    if i > 0 {
      AlwaysAligned(run, evs, limit, i - 1);
      NextAligned(run[i - 1], run[i], evs[i - 1], limit);
    }
  }

  /**
   However slowly the controller works, over any number of laps it executes what was submitted, in
   order, as long as nothing that it has executed is replaced: without a time-out nothing is.
  */
  lemma {:induction false} AlwaysInOrder(run: seq<Sys>, evs: seq<Event>, limit: nat, i: nat)
    requires IsRun(run, evs, limit) && i < |run| && InOrder(run[0])
    requires forall j :: 0 <= j < i ==> Harmless(run[j], evs[j])
    ensures Lockstep(run[i], limit)
  {
    if i > 0 {
      AlwaysInOrder(run, evs, limit, i - 1);
      NextAligned(run[i - 1], run[i], evs[i - 1], limit);
      NextInOrder(run[i - 1], run[i], evs[i - 1], limit);
    }
  }

  // ---- a transfer that timed out, and the one written over it ----

  /** Position `p` is not written again by the first `i` events. */
  ghost predicate LeftAlone(run: seq<Sys>, evs: seq<Event>, p: nat, i: nat)
    requires |run| == |evs| + 1 && i <= |evs|
  {
    forall k :: 0 <= k < i && evs[k].Write? ==> run[k].view.advanced != p
  }

  /** What was written at a position stays submitted there, and is what the controller executes there, if it has not yet. */
  lemma {:induction false} StaysSubmitted(run: seq<Sys>, evs: seq<Event>, limit: nat, p: nat, i: nat)
    requires IsRun(run, evs, limit) && i < |run| && LeftAlone(run, evs, p, i)
    requires run[0].view.advanced <= p < |run[0].view.submitted| && |run[0].taken| <= p
    ensures p < |run[i].view.submitted|
    ensures run[i].view.submitted[p] == run[0].view.submitted[p]
    ensures |run[i].taken| > p ==> run[i].taken[p] == run[0].view.submitted[p]
  {
    if i > 0 {
      StaysSubmitted(run, evs, limit, p, i - 1);
      AlwaysAligned(run, evs, limit, i - 1);
      var a := run[i - 1];
      if Reading(a.dev, |a.taken|, a.view.size) {
        ReaderSees(a.view, a.dev, |a.taken|);
      } else {
        LinkSeen(a.view, a.dev, |a.taken|);
      }
    }
  }

  /**
   The fate of a TRB written over another after a time-out: it is the one that is executed at its
   position if and only if the one it replaced had not been executed; that one is lost otherwise.
  */
  lemma RewriteFate(run: seq<Sys>, evs: seq<Event>, limit: nat, i: nat)
    requires IsRun(run, evs, limit) && evs != [] && Again(run[0], evs[0]) && 0 < i < |run|
    requires LeftAlone(run[1..], evs[1..], run[0].view.advanced, i - 1)
    requires |run[i].taken| > run[0].view.advanced
    ensures var p, new_ := run[0].view.advanced, Current(run[0].view, evs[0].trb);
      && (|run[0].taken| <= p ==> run[i].taken[p] == new_)
      && (|run[0].taken| > p ==> run[i].taken[p] == run[0].taken[p])
  {
    var p := run[0].view.advanced;
    AlwaysAligned(run, evs, limit, i);
    AlwaysAligned(run, evs, limit, 1);
    assert IsRun(run[1..], evs[1..], limit);
    if |run[0].taken| <= p {
      StaysSubmitted(run[1..], evs[1..], limit, p, i - 1);
    }
  }

  /** Right after it the controller sees the new TRB, if it stood before that position, and otherwise no TRB at all. */
  lemma RewriteSeen(a: Sys, b: Sys, ev: Event, limit: nat)
    requires Aligned(a, limit) && Next(a, b, ev) && Again(a, ev) && Room(a, ev, limit)
    ensures Reading(a.dev, a.view.advanced, a.view.size) && |a.taken| == a.view.advanced ==>
      Sees(b.view.mem, b.dev) == Takes(Current(a.view, ev.trb))
    ensures |a.taken| > a.view.advanced ==> !Sees(b.view.mem, b.dev).Takes?
  {
    NextAligned(a, b, ev, limit);
    if Reading(b.dev, |b.taken|, b.view.size) {
      ReaderSees(b.view, b.dev, |b.taken|);
    } else {
      LinkSeen(b.view, b.dev, |b.taken|);
    }
  }

  // ---- how many are in flight ----

  /** A write with the whole ring in flight is the one that the controller does not survive: it loses its place. */
  lemma RoomExact(a: Sys, b: Sys, ev: Event)
    requires Aligned(a, a.view.size) && Next(a, b, ev)
    ensures Aligned(b, b.view.size) <==> Room(a, ev, a.view.size)
  {
    if Room(a, ev, a.view.size) {
      NextAligned(a, b, ev, a.view.size);
    }
  }

  /** Then the oldest entry in flight is gone from memory, and the controller sees nothing where it stands. */
  lemma Overrun(a: Sys, b: Sys, ev: Event)
    requires Aligned(a, a.view.size) && Next(a, b, ev) && !Room(a, ev, a.view.size)
    ensures |a.view.submitted| == |a.taken| + a.view.size
    ensures Reading(a.dev, |a.taken|, a.view.size) ==> Sees(a.view.mem, a.dev).Takes? && Sees(b.view.mem, b.dev) == Idle
  {
    var c, n := |a.taken|, a.view.size;
    if Reading(a.dev, c, n) {
      ReaderSees(a.view, a.dev, c);
      assert a.view.advanced == c + n && b.dev == a.dev;
      assert Slot(c + n, n) == Slot(c, n) && Phase(c + n, n) == !Phase(c, n);
      StampKeepsType(ev.trb, Phase(c + n, n));
      assert b.view.mem[b.dev.index] == Current(a.view, ev.trb);
    }
  }

  /** Writes while a command is in flight, which happen only after that command timed out. */
  ghost function Unawaited(run: seq<Sys>, evs: seq<Event>, i: nat): nat
    requires |run| == |evs| + 1 && i <= |evs|
  {
    if i == 0 then 0
    else Unawaited(run, evs, i - 1) + if evs[i - 1].Write? && |run[i - 1].taken| < |run[i - 1].view.submitted| then 1 else 0
  }

  /** A command ring has one entry in flight, and one more for every command that timed out. */
  lemma {:induction false} InFlight(run: seq<Sys>, evs: seq<Event>, limit: nat, i: nat)
    requires IsRun(run, evs, limit) && i < |run| && |run[0].view.submitted| == |run[0].taken|
    ensures |run[i].view.submitted| <= |run[i].taken| + 1 + Unawaited(run, evs, i)
    ensures Unawaited(run, evs, i) == 0 ==> |run[i].view.submitted| <= |run[i].taken| + 1
  {
    if i > 0 {
      InFlight(run, evs, limit, i - 1);
      AlwaysAligned(run, evs, limit, i - 1);
      NextAligned(run[i - 1], run[i], evs[i - 1], limit);
    }
  }

  // ---- whether the controller gets on ----

  /** The driver wraps only after the controller has gone through the old Link. */
  ghost predicate Prompt(a: Sys, ev: Event)
    requires a.view.size > 0
  {
    ev == Advance && Slot(a.view.advanced + 1, a.view.size) == 0 ==>
      |a.taken| == |a.view.submitted| && Reading(a.dev, |a.taken|, a.view.size)
  }

  /** The controller is in the driver's lap, and at a Link only while that can still be followed. */
  ghost predicate SameLap(s: Sys)
    requires s.view.size > 0
  {
    && (forall w: nat :: w <= s.view.advanced && Slot(w, s.view.size) == 0 ==> w <= |s.taken|)
    && (AtLink(s.dev, |s.taken|, s.view.size) ==> s.view.advanced + 1 == |s.taken|)
  }

  lemma NextSameLap(a: Sys, b: Sys, ev: Event, limit: nat)
    requires Aligned(a, limit) && Next(a, b, ev) && Room(a, ev, limit) && SameLap(a) && Prompt(a, ev)
    ensures SameLap(b)
  {
    var c := |a.taken|;
    var n := a.view.size;
    match ev
    case Write(t) =>
    case Advance =>
      if AtLink(a.dev, c, n) {
        assert a.view.advanced + 1 == c;
      }
    case Work =>
      if Reading(a.dev, c, n) {
        ReaderSees(a.view, a.dev, c);
        if AtLink(b.dev, |b.taken|, n) {
          assert |b.taken| == c + 1 && Slot(c + 1, n) == 0;
          assert a.view.advanced == c;
        }
      } else {
        LinkSeen(a.view, a.dev, c);
      }
  }

  /** With a prompt controller every outstanding entry is executed next, without exception, for any number of laps. */
  lemma {:induction false} PromptNeverBlocks(run: seq<Sys>, evs: seq<Event>, limit: nat, i: nat)
    requires IsRun(run, evs, limit) && i < |run| && SameLap(run[0])
    requires forall j :: 0 <= j < |evs| ==> Prompt(run[j], evs[j])
    ensures SameLap(run[i])
    ensures var v := run[i].view; var c := |run[i].taken|;
      c < |v.submitted| ==> Sees(v.mem, run[i].dev) == Takes(v.submitted[c])
  {
    AlwaysAligned(run, evs, limit, i);
    if i > 0 {
      PromptNeverBlocks(run, evs, limit, i - 1);
      AlwaysAligned(run, evs, limit, i - 1);
      NextSameLap(run[i - 1], run[i], evs[i - 1], limit);
    }
    var s := run[i];
    if Reading(s.dev, |s.taken|, s.view.size) {
      ReaderSees(s.view, s.dev, |s.taken|);
    }
  }

  /** The driver wrapped to entry `w` while the controller had not gone through the Link before it. */
  ghost predicate Missed(s: Sys, w: nat)
    requires s.view.size > 0
  {
    && Slot(w, s.view.size) == 0 && w > 0 && w <= s.view.advanced
    && (|s.taken| < w || (|s.taken| == w && AtLink(s.dev, w, s.view.size)))
  }

  /** Then it stays before that Link for as long as the driver is within the lap. */
  lemma {:induction false} MissedLink(run: seq<Sys>, evs: seq<Event>, limit: nat, w: nat, i: nat)
    requires IsRun(run, evs, limit) && i < |run| && Missed(run[0], w)
    requires forall j :: 0 <= j <= i ==> run[j].view.advanced < w + run[0].view.size
    ensures Missed(run[i], w) && run[i].view.size == run[0].view.size
    ensures |run[i].taken| <= w
  {
    if i > 0 {
      MissedLink(run, evs, limit, w, i - 1);
      AlwaysAligned(run, evs, limit, i - 1);
      MissedOnce(run[i - 1], run[i], evs[i - 1], limit, w);
    }
  }

  lemma MissedOnce(a: Sys, b: Sys, ev: Event, limit: nat, w: nat)
    requires Aligned(a, limit) && Next(a, b, ev) && Room(a, ev, limit) && Missed(a, w) && a.view.advanced < w + a.view.size
    ensures Missed(b, w)
  {
    if ev.Work? {
      var c := |a.taken|;
      if Reading(a.dev, c, a.view.size) {
        ReaderSees(a.view, a.dev, c);
      } else {
        LinkSeen(a.view, a.dev, c);
        assert c == w ==> Sees(a.view.mem, a.dev) == Idle;
      }
    }
  }

  /**
     With one entry in flight at a time, as the interrupt ring is used, a missed Link is final: the
     entry after it is submitted and never executed, whatever happens later.
   */
  lemma {:induction false} MissedForEver(run: seq<Sys>, evs: seq<Event>, w: nat, i: nat)
    requires IsRun(run, evs, 1) && i < |run| && Missed(run[0], w) && run[0].view.size > 1
    ensures Missed(run[i], w) && run[i].view.size == run[0].view.size && |run[i].taken| <= w
    ensures run[i].view.advanced <= w + 1
  {
    AlwaysAligned(run, evs, 1, i);
    if i > 0 {
      MissedForEver(run, evs, w, i - 1);
      AlwaysAligned(run, evs, 1, i - 1);
      MissedOnce(run[i - 1], run[i], evs[i - 1], 1, w);
    }
  }

  /** A wrap either finds the controller past the old Link, or leaves it before that Link: there is nothing between. */
  lemma PromptOrMissed(a: Sys, b: Sys, limit: nat)
    requires Aligned(a, limit) && Next(a, b, Advance) && a.view.size > 1
    requires Slot(a.view.advanced + 1, a.view.size) == 0
    ensures Prompt(a, Advance) <==> !Missed(b, b.view.advanced)
  {
  }

  /**
     The exact condition, with one entry in flight at a time: after the wrap at event `j` the entry of
     the new lap is ever executed only if the controller had followed the Link before; if it had, and
     does so at every wrap, `PromptNeverBlocks` says that it is executed next.
   */
  lemma GoesOnOnlyIfPrompt(run: seq<Sys>, evs: seq<Event>, j: nat, i: nat)
    requires IsRun(run, evs, 1) && j < |evs| && j < i < |run| && run[j].view.size > 1
    requires evs[j] == Advance && Slot(run[j].view.advanced + 1, run[j].view.size) == 0
    requires |run[i].taken| > run[j + 1].view.advanced
    ensures Prompt(run[j], evs[j])
  {
    AlwaysAligned(run, evs, 1, j);
    AlwaysAligned(run, evs, 1, j + 1);
    PromptOrMissed(run[j], run[j + 1], 1);
    if !Prompt(run[j], evs[j]) {
      SizeStays(run[j], run[j + 1], evs[j]);
      MissedForEver(run[j + 1..], evs[j + 1..], run[j + 1].view.advanced, i - j - 1);
    }
  }

  lemma SizeStays(a: Sys, b: Sys, ev: Event)
    requires a.view.size > 0 && |a.view.mem| == a.view.size + 1 && Next(a, b, ev)
    ensures b.view.size == a.view.size
  {
  }

  /** After a wrap at event `j` the controller, with one entry in flight, goes on exactly if it was prompt there. */
  lemma GoesOnIffPrompt(run: seq<Sys>, evs: seq<Event>, j: nat)
    requires IsRun(run, evs, 1) && j + 2 < |evs| && run[j].view.size > 1
    requires evs[j] == Advance && Slot(run[j].view.advanced + 1, run[j].view.size) == 0
    requires evs[j + 1].Write? && evs[j + 2] == Work
    ensures |run[j + 3].taken| > run[j + 1].view.advanced <==> Prompt(run[j], evs[j])
  {
    if |run[j + 3].taken| > run[j + 1].view.advanced {
      GoesOnOnlyIfPrompt(run, evs, j, j + 3);
    }
    if Prompt(run[j], evs[j]) {
      AlwaysAligned(run, evs, 1, j);
      var tail, steps := run[j..], evs[j..];
      assert forall k :: 0 <= k < 2 && k < |steps| ==> Prompt(tail[k], steps[k]);
      PromptNeverBlocks(tail[..3], steps[..2], 1, 2);
    }
  }

  /** A new ring with a controller that starts at its first slot, expecting ones, is in lockstep and in the same lap. */
  lemma StartsInLockstep(size: nat, base: int, limit: nat)
    requires 0 < limit <= size
    ensures var start := Sys(View(seq(size, _ => ZERO_TRB) + [LinkTrb(base, true)], [], 0, size, base), Device(0, true), []);
      Lockstep(start, limit) && SameLap(start)
  {
    var v := View(seq(size, _ => ZERO_TRB) + [LinkTrb(base, true)], [], 0, size, base);
    assert v.Fine();
  }

  /** A concrete stall: two slots, both executed one by one, the second before its Link was rewritten. */
  lemma StallExample()
    ensures exists a: Sys :: Lockstep(a, 1) && Missed(a, 2) && a.view.size == 2 && |a.taken| == 2
  {
    var t := Trb(0, 0, 1024);
    var v0 := View([ZERO_TRB, ZERO_TRB, LinkTrb(0, true)], [], 0, 2, 0);
    assert v0.Fine();
    WrittenFine(v0, t);
    AdvancedFine(Written(v0, t));
    var v1 := Advanced(Written(v0, t));
    WrittenFine(v1, t);
    AdvancedFine(Written(v1, t));
    var v2 := Advanced(Written(v1, t));
    NextSlot(0, 2);
    NextSlot(1, 2);
    var a := Sys(v2, Device(2, true), v2.submitted);
    assert v2.submitted[..2] == v2.submitted;
    assert AtLink(a.dev, 2, 2);
    assert Lockstep(a, 1) && Missed(a, 2);
  }
}
