/**
 Event rings: the in-memory `EventRing` of kernel/src/xhci/ring.rs, and the driver's consumer of
 the ring the controller writes (kernel/src/xhci/controller.rs).
*/
module EventRings {
  import opened Prelude
  import opened Laps
  import opened Trbs

  datatype RingError = Full | Empty

  // ---- the ring as the list of everything published, with a mark at what was popped ----

  datatype Events = Events(published: seq<Trb>, popped: nat, size: nat)
  {
    predicate Fine() { size > 0 && popped <= |published| <= popped + size }

    /** The consumer recognises entry `k` as belonging to its lap. */
    predicate Recognised(k: nat)
      requires Fine() && k < |published|
    {
      Bit(published[k]) == Phase(k, size)
    }

    ghost predicate Clean()
      requires Fine()
    {
      forall k: nat :: popped <= k < |published| ==> Recognised(k)
    }

    function Queue(): seq<Trb>
      requires Fine()
    {
      published[popped..]
    }
  }

  function Published(e: Events, t: Trb): Events
    requires e.Fine()
  {
    if |e.published| == e.popped + e.size then e
    else e.(published := e.published + [Stamped(t, Phase(|e.published|, e.size))])
  }

  predicate Pops(e: Events)
    requires e.Fine()
  {
    e.popped < |e.published| && e.Recognised(e.popped)
  }

  function Popped(e: Events): Events
    requires e.Fine()
  {
    if Pops(e) then e.(popped := e.popped + 1) else e
  }

  /** Every entry in the queue is in its slot. */
  ghost predicate QueueHolds(mem: seq<Trb>, e: Events) {
    && e.Fine() && |mem| == e.size
    && forall k: nat :: e.popped <= k < |e.published| ==> mem[Slot(k, e.size)] == e.published[k]
  }

  lemma QueueWritten(mem: seq<Trb>, e: Events, t: Trb)
    requires QueueHolds(mem, e) && |e.Queue()| < e.size
    ensures QueueHolds(mem[Slot(|e.published|, e.size) := Stamped(t, Phase(|e.published|, e.size))], Published(e, t))
  {
    var k := |e.published|;
    forall j: nat | e.popped <= j < k
      ensures Slot(j, e.size) != Slot(k, e.size)
    {
      SlotsDiffer(j, k, e.size);
    }
  }

  lemma QueueTaken(mem: seq<Trb>, e: Events)
    requires QueueHolds(mem, e) && Pops(e)
    ensures QueueHolds(mem[Slot(e.popped, e.size) := ZERO_TRB], Popped(e))
  {
    forall j: nat | e.popped < j < |e.published|
      ensures Slot(j, e.size) != Slot(e.popped, e.size)
    {
      SlotsDiffer(e.popped, j, e.size);
    }
  }

  class EventRing {
    const entries: array<Trb>
    var consumer: nat
    var consumerCycle: bool
    var producer: nat
    var producerCycle: bool
    var used: nat
    ghost var events: Events

    ghost predicate Valid()
      reads this, entries
    {
      var n := entries.Length;
      var e := events;
      && e.size == n && e.Fine() && used == |e.published| - e.popped
      && consumer == Slot(e.popped, n) && consumerCycle == Phase(e.popped, n)
      && producer == Slot(|e.published|, n) && producerCycle == Phase(|e.published|, n)
      && QueueHolds(entries[..], e)
    }

    constructor (size: nat)
      requires size > 0
      ensures Valid() && fresh(entries) && events == Events([], 0, size)
    {
      entries := new Trb[size](_ => ZERO_TRB);
      consumer := 0;
      consumerCycle := true;
      producer := 0;
      producerCycle := true;
      used := 0;
      events := Events([], 0, size);
    }

    method Publish(t: Trb) returns (r: Result<(), RingError>)
      requires Valid()
      modifies this, entries
      ensures Valid() && events == Published(old(events), t)
      ensures r == if |old(events).Queue()| == entries.Length then Err(Full) else Ok(())
      ensures r.Err? ==> forall i :: 0 <= i < entries.Length ==> entries[i] == old(entries[i])
      ensures old(producer) < entries.Length
      ensures r.Ok? ==> Carries(entries[old(producer)], t, old(producerCycle) || t.control % 2 == 1)
      ensures r.Ok? ==> forall i :: 0 <= i < entries.Length && i != old(producer) ==> entries[i] == old(entries[i])
    {
      if used == entries.Length {
        return Err(Full);
      }
      ghost var k := |events.published|;
      NextSlot(k, entries.Length);
      ghost var before := entries[..];
      QueueWritten(before, events, t);
      entries[producer] := Stamped(t, producerCycle);
      assert entries[..] == before[producer := Stamped(t, producerCycle)];
      events := Published(events, t);
      WrapIsModulo(producer, entries.Length);
      producer := (producer + 1) % entries.Length;
      if producer == 0 {
        producerCycle := !producerCycle;
      }
      used := used + 1;
      return Ok(());
    }

    /** The oldest entry, unless the ring is empty or that entry does not carry the cycle bit of its lap. */
    method Pop() returns (r: Result<Trb, RingError>)
      requires Valid()
      modifies this, entries
      ensures Valid() && events == Popped(old(events))
      ensures r == if Pops(old(events)) then Ok(old(events).Queue()[0]) else Err(Empty)
      ensures old(consumer) < entries.Length
      ensures r.Ok? <==> old(used) > 0 && (old(entries[consumer]).control % 2 == 1) == old(consumerCycle)
      ensures r.Ok? ==> r.value == old(entries[consumer]) && entries[old(consumer)] == Trb(0, 0, 0)
      ensures forall i :: 0 <= i < entries.Length && (r.Ok? ==> i != old(consumer)) ==> entries[i] == old(entries[i])
    {
      if used == 0 {
        return Err(Empty);
      }
      var t := entries[consumer];
      if Bit(t) != consumerCycle {
        return Err(Empty);
      }
      ghost var k := events.popped;
      NextSlot(k, entries.Length);
      ghost var before := entries[..];
      QueueTaken(before, events);
      entries[consumer] := ZERO_TRB;
      assert entries[..] == before[consumer := ZERO_TRB];
      events := Popped(events);
      consumer := consumer + 1;
      if consumer == entries.Length {
        consumer := 0;
        consumerCycle := !consumerCycle;
      }
      used := used - 1;
      return Ok(t);
    }
  }

  // ---- refinement of a bounded queue ----

  datatype Op = Publish(trb: Trb) | Pop

  datatype Answer = Accepted | Refused | Taken(trb: Trb) | Nothing

  /** What the ring answers, with the cycle bit masked out. */
  function RingAnswers(e: Events, ops: seq<Op>): seq<Answer>
    requires e.Fine()
    decreases |ops|
  {
    if ops == [] then []
    else
      match ops[0]
      case Publish(t) =>
        [if |e.Queue()| == e.size then Refused else Accepted] + RingAnswers(Published(e, t), ops[1..])
      case Pop =>
        [if Pops(e) then Taken(Masked(e.Queue()[0])) else Nothing] + RingAnswers(Popped(e), ops[1..])
  }

  /** What a plain queue of at most `size` entries answers. */
  function QueueAnswers(q: seq<Trb>, size: nat, ops: seq<Op>): seq<Answer>
    decreases |ops|
  {
    if ops == [] then []
    else
      match ops[0]
      case Publish(t) =>
        if |q| >= size then [Refused] + QueueAnswers(q, size, ops[1..])
        else [Accepted] + QueueAnswers(q + [Masked(t)], size, ops[1..])
      case Pop =>
        if q == [] then [Nothing] + QueueAnswers(q, size, ops[1..])
        else [Taken(q[0])] + QueueAnswers(q[1..], size, ops[1..])
  }

  function MaskedAll(q: seq<Trb>): seq<Trb> { seq(|q|, i requires 0 <= i < |q| => Masked(q[i])) }

  /** An entry is recognised if and only if bit 0 was clear when it was published or its lap writes ones. */
  lemma RecognisedIff(e: Events, t: Trb)
    requires e.Fine() && |e.Queue()| < e.size
    ensures Published(e, t).Recognised(|e.published|) <==> !Bit(t) || Phase(|e.published|, e.size)
    ensures Masked(Published(e, t).published[|e.published|]) == Masked(t)
  {
  }

  /** On entries published with bit 0 clear the ring is a bounded queue, for any number of laps. */
  lemma {:induction false} RefinesQueue(e: Events, ops: seq<Op>)
    requires e.Fine() && e.Clean()
    requires forall i :: 0 <= i < |ops| && ops[i].Publish? ==> !Bit(ops[i].trb)
    ensures RingAnswers(e, ops) == QueueAnswers(MaskedAll(e.Queue()), e.size, ops)
    decreases |ops|
  {
    if ops != [] {
      match ops[0]
      case Publish(t) =>
        var e' := Published(e, t);
        forall k: nat | e'.popped <= k < |e'.published|
          ensures e'.Recognised(k)
        {
          assert k < |e.published| ==> e.Recognised(k);
        }
        assert |e.Queue()| < e.size ==> MaskedAll(e'.Queue()) == MaskedAll(e.Queue()) + [Masked(t)];
        RefinesQueue(e', ops[1..]);
      case Pop =>
        var e' := Popped(e);
        forall k: nat | e'.popped <= k < |e'.published|
          ensures e'.Recognised(k)
        {
          assert e.Recognised(k);
        }
        assert e.Queue() == [] <==> MaskedAll(e.Queue()) == [];
        assert e.Queue() != [] ==> e.Recognised(e.popped) && MaskedAll(e'.Queue()) == MaskedAll(e.Queue())[1..];
        RefinesQueue(e', ops[1..]);
    }
  }

  /** An entry the consumer does not recognise blocks the ring for good: every later pop finds nothing. */
  lemma {:induction false} BlockedForEver(e: Events, ops: seq<Op>, i: nat)
    requires e.Fine() && e.Queue() != [] && !e.Recognised(e.popped) && i < |ops| && ops[i].Pop?
    ensures |RingAnswers(e, ops)| == |ops| && RingAnswers(e, ops)[i] == Nothing
    decreases |ops|
  {
    AnswerCount(e, ops);
    var e' := if ops[0].Pop? then Popped(e) else Published(e, ops[0].trb);
    if i > 0 {
      assert e'.published[e.popped] == e.published[e.popped];
      BlockedForEver(e', ops[1..], i - 1);
    }
  }

  lemma {:induction false} AnswerCount(e: Events, ops: seq<Op>)
    requires e.Fine()
    ensures |RingAnswers(e, ops)| == |ops|
    decreases |ops|
  {
    if ops != [] {
      AnswerCount(if ops[0].Pop? then Popped(e) else Published(e, ops[0].trb), ops[1..]);
    }
  }

  function Drain(k: nat): seq<Op> { seq(k, _ => Pop) }

  /** Popping as often as there are entries gives them back like a queue if and only if all are recognised. */
  lemma {:induction false} DrainsIffClean(e: Events)
    requires e.Fine()
    ensures RingAnswers(e, Drain(|e.Queue()|)) == QueueAnswers(MaskedAll(e.Queue()), e.size, Drain(|e.Queue()|)) <==> e.Clean()
    decreases |e.Queue()|
  {
    var m := |e.Queue()|;
    var ops := Drain(m);
    if e.Clean() {
      RefinesQueue(e, ops);
    } else if e.Recognised(e.popped) {
      var e' := Popped(e);
      assert ops[1..] == Drain(m - 1);
      assert MaskedAll(e.Queue())[1..] == MaskedAll(e'.Queue());
      DrainsIffClean(e');
      assert RingAnswers(e, ops) == [Taken(Masked(e.Queue()[0]))] + RingAnswers(e', ops[1..]);
      assert RingAnswers(e, ops)[1..] == RingAnswers(e', ops[1..]);
      assert QueueAnswers(MaskedAll(e.Queue()), e.size, ops)[1..] == QueueAnswers(MaskedAll(e'.Queue()), e.size, ops[1..]);
      var k: nat :| e.popped <= k < |e.published| && !e.Recognised(k);
      assert !e'.Recognised(k);
    } else {
      assert RingAnswers(e, ops)[0] == Nothing;
      assert QueueAnswers(MaskedAll(e.Queue()), e.size, ops)[0].Taken?;
    }
  }

  // ---- the driver's side of the ring in memory ----

  const EVENT_RING_ENTRIES := 32

  /** Entries not yet overwritten are in their slots, stamped for their lap; slots never written are zero. */
  ghost predicate RingHolds(mem: seq<Trb>, produced: seq<Trb>) {
    && |mem| == EVENT_RING_ENTRIES
    && (forall k: nat :: k < |produced| ==> EntryHolds(mem, produced, k))
    && (forall s: nat :: |produced| <= s < EVENT_RING_ENTRIES ==> mem[s] == ZERO_TRB)
  }

  ghost predicate EntryHolds(mem: seq<Trb>, produced: seq<Trb>, k: nat)
    requires |mem| == EVENT_RING_ENTRIES && k < |produced|
  {
    && Bit(produced[k]) == Phase(k, EVENT_RING_ENTRIES)
    && (|produced| <= k + EVENT_RING_ENTRIES ==> mem[Slot(k, EVENT_RING_ENTRIES)] == produced[k])
  }

  lemma RingWritten(mem: seq<Trb>, produced: seq<Trb>, t: Trb)
    requires RingHolds(mem, produced) && Bit(t) == Phase(|produced|, EVENT_RING_ENTRIES)
    ensures RingHolds(mem[Slot(|produced|, EVENT_RING_ENTRIES) := t], produced + [t])
  {
    var k := |produced|;
    var mem', produced' := mem[Slot(k, EVENT_RING_ENTRIES) := t], produced + [t];
    forall j: nat | j <= k
      ensures EntryHolds(mem', produced', j)
    {
      if j < k {
        assert EntryHolds(mem, produced, j);
        if k < j + EVENT_RING_ENTRIES {
          SlotsDiffer(j, k, EVENT_RING_ENTRIES);
        }
      }
    }
    forall s: nat | k + 1 <= s < EVENT_RING_ENTRIES
      ensures mem'[s] == ZERO_TRB
    {
      assert Slot(k, EVENT_RING_ENTRIES) == k;
    }
  }

  lemma NotStale(mem: seq<Trb>, produced: seq<Trb>, c: nat)
    requires RingHolds(mem, produced) && c <= |produced| <= c + EVENT_RING_ENTRIES
    ensures Bit(mem[Slot(c, EVENT_RING_ENTRIES)]) == Phase(c, EVENT_RING_ENTRIES) <==> c < |produced|
    ensures c < |produced| ==> mem[Slot(c, EVENT_RING_ENTRIES)] == produced[c]
  {
    var n := EVENT_RING_ENTRIES;
    if c < |produced| {
      assert EntryHolds(mem, produced, c);
    } else if c < n {
      assert Slot(c, n) == c && Phase(c, n);
    } else {
      assert EntryHolds(mem, produced, c - n);
      assert Slot(c, n) == Slot(c - n, n) && Phase(c, n) == !Phase(c - n, n);
    }
  }

  /** The memory the controller writes into, the driver's position, and everything produced so far. */
  class EventConsumer {
    const ring: array<Trb>
    var consumer: nat
    var cycle: bool
    var count: nat
    var enqueue: nat
    var producerCycle: bool
    ghost var produced: seq<Trb>

    /** Entries not yet overwritten are in place; slots never written are still zero. */
    ghost predicate Valid()
      reads this, ring
    {
      var n := EVENT_RING_ENTRIES;
      && ring.Length == n && count <= |produced| <= count + n
      && consumer == Slot(count, n) && cycle == Phase(count, n)
      && enqueue == Slot(|produced|, n) && producerCycle == Phase(|produced|, n)
      && RingHolds(ring[..], produced)
    }

    constructor ()
      ensures Valid() && fresh(ring) && count == 0 && produced == []
    {
      ring := new Trb[EVENT_RING_ENTRIES](_ => ZERO_TRB);
      consumer := 0;
      cycle := true;
      count := 0;
      enqueue := 0;
      producerCycle := true;
      produced := [];
    }

    /** The controller writes its next event, stamped with the cycle bit of its lap; it never runs a lap ahead. */
    method DeviceProduces(t: Trb)
      requires Valid() && !Bit(t) && |produced| < count + EVENT_RING_ENTRIES
      modifies ring, this`produced, this`enqueue, this`producerCycle
      ensures Valid() && count == old(count)
      ensures produced == old(produced) + [Stamped(t, Phase(|old(produced)|, EVENT_RING_ENTRIES))]
      ensures Carries(produced[|old(produced)|], t, old(producerCycle))
    {
      ghost var k := |produced|;
      NextSlot(k, EVENT_RING_ENTRIES);
      var stamped := Stamped(t, producerCycle);
      RingWritten(ring[..], produced, stamped);
      ghost var before := ring[..];
      ring[enqueue] := stamped;
      assert ring[..] == before[enqueue := stamped];
      produced := produced + [stamped];
      enqueue := enqueue + 1;
      if enqueue == EVENT_RING_ENTRIES {
        enqueue := 0;
        producerCycle := !producerCycle;
      }
    }

    /** The slot the driver looks at is new if and only if there is an event it has not taken. */
    lemma NeverStale()
      requires Valid()
      ensures Bit(ring[consumer]) == cycle <==> count < |produced|
      ensures count < |produced| ==> ring[consumer] == produced[count]
    {
      NotStale(ring[..], produced, count);
    }

    /** One turn of the polling loops: takes the oldest event not yet taken, or nothing if there is none. */
    method PollEvent() returns (event: Option<Trb>)
      requires Valid()
      modifies this`consumer, this`cycle, this`count
      ensures Valid() && produced == old(produced)
      ensures event == if old(count) < |produced| then Some(produced[old(count)]) else None
      ensures count == old(count) + if event.Some? then 1 else 0
    {
      NeverStale();
      var trb := ring[consumer];
      if Bit(trb) != cycle {
        return None;
      }
      AcknowledgeEvent();
      return Some(trb);
    }

    method AcknowledgeEvent()
      requires Valid() && count < |produced|
      modifies this`consumer, this`cycle, this`count
      ensures Valid() && produced == old(produced) && count == old(count) + 1
    {
      NextSlot(count, EVENT_RING_ENTRIES);
      consumer := (consumer + 1) % EVENT_RING_ENTRIES;
      if consumer == 0 {
        cycle := !cycle;
      }
      count := count + 1;
    }
  }
}
