/**
 The objects of kernel/src/task/ipc/mod.rs: channels with two counted sides, listeners with
 pending connections, one handle table per task, and the registry of names.  A shared object
 (`Arc`) is a number into a list that only grows.
*/
module IpcStates {
  import opened Prelude

  const MAX_HANDLES := 64
  const MAX_MSG_SIZE := 4096
  const QUEUE_DEPTH := 4096

  type Message = seq<u8>

  datatype Handle =
    | ChannelEnd(channel: nat, side: nat)
    | ListenerEnd(listener: nat)

  datatype Endpoint = Endpoint(queue: seq<Message>, closed: bool)

  datatype Channel = Channel(refs: seq<nat>, endpoints: seq<Endpoint>)

  datatype Listener = Listener(refs: nat, pending: seq<Handle>)

  type HandleTable = t: seq<Option<Handle>> | |t| == MAX_HANDLES witness seq(MAX_HANDLES, _ => None)

  /** Everything ever put into and taken from the two queues of a channel. */
  datatype History = History(sent: seq<seq<Message>>, received: seq<seq<Message>>)

  datatype State = State(
    tables: seq<Option<HandleTable>>,
    channels: seq<Channel>,
    listeners: seq<Listener>,
    named: seq<(string, nat)>,
    history: seq<History>)
  {
    predicate Live(p: nat) { p < |tables| && tables[p].Some? }

    predicate Known(h: Handle) {
      match h
      case ChannelEnd(c, side) => c < |channels| && side < 2 && |channels[c].refs| == 2
      case ListenerEnd(l) => l < |listeners|
    }

    /** The count the object keeps for this handle. */
    function Refs(h: Handle): nat
      requires Known(h)
    {
      match h
      case ChannelEnd(c, side) => channels[c].refs[side]
      case ListenerEnd(l) => listeners[l].refs
    }

    /** How many table slots and pending connections really hold this handle. */
    ghost function Held(h: Handle): nat { InTables(tables, h) + InPending(listeners, h) }

    /** The counts are exact, with the handles in `extra` held by running kernel code. */
    ghost predicate CountsExact(extra: multiset<Handle>) {
      forall h: Handle :: (Held(h) + extra[h] > 0 ==> Known(h)) && (Known(h) ==> Refs(h) == Held(h) + extra[h])
    }

    ghost predicate ChannelFine(c: nat)
      requires c < |channels|
    {
      && |channels[c].refs| == 2 && |channels[c].endpoints| == 2
      && forall side :: 0 <= side < 2 ==> SideFine(c, side)
    }

    /** A side is closed exactly when nobody holds it; then its queue is empty. */
    ghost predicate SideFine(c: nat, side: nat)
      requires c < |channels| && side < 2 && |channels[c].refs| == 2 && |channels[c].endpoints| == 2
    {
      var e := channels[c].endpoints[side];
      && (e.closed <==> channels[c].refs[side] == 0)
      && (e.closed ==> e.queue == [])
      && |e.queue| <= QUEUE_DEPTH
      && (forall i :: 0 <= i < |e.queue| ==> |e.queue[i]| <= MAX_MSG_SIZE)
      && HistoryFine(c, side)
    }

    /** While a side is open, what was sent to it is what was received there plus what is queued. */
    ghost predicate HistoryFine(c: nat, side: nat)
      requires c < |channels| && side < 2 && |channels[c].endpoints| == 2
    {
      c < |history| && |history[c].sent| == 2 && |history[c].received| == 2
      && var e := channels[c].endpoints[side];
         && (!e.closed ==> history[c].sent[side] == history[c].received[side] + e.queue)
         && history[c].received[side] <= history[c].sent[side]
    }

    predicate Registered(l: nat) { exists i :: 0 <= i < |named| && named[i].1 == l }

    /** `loose` are the listeners a running bind has made but not (or no longer) registered. */
    ghost predicate ListenerFine(l: nat, loose: set<nat>)
      requires l < |listeners|
    {
      && (Registered(l) <==> listeners[l].refs > 0 && l !in loose)
      && (listeners[l].refs == 0 ==> listeners[l].pending == [])
      && (forall i :: 0 <= i < |listeners[l].pending| ==> listeners[l].pending[i].ChannelEnd?)
      && (forall i: nat :: i < |listeners[l].pending| ==> PendingOnce(l, i))
    }

    /** Nothing waits at the other end of the channel. */
    ghost predicate Quiet(h: Handle) {
      h.ChannelEnd? ==>
        h.channel < |channels| && h.side < 2 == |channels[h.channel].endpoints| && channels[h.channel].endpoints[1 - h.side].queue == []
    }

    /** A connection waiting to be accepted is held by this queue alone, and nothing was sent from it. */
    ghost predicate PendingOnce(l: nat, i: nat)
      requires l < |listeners| && i < |listeners[l].pending|
    {
      Known(listeners[l].pending[i]) && Refs(listeners[l].pending[i]) == 1 && Quiet(listeners[l].pending[i])
    }

    ghost predicate RegistryFine() {
      && (forall i :: 0 <= i < |named| ==> named[i].1 < |listeners|)
      && (forall i, j :: 0 <= i < j < |named| ==> named[i].0 != named[j].0 && named[i].1 != named[j].1)
    }

    ghost predicate Inv(extra: multiset<Handle>, loose: set<nat>) {
      && CountsExact(extra)
      && |history| == |channels|
      && (forall c: nat :: c < |channels| ==> ChannelFine(c))
      && (forall l: nat :: l < |listeners| ==> ListenerFine(l, loose))
      && RegistryFine()
    }
  }

  ghost function InTables(ts: seq<Option<HandleTable>>, h: Handle): nat {
    if ts == [] then 0
    else (if ts[0].Some? then multiset(ts[0].value)[Some(h)] else 0) + InTables(ts[1..], h)
  }

  ghost function InPending(ls: seq<Listener>, h: Handle): nat {
    if ls == [] then 0 else multiset(ls[0].pending)[h] + InPending(ls[1..], h)
  }

  ghost function InTable(t: Option<HandleTable>, h: Handle): nat {
    if t.Some? then multiset(t.value)[Some(h)] else 0
  }

  lemma {:induction false} TablesUpdate(ts: seq<Option<HandleTable>>, p: nat, t: Option<HandleTable>, h: Handle)
    requires p < |ts|
    ensures InTables(ts[p := t], h) == InTables(ts, h) - InTable(ts[p], h) + InTable(t, h)
    ensures InTables(ts, h) >= InTable(ts[p], h)
  {
    if p == 0 {
      assert ts[0 := t][1..] == ts[1..];
    } else {
      TablesUpdate(ts[1..], p - 1, t, h);
      assert ts[p := t][1..] == ts[1..][p - 1 := t];
    }
  }

  lemma {:induction false} TablesPad(ts: seq<Option<HandleTable>>, n: nat, h: Handle)
    ensures InTables(ts + seq(n, _ => None), h) == InTables(ts, h)
  {
    var pad: seq<Option<HandleTable>> := seq(n, _ => None);
    if ts == [] {
      assert ts + pad == pad;
      if n > 0 {
        assert pad[1..] == seq(n - 1, _ => None);
        TablesPad([], n - 1, h);
        assert [] + seq(n - 1, _ => None) == pad[1..];
      }
    } else {
      TablesPad(ts[1..], n, h);
      assert (ts + pad)[1..] == ts[1..] + pad;
    }
  }

  lemma {:induction false} PendingUpdate(ls: seq<Listener>, l: nat, x: Listener, h: Handle)
    requires l < |ls|
    ensures InPending(ls[l := x], h) == InPending(ls, h) - multiset(ls[l].pending)[h] + multiset(x.pending)[h]
    ensures InPending(ls, h) >= multiset(ls[l].pending)[h]
  {
    if l == 0 {
      assert ls[0 := x][1..] == ls[1..];
    } else {
      PendingUpdate(ls[1..], l - 1, x, h);
      assert ls[l := x][1..] == ls[1..][l - 1 := x];
    }
  }

  lemma {:induction false} PendingAppend(ls: seq<Listener>, x: Listener, h: Handle)
    ensures InPending(ls + [x], h) == InPending(ls, h) + multiset(x.pending)[h]
  {
    if ls == [] {
      assert ls + [x] == [x];
    } else {
      PendingAppend(ls[1..], x, h);
      assert (ls + [x])[1..] == ls[1..] + [x];
    }
  }

  // ---- handles move between tables, pending queues and running code ----

  /** A slot of task `p` changed from `was` to `now`. */
  lemma SlotMoves(a: State, b: State, p: nat, slot: nat, now: Option<Handle>)
    requires a.Live(p) && slot < MAX_HANDLES
    requires b == a.(tables := a.tables[p := Some(a.tables[p].value[slot := now])])
    ensures forall h: Handle ::
      b.Held(h) + (if a.tables[p].value[slot] == Some(h) then 1 else 0) == a.Held(h) + if now == Some(h) then 1 else 0
  {
    var t := a.tables[p].value;
    var t': HandleTable := t[slot := now];
    forall h: Handle
      ensures b.Held(h) + (if t[slot] == Some(h) then 1 else 0) == a.Held(h) + if now == Some(h) then 1 else 0
    {
      TablesUpdate(a.tables, p, Some(t'), h);
      assert multiset(t') == multiset(t) - multiset{t[slot]} + multiset{now};
    }
  }

  /** Nothing but the tables changed, and the handles held in all stayed the same. */
  lemma HandlesMoved(a: State, b: State, extra: multiset<Handle>, extra': multiset<Handle>, loose: set<nat>)
    requires a.Inv(extra, loose)
    requires b == a.(tables := b.tables)
    requires forall h: Handle :: b.Held(h) + extra'[h] == a.Held(h) + extra[h]
    ensures b.Inv(extra', loose)
  {
    forall h: Handle
      ensures (b.Held(h) + extra'[h] > 0 ==> b.Known(h)) && (b.Known(h) ==> b.Refs(h) == b.Held(h) + extra'[h])
    {
      assert b.Known(h) == a.Known(h);
    }
    forall c: nat | c < |b.channels|
      ensures b.ChannelFine(c)
    {
      ChannelUntouched(a, b, c);
    }
    forall l: nat | l < |b.listeners|
      ensures b.ListenerFine(l, loose)
    {
      assert a.ListenerFine(l, loose);
      assert b.Registered(l) == a.Registered(l);
      forall i: nat | i < |b.listeners[l].pending|
        ensures b.PendingOnce(l, i)
      {
        assert a.PendingOnce(l, i);
      }
    }
  }

  /** Pending connections stay alone while nobody counts their channels differently; new ones come alone. */
  lemma StillOnce(a: State, b: State, l: nat)
    requires l < |a.listeners| && l < |b.listeners| && |a.channels| <= |b.channels|
    requires forall c: nat :: c < |a.channels| ==> b.channels[c] == a.channels[c]
    requires forall i: nat :: i < |a.listeners[l].pending| ==> a.PendingOnce(l, i) && a.listeners[l].pending[i].ChannelEnd?
    requires forall x: Handle :: x in b.listeners[l].pending ==> x in a.listeners[l].pending || (b.Known(x) && b.Refs(x) == 1 && b.Quiet(x))
    ensures forall i: nat :: i < |b.listeners[l].pending| ==> b.PendingOnce(l, i)
  {
    forall i: nat | i < |b.listeners[l].pending|
      ensures b.PendingOnce(l, i)
    {
      var x := b.listeners[l].pending[i];
      assert x in b.listeners[l].pending;
      if x in a.listeners[l].pending {
        var j: nat :| j < |a.listeners[l].pending| && a.listeners[l].pending[j] == x;
        assert a.PendingOnce(l, j);
      }
    }
  }

  /** A pending handle is held. */
  lemma PendingHeld(st: State, l: nat, i: nat)
    requires l < |st.listeners| && i < |st.listeners[l].pending|
    ensures InPending(st.listeners, st.listeners[l].pending[i]) > 0
  {
    var h := st.listeners[l].pending[i];
    PendingUpdate(st.listeners, l, Listener(0, []), h);
    assert h in st.listeners[l].pending;
    assert multiset(st.listeners[l].pending)[h] > 0;
  }

  lemma ChannelUntouched(a: State, b: State, c: nat)
    requires c < |a.channels| && c < |b.channels| && a.channels[c] == b.channels[c]
    requires c < |a.history| && c < |b.history| && a.history[c] == b.history[c]
    requires a.ChannelFine(c)
    ensures b.ChannelFine(c)
  {
    forall side | 0 <= side < 2
      ensures b.SideFine(c, side)
    {
      assert a.SideFine(c, side);
    }
  }

  /** The handle in a free slot of task `p`. */
  lemma InstallKeeps(a: State, b: State, extra: multiset<Handle>, loose: set<nat>, p: nat, slot: nat, h: Handle)
    requires a.Inv(extra + multiset{h}, loose) && a.Live(p) && slot < MAX_HANDLES && a.tables[p].value[slot].None?
    requires b == a.(tables := a.tables[p := Some(a.tables[p].value[slot := Some(h)])])
    ensures b.Inv(extra, loose)
  {
    SlotMoves(a, b, p, slot, Some(h));
    HandlesMoved(a, b, extra + multiset{h}, extra, loose);
  }

  /** Taking the handle out of a slot of task `p`. */
  lemma TakeKeeps(a: State, b: State, extra: multiset<Handle>, loose: set<nat>, p: nat, slot: nat, h: Handle)
    requires a.Inv(extra, loose) && a.Live(p) && slot < MAX_HANDLES && a.tables[p].value[slot] == Some(h)
    requires b == a.(tables := a.tables[p := Some(a.tables[p].value[slot := None])])
    ensures b.Inv(extra + multiset{h}, loose)
  {
    SlotMoves(a, b, p, slot, None);
    HandlesMoved(a, b, extra, extra + multiset{h}, loose);
  }

  // ---- dropping and adding references ----

  /** A channel after one holder of `side` let go; the last one closes the side. */
  function Release(ch: Channel, side: nat): Channel
    requires side < 2 == |ch.refs| == |ch.endpoints|
  {
    if ch.refs[side] == 0 then ch
    else
      var n := ch.refs[side] - 1;
      var dropped := ch.(refs := ch.refs[side := n]);
      if n == 0 then dropped.(endpoints := dropped.endpoints[side := Endpoint([], true)]) else dropped
  }

  function SwapRemove<T>(s: seq<T>, i: nat): seq<T>
    requires i < |s|
  {
    s[i := s[|s| - 1]][..|s| - 1]
  }

  /** All of `a` except channel `c` is in `b`. */
  ghost predicate OnlyChannel(a: State, b: State, c: nat) {
    && c < |a.channels| && |b.channels| == |a.channels| && b.tables == a.tables && b.listeners == a.listeners && b.named == a.named
    && |b.history| == |a.history|
    && (forall d: nat :: d < |a.channels| && d != c ==> b.channels[d] == a.channels[d])
    && (forall d: nat :: d < |a.history| && d != c ==> b.history[d] == a.history[d])
  }

  /** Work on one channel keeps the invariant if that channel stays fine and its counts stay exact. */
  lemma OneChannel(a: State, b: State, c: nat, extra: multiset<Handle>, extra': multiset<Handle>, loose: set<nat>)
    requires a.Inv(extra, loose) && OnlyChannel(a, b, c) && b.ChannelFine(c)
    requires forall h: Handle :: !(h.ChannelEnd? && h.channel == c) ==> extra'[h] == extra[h]
    requires forall side: nat :: extra'[ChannelEnd(c, side)] > 0 ==> side < 2
    requires forall side: nat :: side < 2 ==>
      b.channels[c].refs[side] == a.Held(ChannelEnd(c, side)) + extra'[ChannelEnd(c, side)]
    requires forall l: nat, i: nat :: l < |a.listeners| && i < |a.listeners[l].pending| && IsEndOf(a.listeners[l].pending[i], c) ==>
      a.listeners[l].pending[i].side < 2 && b.channels[c].refs[a.listeners[l].pending[i].side] == 1 && b.Quiet(a.listeners[l].pending[i])
    ensures b.Inv(extra', loose)
  {
    assert a.ChannelFine(c);
    forall h: Handle
      ensures (b.Held(h) + extra'[h] > 0 ==> b.Known(h)) && (b.Known(h) ==> b.Refs(h) == b.Held(h) + extra'[h])
    {
      assert b.Held(h) == a.Held(h);
      assert (a.Held(h) + extra[h] > 0 ==> a.Known(h)) && (a.Known(h) ==> a.Refs(h) == a.Held(h) + extra[h]);
    }
    forall d: nat | d < |b.channels|
      ensures b.ChannelFine(d)
    {
      if d != c {
        assert a.ChannelFine(d);
        ChannelUntouched(a, b, d);
      }
    }
    forall l: nat | l < |b.listeners|
      ensures b.ListenerFine(l, loose)
    {
      assert a.ListenerFine(l, loose);
      assert b.Registered(l) == a.Registered(l);
      forall i: nat | i < |b.listeners[l].pending|
        ensures b.PendingOnce(l, i)
      {
        assert a.PendingOnce(l, i);
        assert IsEndOf(a.listeners[l].pending[i], c) || a.listeners[l].pending[i].channel != c;
      }
    }
  }

  predicate IsEndOf(h: Handle, c: nat) { h.ChannelEnd? && h.channel == c }

  /** Counting one side differently leaves pending connections alone when more than they count there. */
  lemma PendingElsewhere(a: State, c: nat, side: nat, extra: multiset<Handle>, loose: set<nat>, l: nat, i: nat)
    requires a.Inv(extra, loose) && l < |a.listeners| && i < |a.listeners[l].pending|
    requires IsEndOf(a.listeners[l].pending[i], c)
    requires InTables(a.tables, ChannelEnd(c, side)) + extra[ChannelEnd(c, side)] > 0
    ensures a.listeners[l].pending[i].side != side
    ensures a.listeners[l].pending[i].side < 2 && a.channels[c].refs[a.listeners[l].pending[i].side] == 1
    ensures a.Quiet(a.listeners[l].pending[i])
  {
    var h := a.listeners[l].pending[i];
    assert a.ListenerFine(l, loose) && a.PendingOnce(l, i);
    PendingHeld(a, l, i);
    assert a.Refs(h) == a.Held(h) + extra[h];
  }

  lemma ReleaseKeeps(a: State, b: State, c: nat, side: nat, extra: multiset<Handle>, loose: set<nat>)
    requires a.Inv(extra + multiset{ChannelEnd(c, side)}, loose)
    requires c < |a.channels| && side < 2 && |a.channels[c].refs| == 2 && |a.channels[c].endpoints| == 2
    requires b == a.(channels := a.channels[c := Release(a.channels[c], side)])
    ensures b.Inv(extra, loose)
    ensures a.channels[c].refs[side] > 0
  {
    var h := ChannelEnd(c, side);
    assert a.Known(h) && a.Refs(h) == a.Held(h) + extra[h] + 1;
    assert a.ChannelFine(c);
    forall s | 0 <= s < 2
      ensures b.SideFine(c, s)
    {
      assert a.SideFine(c, s);
    }
    forall s: nat | s < 2
      ensures b.channels[c].refs[s] == a.Held(ChannelEnd(c, s)) + extra[ChannelEnd(c, s)]
    {
      assert a.Known(ChannelEnd(c, s)) && a.Refs(ChannelEnd(c, s)) == a.channels[c].refs[s];
    }
    forall s: nat | extra[ChannelEnd(c, s)] > 0
      ensures s < 2
    {
      assert a.Known(ChannelEnd(c, s));
    }
    forall l: nat, i: nat | l < |a.listeners| && i < |a.listeners[l].pending| && IsEndOf(a.listeners[l].pending[i], c)
      ensures a.listeners[l].pending[i].side < 2 && b.channels[c].refs[a.listeners[l].pending[i].side] == 1
        && b.Quiet(a.listeners[l].pending[i])
    {
      PendingElsewhere(a, c, side, extra + multiset{h}, loose, l, i);
    }
    OneChannel(a, b, c, extra + multiset{h}, extra, loose);
  }

  lemma DupChannelKeeps(a: State, b: State, c: nat, side: nat, extra: multiset<Handle>, loose: set<nat>)
    requires a.Inv(extra, loose) && InTables(a.tables, ChannelEnd(c, side)) > 0
    requires c < |a.channels| && side < 2 && |a.channels[c].refs| == 2
    requires b == a.(channels := a.channels[c := a.channels[c].(refs := a.channels[c].refs[side := a.channels[c].refs[side] + 1])])
    ensures b.Inv(extra + multiset{ChannelEnd(c, side)}, loose)
  {
    var h := ChannelEnd(c, side);
    assert a.Known(h) && a.Refs(h) == a.Held(h) + extra[h];
    assert a.ChannelFine(c);
    forall s | 0 <= s < 2
      ensures b.SideFine(c, s)
    {
      assert a.SideFine(c, s);
    }
    forall s: nat | s < 2
      ensures b.channels[c].refs[s] == a.Held(ChannelEnd(c, s)) + (extra + multiset{h})[ChannelEnd(c, s)]
    {
      assert a.Known(ChannelEnd(c, s)) && a.Refs(ChannelEnd(c, s)) == a.channels[c].refs[s];
    }
    forall s: nat | (extra + multiset{h})[ChannelEnd(c, s)] > 0
      ensures s < 2
    {
      assert s == side || a.Known(ChannelEnd(c, s));
    }
    forall l: nat, i: nat | l < |a.listeners| && i < |a.listeners[l].pending| && IsEndOf(a.listeners[l].pending[i], c)
      ensures a.listeners[l].pending[i].side < 2 && b.channels[c].refs[a.listeners[l].pending[i].side] == 1
        && b.Quiet(a.listeners[l].pending[i])
    {
      PendingElsewhere(a, c, side, extra, loose, l, i);
    }
    OneChannel(a, b, c, extra, extra + multiset{h}, loose);
  }

  // ---- listeners ----

  /** All of `a` except listener `l` and the registry is in `b`. */
  ghost predicate OnlyListener(a: State, b: State, l: nat) {
    && l < |a.listeners| && |b.listeners| == |a.listeners|
    && b == a.(listeners := b.listeners, named := b.named)
    && forall k: nat :: k < |a.listeners| && k != l ==> b.listeners[k] == a.listeners[k]
  }

  /** Handle `h` is held as often as before, apart from what listener `l` itself counts. */
  ghost predicate Balanced(a: State, b: State, l: nat, extra: multiset<Handle>, extra': multiset<Handle>, h: Handle)
    requires l < |a.listeners| && l < |b.listeners|
  {
    b.Held(h) + extra'[h] + (if h == ListenerEnd(l) then a.listeners[l].refs else 0)
      == a.Held(h) + extra[h] + (if h == ListenerEnd(l) then b.listeners[l].refs else 0)
  }

  /** Work on one listener keeps the invariant if the books of its own and of its pending handles balance. */
  lemma OneListener(a: State, b: State, l: nat, extra: multiset<Handle>, extra': multiset<Handle>, loose: set<nat>, loose': set<nat>)
    requires a.Inv(extra, loose) && OnlyListener(a, b, l) && b.ListenerFine(l, loose') && b.RegistryFine()
    requires forall k: nat :: k != l ==> (k in loose <==> k in loose') && b.Registered(k) == a.Registered(k)
    requires forall h: Handle :: Balanced(a, b, l, extra, extra', h)
    ensures b.Inv(extra', loose')
  {
    forall h: Handle
      ensures (b.Held(h) + extra'[h] > 0 ==> b.Known(h)) && (b.Known(h) ==> b.Refs(h) == b.Held(h) + extra'[h])
    {
      assert b.Known(h) == a.Known(h) && Balanced(a, b, l, extra, extra', h);
      assert (a.Held(h) + extra[h] > 0 ==> a.Known(h)) && (a.Known(h) ==> a.Refs(h) == a.Held(h) + extra[h]);
    }
    forall c: nat | c < |b.channels|
      ensures b.ChannelFine(c)
    {
      assert a.ChannelFine(c);
      ChannelUntouched(a, b, c);
    }
    forall k: nat | k < |b.listeners|
      ensures b.ListenerFine(k, loose')
    {
      assert a.ListenerFine(k, loose);
      forall i: nat | k != l && i < |b.listeners[k].pending|
        ensures b.PendingOnce(k, i)
      {
        assert a.PendingOnce(k, i);
      }
    }
  }

  /** How pending handles of listener `l` count. */
  lemma PendingMoves(a: State, b: State, l: nat)
    requires OnlyListener(a, b, l)
    ensures forall h: Handle :: b.Held(h) + multiset(a.listeners[l].pending)[h] == a.Held(h) + multiset(b.listeners[l].pending)[h]
  {
    assert b.listeners == a.listeners[l := b.listeners[l]];
    forall h: Handle
      ensures b.Held(h) + multiset(a.listeners[l].pending)[h] == a.Held(h) + multiset(b.listeners[l].pending)[h]
    {
      PendingUpdate(a.listeners, l, b.listeners[l], h);
    }
  }

  /** The entry of listener `l`, if it has one, swapped out of the registry. */
  function Unregister(named: seq<(string, nat)>, l: nat): seq<(string, nat)> {
    var i := PositionOf(named, l);
    if i < |named| then SwapRemove(named, i) else named
  }

  function PositionOf(named: seq<(string, nat)>, l: nat): (i: nat)
    ensures i <= |named| && (i < |named| ==> named[i].1 == l) && forall j :: 0 <= j < i ==> named[j].1 != l
  {
    if named == [] || named[0].1 == l then 0 else PositionOf(named[1..], l) + 1
  }

  /** Entry `i` is gone, and the last entry has taken its place. */
  predicate LastFills(was: seq<(string, nat)>, now: seq<(string, nat)>, i: nat) {
    && i < |was| && |now| == |was| - 1
    && forall j :: 0 <= j < |now| ==> now[j] == was[if j == i then |was| - 1 else j]
  }

  /** Unregistering removes that listener only. */
  lemma UnregisterRemoves(a: State, b: State, l: nat)
    requires a.RegistryFine() && b.named == Unregister(a.named, l) && |b.listeners| == |a.listeners|
    ensures b.RegistryFine() && !b.Registered(l)
    ensures forall k: nat :: k != l ==> b.Registered(k) == a.Registered(k)
    ensures forall x: (string, nat) :: x in b.named <==> x in a.named && x.1 != l
    ensures !a.Registered(l) ==> b.named == a.named
    ensures forall i :: 0 <= i < |a.named| && a.named[i].1 == l ==> LastFills(a.named, b.named, i)
  {
    var i := PositionOf(a.named, l);
    if i < |a.named| {
      SwapRemoved(a.named, i);
    }
    forall x: (string, nat)
      ensures x in b.named <==> x in a.named && x.1 != l
    {
    }
    forall k: nat | k != l
      ensures b.Registered(k) == a.Registered(k)
    {
      StillRegistered(a, b, l, k);
    }
  }

  lemma StillRegistered(a: State, b: State, l: nat, k: nat)
    requires k != l && forall x: (string, nat) :: x in b.named <==> x in a.named && x.1 != l
    ensures b.Registered(k) == a.Registered(k)
  {
    if a.Registered(k) {
      var j :| 0 <= j < |a.named| && a.named[j].1 == k;
      assert a.named[j] in b.named;
    }
    if b.Registered(k) {
      var j :| 0 <= j < |b.named| && b.named[j].1 == k;
      assert b.named[j] in a.named;
    }
  }

  lemma SwapRemoved(s: seq<(string, nat)>, i: nat)
    requires i < |s|
    requires forall j, k :: 0 <= j < k < |s| ==> s[j].0 != s[k].0 && s[j].1 != s[k].1
    ensures forall x: (string, nat) :: x in SwapRemove(s, i) <==> x in s && x != s[i]
    ensures forall j, k :: 0 <= j < k < |s| - 1 ==> SwapRemove(s, i)[j].0 != SwapRemove(s, i)[k].0 && SwapRemove(s, i)[j].1 != SwapRemove(s, i)[k].1
  {
    var r := SwapRemove(s, i);
    forall x: (string, nat)
      ensures x in r <==> x in s && x != s[i]
    {
      if x in s && x != s[i] {
        var j :| 0 <= j < |s| && s[j] == x;
        assert r[if j == |s| - 1 then i else j] == x;
      }
    }
  }

  lemma DupListenerKeeps(a: State, b: State, l: nat, extra: multiset<Handle>, loose: set<nat>)
    requires a.Inv(extra, loose) && l < |a.listeners| && a.listeners[l].refs > 0
    requires b == a.(listeners := a.listeners[l := a.listeners[l].(refs := a.listeners[l].refs + 1)])
    ensures b.Inv(extra + multiset{ListenerEnd(l)}, loose)
  {
    PendingMoves(a, b, l);
    assert forall k: nat :: b.Registered(k) == a.Registered(k);
    assert a.ListenerFine(l, loose);
    StillOnce(a, b, l);
    OneListener(a, b, l, extra, extra + multiset{ListenerEnd(l)}, loose, loose);
  }

  lemma DropListenerKeeps(a: State, b: State, l: nat, extra: multiset<Handle>, loose: set<nat>)
    requires a.Inv(extra + multiset{ListenerEnd(l)}, loose) && l < |a.listeners| && a.listeners[l].refs > 1
    requires b == a.(listeners := a.listeners[l := a.listeners[l].(refs := a.listeners[l].refs - 1)])
    ensures b.Inv(extra, loose)
  {
    PendingMoves(a, b, l);
    assert forall k: nat :: b.Registered(k) == a.Registered(k);
    assert a.ListenerFine(l, loose);
    StillOnce(a, b, l);
    OneListener(a, b, l, extra + multiset{ListenerEnd(l)}, extra, loose, loose);
  }

  /** The last holder let go: the listener leaves the registry and its pending handles are in hand. */
  lemma CloseListenerKeeps(a: State, b: State, l: nat, extra: multiset<Handle>, loose: set<nat>)
    requires a.Inv(extra + multiset{ListenerEnd(l)}, loose) && l < |a.listeners| && a.listeners[l].refs == 1
    requires b == a.(listeners := a.listeners[l := Listener(0, [])], named := Unregister(a.named, l))
    ensures b.Inv(extra + multiset(a.listeners[l].pending), loose)
  {
    PendingMoves(a, b, l);
    UnregisterRemoves(a, b, l);
    OneListener(a, b, l, extra + multiset{ListenerEnd(l)}, extra + multiset(a.listeners[l].pending), loose, loose);
  }
}
